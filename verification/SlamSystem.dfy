/** Client, server and the network between them, which may lose, repeat and reorder
    whatever was sent. */
module SlamSystem {
  import opened Bytes
  import opened SlamCode
  import opened SlamNack
  import opened SlamBlocks
  import opened SlamClient

  /** The client before and during its session; memory is what its image held at first. */
  datatype Station = Outside | Inside(v: Receiver, memory: seq<byte>)

  /** nacks and data are all status and data packets ever sent, asked says whether a request
      was; any of them can arrive at any time, any number of times, or never. */
  datatype System = System(client: Station, todo: seq<nat>, nacks: set<seq<nat>>, data: set<nat>, asked: bool)

  datatype Setup = Setup(file: seq<byte>, block: nat)

  predicate Sensible(w: Setup)
  {
    w.block > 0 && 0 < |w.file| < LIMIT
  }

  function Count(w: Setup): (n: nat)
    requires Sensible(w)
  {
    Packets(|w.file|, w.block)
  }

  ghost predicate Init(w: Setup, s: System)
  {
    Sensible(w) && s == System(Outside, [], {}, {}, false)
  }

  /** The runs of the client's next status packet, and its bits with the trailer set. */
  function Report(w: Setup, c: Station): (runs: seq<nat>)
    requires Sensible(w) && (c.Inside? ==> |c.v.bits| == Count(w) + 1)
  {
    match c
    case Outside => [0, 1]
    case Inside(v, _) => Scan(v.bits[..Count(w)], true, 0)
  }

  /** The client times out or is asked, and reports as many runs as fit. */
  ghost predicate Reports(w: Setup, s: System, s': System, k: nat)
    requires Sound(w, s)
  {
    var runs := Report(w, s.client);
    && k <= |runs|
    && s' == s.(nacks := s.nacks + {runs[..k]},
                client := if s.client.Inside? then Inside(WithTrailer(s.client.v), s.client.memory) else Outside)
  }

  /** A server that is not transmitting takes a status packet. */
  ghost predicate Takes(s: System, s': System, runs: seq<nat>)
  {
    s.todo == [] && runs in s.nacks && s' == s.(todo := Sends(0, runs))
  }

  ghost predicate Transmits(s: System, s': System)
  {
    s.todo != [] && s' == s.(todo := s.todo[1..], data := s.data + {s.todo[0]})
  }

  /** A server that is not transmitting asks a client it knows for its status. */
  ghost predicate Pings(s: System, s': System)
  {
    s.todo == [] && s.nacks != {} && s' == s.(asked := true)
  }

  /** The first packet that arrives, of either kind, begins the session. */
  function Entered(w: Setup, c: Station, memory: seq<byte>): (c': Station)
    requires Sensible(w)
    ensures c'.Inside?
  {
    if c.Inside? then c else Inside(Fresh(Count(w), memory), memory)
  }

  /** A data packet arrives. */
  ghost predicate Arrives(w: Setup, s: System, s': System, n: nat, memory: seq<byte>)
    requires Sound(w, s)
  {
    && n in s.data && |memory| == (Count(w) + 1) * w.block
    && var c := Entered(w, s.client, memory);
       s' == s.(client := Inside(Delivered(c.v, w.file, w.block, n), c.memory))
  }

  /** A request arrives, and the client reports. */
  ghost predicate Requested(w: Setup, s: System, s': System, k: nat, memory: seq<byte>)
    requires Sound(w, s)
  {
    && s.asked && |memory| == (Count(w) + 1) * w.block
    && var s1 := s.(client := Entered(w, s.client, memory));
       Sound(w, s1) && Reports(w, s1, s', k)
  }

  ghost predicate Next(w: Setup, s: System, s': System)
    requires Sound(w, s)
  {
    || (exists k :: Reports(w, s, s', k))
    || (exists runs :: Takes(s, s', runs))
    || Transmits(s, s')
    || Pings(s, s')
    || (exists n, memory :: Arrives(w, s, s', n, memory))
    || (exists k, memory :: Requested(w, s, s', k, memory))
  }

  ghost predicate Below(ps: seq<nat>, count: nat)
  {
    forall i :: 0 <= i < |ps| ==> ps[i] < count
  }

  /** The invariant: nothing but packets of the file is ever asked for, queued or sent, the
      client's bits, count and image agree, and its bits are packets that were sent. */
  ghost predicate Sound(w: Setup, s: System)
  {
    && Sensible(w)
    && (forall runs :: runs in s.nacks ==> Below(Sends(0, runs), Count(w)))
    && Below(s.todo, Count(w))
    && (forall n :: n in s.data ==> n < Count(w))
    && (s.client.Inside? ==>
          && Assembled(s.client.v, w.file, s.client.memory, w.block)
          && forall n :: 0 <= n < Count(w) && s.client.v.bits[n] ==> n in s.data)
  }

  lemma InitSound(w: Setup, s: System)
    requires Init(w, s)
    ensures Sound(w, s)
  {
  }

  lemma SomePackets(w: Setup)
    requires Sensible(w)
    ensures Count(w) >= 1
  {
    PacketsBound(|w.file|, w.block);
  }

  /** Whatever part of its report arrives, it asks only for packets the client misses. */
  lemma ReportBelow(w: Setup, c: Station, k: nat)
    requires Sensible(w) && (c.Inside? ==> |c.v.bits| == Count(w) + 1) && k <= |Report(w, c)|
    ensures Below(Sends(0, Report(w, c)[..k]), Count(w))
    ensures c.Inside? ==> forall n :: n in Sends(0, Report(w, c)[..k]) ==> n < Count(w) && !c.v.bits[n]
  {
    hide Scan, Sends, Missing, Packets;
    var runs := Report(w, c);
    SomePackets(w);
    SendsPrefix(0, runs, k);
    if c.Inside? {
      var bits := c.v.bits[..Count(w)];
      NackAsksForMissing(bits);
      MissingExact(bits, 0);
      forall i | 0 <= i < |Sends(0, runs[..k])| ensures Sends(0, runs[..k])[i] < Count(w) && !c.v.bits[Sends(0, runs[..k])[i]] {
        assert Sends(0, runs[..k])[i] == Sends(0, runs)[i];
        assert Sends(0, runs)[i] in Missing(bits, 0);
      }
    } else {
      FirstReport();
      assert Sends(0, runs) == [0];
    }
  }

  lemma FirstReport()
    ensures Sends(0, [0, 1]) == [0]
  {
    assert Sends(1, [0 as nat, 1][2..]) == [];
    assert Range(0, 1) == [0];
  }

  lemma ReportsKeeps(w: Setup, s: System, s': System, k: nat)
    requires Sound(w, s) && Reports(w, s, s', k)
    ensures Sound(w, s')
  {
    hide Scan, Sends, Packets, Assembled;
    SomePackets(w);
    InsideSized(w, s);
    ReportBelow(w, s.client, k);
    if s.client.Inside? {
      TrailerKeeps(s.client.v, w.file, s.client.memory, w.block, !s.client.v.bits[|s.client.v.bits| - 2]);
    }
  }

  lemma InsideSized(w: Setup, s: System)
    requires Sound(w, s)
    ensures s.client.Inside? ==> |s.client.v.bits| == Count(w) + 1
  {
  }

  /** Entering a session keeps the invariant, so a request can always be answered. */
  lemma EnteredKeeps(w: Setup, s: System, memory: seq<byte>)
    requires Sound(w, s) && |memory| == (Count(w) + 1) * w.block
    ensures Sound(w, s.(client := Entered(w, s.client, memory)))
  {
    hide Sends, Packets, Assembled;
    if s.client.Outside? {
      StartsAssembled(Fresh(Count(w), memory), w.file, memory, w.block);
    }
  }

  lemma ArrivesKeeps(w: Setup, s: System, s': System, n: nat, memory: seq<byte>)
    requires Sound(w, s) && Arrives(w, s, s', n, memory)
    ensures Sound(w, s')
  {
    hide Sends, Packets, BlockLength, Assembled, Store;
    var c := Entered(w, s.client, memory);
    EnteredKeeps(w, s, memory);
    InsideSized(w, s.(client := c));
    DeliveredKeeps(c.v, w.file, c.memory, w.block, n);
  }

  lemma RequestedKeeps(w: Setup, s: System, s': System, k: nat, memory: seq<byte>)
    requires Sound(w, s) && Requested(w, s, s', k, memory)
    ensures Sound(w, s')
  {
    hide Assembled, Sends, Packets, Reports;
    EnteredKeeps(w, s, memory);
    ReportsKeeps(w, s.(client := Entered(w, s.client, memory)), s', k);
  }

  lemma NextKeeps(w: Setup, s: System, s': System)
    requires Sound(w, s) && Next(w, s, s')
    ensures Sound(w, s')
  {
    hide Sends, Packets, Assembled, Reports, Arrives, Requested;
    if k :| Reports(w, s, s', k) {
      ReportsKeeps(w, s, s', k);
    } else if n, memory :| Arrives(w, s, s', n, memory) {
      ArrivesKeeps(w, s, s', n, memory);
    } else if k, memory :| Requested(w, s, s', k, memory) {
      RequestedKeeps(w, s, s', k, memory);
    }
  }

  /** A run takes a step from every state. (Next is defined in sound states; EveryRun shows
      that there are no others.) */
  ghost predicate Run(w: Setup, run: seq<System>)
  {
    |run| > 0 && Init(w, run[0]) && forall i :: 0 <= i < |run| - 1 ==> Sound(w, run[i]) ==> Next(w, run[i], run[i + 1])
  }

  /** In every state of every run, bits, count and image agree, and a client that has
      counted all packets has the file. */
  lemma {:induction false} EveryRun(w: Setup, run: seq<System>, i: nat)
    requires Run(w, run) && i < |run|
    ensures Sound(w, run[i])
    ensures run[i].client.Inside? && run[i].client.v.received == Count(w) ==>
              |w.file| <= |run[i].client.v.image| && run[i].client.v.image[..|w.file|] == w.file
    decreases i
  {
    hide Sound, Next, Assembled, Packets;
    if i == 0 {
      InitSound(w, run[0]);
    } else {
      EveryRun(w, run, i - 1);
      assert Sound(w, run[i - 1]) ==> Next(w, run[i - 1], run[i - 1 + 1]);
      NextKeeps(w, run[i - 1], run[i]);
    }
    Completed(w, run[i]);
  }

  lemma Completed(w: Setup, s: System)
    requires Sound(w, s)
    ensures s.client.Inside? && s.client.v.received == Count(w) ==>
              |w.file| <= |s.client.v.image| && s.client.v.image[..|w.file|] == w.file
  {
    hide Assembled, Packets, Sends;
    if s.client.Inside? && s.client.v.received == Count(w) {
      CompleteIsFile(s.client.v, w.file, s.client.memory, w.block);
    }
  }

  // -------------------------------------------------------------------- completing

  /** Packets arriving one after the other. */
  function DeliverAll(w: Setup, v: Receiver, ns: seq<nat>): (v': Receiver)
    requires Sensible(w) && |v.bits| == Count(w) + 1 && |v.image| == |v.bits| * w.block && Below(ns, Count(w))
    ensures |v'.bits| == |v.bits| && |v'.image| == |v.image|
    decreases |ns|
  {
    if ns == [] then v else DeliverAll(w, Delivered(v, w.file, w.block, ns[0]), ns[1..])
  }

  /** Every packet is taken, except a last one that fills its block. */
  predicate Taken(w: Setup, n: nat)
    requires Sensible(w)
  {
    n < Count(w) - 1 || |w.file| % w.block != 0
  }

  lemma {:induction false} DeliverAllBits(w: Setup, v: Receiver, memory: seq<byte>, ns: seq<nat>, n: nat)
    requires Sensible(w) && Assembled(v, w.file, memory, w.block) && Below(ns, Count(w)) && n < Count(w)
    ensures Assembled(DeliverAll(w, v, ns), w.file, memory, w.block)
    ensures DeliverAll(w, v, ns).bits[n] <==> v.bits[n] || (n in ns && Taken(w, n))
    decreases |ns|
  {
    hide Assembled, Packets, BlockLength, Store;
    AssembledSized(w, v, memory);
    if ns != [] {
      var v1 := Delivered(v, w.file, w.block, ns[0]);
      DeliveredKeeps(v, w.file, memory, w.block, ns[0]);
      assert v1.bits[n] <==> v.bits[n] || (n == ns[0] && Taken(w, n));
      DeliverAllBits(w, v1, memory, ns[1..], n);
      assert n in ns <==> n == ns[0] || n in ns[1..];
    }
  }

  lemma AssembledSized(w: Setup, v: Receiver, memory: seq<byte>)
    requires Sensible(w) && Assembled(v, w.file, memory, w.block)
    ensures |v.bits| == Count(w) + 1 && |v.image| == |v.bits| * w.block && v.received == CountTrue(v.bits[..Count(w)])
  {
  }

  lemma {:induction false} AllTrue(bits: seq<bool>)
    requires forall i :: 0 <= i < |bits| ==> bits[i]
    ensures CountTrue(bits) == |bits|
    decreases bits
  {
    if bits != [] {
      AllTrue(bits[1..]);
    }
  }

  /** One round is enough: if all that the client asked for arrives, in any order and with
      anything else in between, the client has the file; provided the last block is short. */
  lemma OneRoundCompletes(w: Setup, v: Receiver, memory: seq<byte>, ns: seq<nat>)
    requires Sensible(w) && Assembled(v, w.file, memory, w.block) && Below(ns, Count(w))
    requires |v.bits| == Count(w) + 1 && forall n :: n in Sends(0, Scan(v.bits[..Count(w)], true, 0)) ==> n in ns
    requires |w.file| % w.block != 0
    ensures |v.image| == |v.bits| * w.block
    ensures DeliverAll(w, v, ns).received == Count(w)
    ensures |w.file| <= |v.image| && DeliverAll(w, v, ns).image[..|w.file|] == w.file
  {
    hide Assembled, Packets, Scan, Sends, Missing, CountTrue;
    AssembledSized(w, v, memory);
    var v', bits := DeliverAll(w, v, ns), v.bits[..Count(w)];
    NackAsksForMissing(bits);
    MissingExact(bits, 0);
    forall n: nat | n < Count(w) ensures v'.bits[..Count(w)][n] {
      DeliverAllBits(w, v, memory, ns, n);
      if !v.bits[n] {
        assert n in Missing(bits, 0);
      }
    }
    SomePackets(w);
    DeliverAllBits(w, v, memory, ns, 0);
    AssembledSized(w, v', memory);
    AllTrue(v'.bits[..Count(w)]);
    CompleteIsFile(v', w.file, memory, w.block);
  }

  /** If the last block is full, no packets ever complete the transfer. */
  lemma FullLastBlockNeverCompletes(w: Setup, v: Receiver, memory: seq<byte>, ns: seq<nat>)
    requires Sensible(w) && Assembled(v, w.file, memory, w.block) && Below(ns, Count(w))
    requires |w.file| % w.block == 0 && |v.bits| == Count(w) + 1 >= 2 && !v.bits[Count(w) - 1]
    ensures |v.image| == |v.bits| * w.block && DeliverAll(w, v, ns).received < Count(w)
  {
    hide Assembled, Packets, CountTrue;
    AssembledSized(w, v, memory);
    var last := Count(w) - 1;
    DeliverAllBits(w, v, memory, ns, last);
    var v' := DeliverAll(w, v, ns);
    AssembledSized(w, v', memory);
    if v'.received == Count(w) {
      CountFull(v'.bits[..Count(w)]);
    }
  }

  /** Nothing has been received at first, so a download of such a file never ends. */
  lemma NeverFromFresh(w: Setup, memory: seq<byte>, ns: seq<nat>)
    requires Sensible(w) && |memory| == (Count(w) + 1) * w.block && Below(ns, Count(w)) && |w.file| % w.block == 0
    ensures DeliverAll(w, Fresh(Count(w), memory), ns).received < Count(w)
  {
    hide Assembled, Packets, DeliverAll;
    SomePackets(w);
    StartsAssembled(Fresh(Count(w), memory), w.file, memory, w.block);
    FullLastBlockNeverCompletes(w, Fresh(Count(w), memory), memory, ns);
  }
}
