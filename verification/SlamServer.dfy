/** The SLAM server: it takes a status packet apart, run by run, while it transmits. */
module SlamServer {
  import opened Bytes
  import opened SlamCode
  import opened SlamNack
  import opened SlamBlocks

  const SLAM_BLOCK_SIZE: nat := 1451
  const MAX_DATA_HDR: nat := 28

  datatype State = Pinging | Waiting | Receiving | Transmitting

  /** What a data packet looks like. */
  function DataPacket(h: Header, file: seq<byte>, n: nat): (bytes: seq<byte>)
    requires Fits(h) && n < U32
  {
    HeaderBytes(h) + Encoding(n) + Block(file, n, h.block)
  }

  /** A block's worth of the file from some place on, or what is left. */
  function From(file: seq<byte>, off: nat): (data: seq<byte>)
    requires off <= |file|
  {
    if off + SLAM_BLOCK_SIZE <= |file| then file[off..off + SLAM_BLOCK_SIZE] else file[off..]
  }

  /** Packet n as it is composed from offset off. */
  function Message(h: Header, file: seq<byte>, n: nat, off: nat): (bytes: seq<byte>)
    requires Fits(h) && n < U32 && off <= |file|
  {
    HeaderBytes(h) + Encoding(n) + From(file, off)
  }

  /** What 32-bit arithmetic makes of a packet's offset. */
  function Offset(n: nat): (off: nat)
  {
    n * SLAM_BLOCK_SIZE % U32
  }

  lemma MessageIsPacket(h: Header, file: seq<byte>, n: nat)
    requires Fits(h) && n < U32 && |file| < U32 && h.block == SLAM_BLOCK_SIZE && n * SLAM_BLOCK_SIZE < |file|
    ensures Offset(n) == n * SLAM_BLOCK_SIZE && Message(h, file, n, Offset(n)) == DataPacket(h, file, n)
  {
    hide Encoding, HeaderBytes;
  }

  /** Runs as clients write them: after received ones, at least one missing. */
  ghost predicate Alternating(runs: seq<nat>)
  {
    Small(runs) && forall i :: 0 <= i < |runs| && i % 2 == 1 ==> runs[i] >= 1
  }

  lemma {:induction false} SumSplits(runs: seq<nat>)
    requires |runs| >= 2
    ensures Sum(runs) == runs[0] + runs[1] + Sum(runs[2..])
  {
    assert runs[1..][1..] == runs[2..];
  }

  class Server {
    const file: seq<byte>
    const transaction: nat
    var state: State
    var packet: nat
    var packetCount: nat
    var nack: seq<byte>
    var ptr: nat
    ghost var runs: seq<nat>   // of the status packet, not taken yet

    constructor (file: seq<byte>, transaction: nat)
      requires |file| < U32 && transaction < U32
      ensures this.file == file && this.transaction == transaction && state == Waiting
    {
      this.file, this.transaction := file, transaction;
      state, packet, packetCount, nack, ptr, runs := Waiting, 0, 0, [], 0, [];
    }

    ghost function Header(): (h: Header)
    {
      SlamCode.Header(transaction, |file|, SLAM_BLOCK_SIZE)
    }

    /** The packets still to be transmitted for the status packet at hand. */
    ghost function Todo(): seq<nat>
      reads this
    {
      Range(packet, packetCount) + Sends(packet + packetCount, runs)
    }

    /** In the middle of a transmission. */
    ghost predicate Busy()
      reads this
    {
      && |file| < U32 && transaction < U32
      && packetCount >= 1 && ptr <= |nack| && Planned(packet + packetCount, runs, nack[ptr..])
    }

    /** A status packet arrives. Without two codes at the front it is dropped. */
    method OnNack(bytes: seq<byte>, ghost all: seq<nat>)
      requires state == Waiting && |file| < U32 && transaction < U32
      modifies this
      ensures match Codes2(bytes)
              case None => state == Waiting
              case Some(p) => state == Transmitting && packet == p.0 && packetCount == p.1 && ptr <= |nack| && nack[ptr..] == p.2
      ensures state == Transmitting ==> packet < U32 && packetCount < U32
      ensures Alternating(all) && Sum(all) < LIMIT && bytes == NackBytes(all) ==>
                if |all| < 2 then state == Waiting else state == Transmitting && Busy() && Todo() == Sends(0, all)
    {
      hide Encoding, Decoding, Codes, Range, Sum;
      nack, ptr := bytes, 0;
      assert nack[0..] == nack;
      if Alternating(all) && Sum(all) < LIMIT && bytes == NackBytes(all) {
        TwoRuns(all);
      }
      var first := TakeCode();
      if first == None {
        return;
      }
      var second := TakeCode();
      if second == None {
        return;
      }
      packet, packetCount, runs := first.value, second.value, if |all| >= 2 then all[2..] else [];
      state := Transmitting;
    }

    /** slam_decode at ptr, which moves on. */
    method TakeCode() returns (r: Option<nat>)
      requires ptr <= |nack|
      modifies this`ptr
      ensures match Decoding(nack[old(ptr)..])
              case None => r == None && ptr == old(ptr)
              case Some(p) => r == Some(p.0) && p.0 < LIMIT && ptr == old(ptr) + p.1 <= |nack| && nack[ptr..] == nack[old(ptr)..][p.1..]
    {
      hide Decoding;
      NoBytes();
      assert nack[ptr..|nack|] == nack[ptr..];
      var d := SlamDecode(nack, ptr, |nack|);
      if d == None {
        return None;
      }
      assert nack[d.value.1..] == nack[ptr..][d.value.1 - ptr..];
      DecodedSmall(nack[ptr..]);
      ptr := d.value.1;
      return Some(d.value.0);
    }

    /** Transmits one packet and finds out which is next; whatever the status packet asks for.
        For those that clients write, Todo says what is left. */
    method Transmit() returns (message: Option<seq<byte>>)
      requires state == Transmitting && |file| < U32 && transaction < U32 && packet < U32 && packetCount < U32 && ptr <= |nack|
      modifies this
      ensures ptr <= |nack| && packet < U32 && packetCount < U32
      ensures Offset(old(packet)) >= |file| ==>
                message == None && state == Receiving && Same(old(packet), old(packetCount), old(nack), old(ptr), old(runs))
      ensures Offset(old(packet)) < |file| ==>
                && message == Some(Message(Header(), file, old(packet), Offset(old(packet))))
                && if old(packetCount) != 1 then
                     state == Receiving && Same((old(packet) + 1) % U32, (old(packetCount) - 1) % U32, old(nack), old(ptr), old(runs))
                   else match Codes2(old(nack[ptr..]))
                        case None => state == Pinging
                        case Some(p) => state == Receiving && packet == (old(packet) + 1 + p.0) % U32
                                        && packetCount == p.1 && nack[ptr..] == p.2
      ensures old(Busy()) && old(packet) >= Packets(|file|, SLAM_BLOCK_SIZE) && Offset(old(packet)) >= |file| ==>
                Busy() && Todo() == old(Todo())
      ensures old(Busy()) && old(packet) < Packets(|file|, SLAM_BLOCK_SIZE) ==>
                && message == Some(DataPacket(Header(), file, old(packet)))
                && old(Todo()) == [old(packet)] + Todo()
                && (state == if Todo() == [] then Pinging else Receiving)
                && (state == Receiving ==> Busy())
    {
      hide Encoding, Codes, Range, Sum, Packets, Sends, HeaderBytes, BlockLength, DataPacket, Decoding, Message, Offset, Codes2;
      hide Planned;
      state := Receiving;
      var offset := Offset(packet);
      BlockStarts(packet, |file|);
      if packet * SLAM_BLOCK_SIZE < |file| {
        MessageIsPacket(Header(), file, packet);
      }
      if offset >= |file| {
        return None;
      }
      message := Compose(packet, offset);
      Proceed();
    }

    /** Finds out which packet is next. */
    method Proceed()
      requires state == Receiving && |file| < U32 && transaction < U32 && packet < U32 && packetCount < U32 && ptr <= |nack|
      modifies this
      ensures ptr <= |nack| && packet < U32 && packetCount < U32
      ensures if old(packetCount) != 1 then
                state == Receiving && Same((old(packet) + 1) % U32, (old(packetCount) - 1) % U32, old(nack), old(ptr), old(runs))
              else match Codes2(old(nack[ptr..]))
                   case None => state == Pinging
                   case Some(p) => state == Receiving && packet == (old(packet) + 1 + p.0) % U32
                                   && packetCount == p.1 && nack[ptr..] == p.2
      ensures old(Busy()) ==>
                && old(Todo()) == [old(packet)] + Todo()
                && (state == if Todo() == [] then Pinging else Receiving)
                && (state == Receiving ==> Busy())
    {
      hide Range, Sum, Sends, Codes2, Planned;
      if Busy() {
        TodoStep(packet, packetCount, runs);
        PlannedBelow(packet + packetCount, runs, nack[ptr..]);
      }
      packet, packetCount := (packet + 1) % U32, (packetCount - 1) % U32;
      if packetCount == 0 {
        NextPair();
      }
    }

    ghost predicate Same(packet: nat, packetCount: nat, nack: seq<byte>, ptr: nat, runs: seq<nat>)
      reads this
    {
      this.packet == packet && this.packetCount == packetCount && this.nack == nack && this.ptr == ptr && this.runs == runs
    }

    /** At the end of a run: skip what was received, and take the next run of missing ones. */
    method NextPair()
      requires packetCount == 0 && |file| < U32 && transaction < U32 && state == Receiving && packet < U32 && ptr <= |nack|
      modifies this
      ensures ptr <= |nack| && packet < U32 && packetCount < U32
      ensures match Codes2(old(nack[ptr..]))
              case None => state == Pinging
              case Some(p) => state == Receiving && packet == (old(packet) + p.0) % U32 && packetCount == p.1 && nack[ptr..] == p.2
      ensures old(Planned(packet, runs, nack[ptr..])) ==>
                && Todo() == old(Sends(packet, runs))
                && (state == if Todo() == [] then Pinging else Receiving)
                && (state == Receiving ==> Busy())
    {
      hide Decoding, Planned, Range, Sends;
      ghost var all, start, rest, planned := runs, packet, nack[ptr..], Planned(packet, runs, nack[ptr..]);
      if planned {
        PlannedPair(start, all, rest);
      }
      runs := [];
      NothingToSend(runs);
      NoRange(packet);
      var skip := TakeCode();
      if skip == None {
        state := Pinging;
        return;
      }
      packet := (packet + skip.value) % U32;
      NoRange(packet);
      var count := TakeCode();
      if count == None {
        state := Pinging;
        return;
      }
      packetCount := count.value;
      if planned {
        runs := all[2..];
      }
    }

    /** Header, packet number and block in one buffer. */
    method Compose(n: nat, offset: nat) returns (message: Option<seq<byte>>)
      requires |file| < U32 && transaction < U32 && n < U32 && offset < |file|
      ensures message == Some(Message(Header(), file, n, offset))
    {
      hide Encoding;
      var data := new byte[MAX_DATA_HDR + SLAM_BLOCK_SIZE];
      var p := PutHeader(data, data.Length);
      p := Append(data, p, data.Length, n, HeaderBytes(Header()));
      var bytes := if offset + SLAM_BLOCK_SIZE <= |file| then file[offset..offset + SLAM_BLOCK_SIZE] else file[offset..];
      message := Some(data[..p] + bytes);
    }

    method PutHeader(data: array<byte>, end: nat) returns (p: nat)
      requires |file| < U32 && transaction < U32 && 20 <= end <= data.Length
      modifies data
      ensures p <= 15 && p == |HeaderBytes(Header())| && data[..p] == HeaderBytes(Header())
    {
      hide Encoding;
      WidthBound(transaction);
      WidthBound(|file|);
      WidthBound(SLAM_BLOCK_SIZE);
      p := Append(data, 0, end, transaction, []);
      p := Append(data, p, end, |file|, Encoding(transaction));
      p := Append(data, p, end, SLAM_BLOCK_SIZE, Encoding(transaction) + Encoding(|file|));
    }

    /** Asks the first client known, if any, for its status: the packet is all header. */
    method Ping(known: bool) returns (message: Option<seq<byte>>)
      requires state == Pinging && |file| < U32 && transaction < U32
      modifies this`state
      ensures state == Waiting && message == if known then Some(HeaderBytes(Header())) else None
    {
      hide Encoding;
      state := Waiting;
      if !known {
        return None;
      }
      var request := new byte[MAX_DATA_HDR - 7];
      var p := PutHeader(request, request.Length - 1);
      message := Some(request[..p]);
    }

    /** After each packet, look for arrivals until there are none. */
    method Poll(arrived: bool)
      requires state == Receiving
      modifies this`state
      ensures state == if arrived then Receiving else Transmitting
    {
      state := if arrived then Receiving else Transmitting;
    }

    /** Transmits one of the packets still to be sent. */
    method SendNext(ghost plan: seq<nat>, ghost sent: seq<nat>) returns (message: seq<byte>, ghost n: nat)
      requires state == Transmitting && Busy() && sent + Todo() == plan && packet < U32 && packetCount < U32
      requires forall n :: n in plan ==> n < Packets(|file|, SLAM_BLOCK_SIZE)
      modifies this
      ensures sent + [n] + Todo() == plan && |Todo()| < |old(Todo())| && packet < U32 && packetCount < U32
      ensures n < U32 && message == DataPacket(Header(), file, n)
      ensures state == (if Todo() == [] then Pinging else Receiving) && (state == Receiving ==> Busy())
    {
      hide Encoding, Codes, Range, Sum, Packets, Sends, DataPacket, NackBytes, Alternating, Message, Offset, Codes2, Planned;
      n := packet;
      ghost var before := Todo();
      TodoHead(packet, packetCount, runs);
      assert n in plan by { assert (sent + before)[|sent|] == n; }
      var m := Transmit();
      assert sent + before == sent + [n] + Todo();
      message := m.value;
    }

    /** Answers one status packet; arrivals says how many packets come in meanwhile. */
    method Answer(bytes: seq<byte>, arrivals: nat, ghost all: seq<nat>) returns (messages: seq<seq<byte>>,
                  ghost sent: seq<nat>)
      requires state == Waiting && |file| < U32 && transaction < U32
      requires Alternating(all) && bytes == NackBytes(all) && Sum(all) < LIMIT
      requires forall n :: n in Sends(0, all) ==> n < Packets(|file|, SLAM_BLOCK_SIZE)
      modifies this
      ensures state == if |all| >= 2 then Pinging else Waiting
      ensures sent == Sends(0, all) && |messages| == |sent|
      ensures forall i :: 0 <= i < |sent| ==> sent[i] < U32 && messages[i] == DataPacket(Header(), file, sent[i])
    {
      hide Encoding, Codes, Range, Sum, Packets, Sends, DataPacket, NackBytes, Alternating, Planned, Codes2, Decoding;
      messages, sent := [], [];
      OnNack(bytes, all);
      if state == Waiting {
        NothingToSend(all);
        return;
      }
      var left := arrivals;
      while state != Pinging
        invariant state == Pinging || ((state == Transmitting || state == Receiving) && Busy())
        invariant packet < U32 && packetCount < U32
        invariant sent + Todo() == Sends(0, all) && |messages| == |sent| && (state == Pinging ==> Todo() == [])
        invariant forall i :: 0 <= i < |sent| ==> sent[i] < U32 && messages[i] == DataPacket(Header(), file, sent[i])
        decreases |Todo()|, state == Receiving, left
      {
        if state == Transmitting {
          ghost var n;
          var message;
          message, n := SendNext(Sends(0, all), sent);
          messages, sent := messages + [message], sent + [n];
        } else {
          Poll(left > 0);
          left := if left > 0 then left - 1 else 0;
        }
      }
      assert sent + [] == sent;
    }
  }

  method Append(data: array<byte>, p: nat, end: nat, v: nat, ghost front: seq<byte>) returns (next: nat)
    requires p == |front| && p + 5 < end <= data.Length && v < U32 && data[..p] == front
    modifies data
    ensures next == p + |Encoding(v)| && data[..next] == front + Encoding(v)
  {
    hide Encoding;
    WidthBound(v);
    var ok;
    ok, next := SlamEncode(data, p, end, v);
    assert data[..next] == front + Encoding(v);
  }

  /** The first two codes, and what is behind them. */
  function Codes2(bytes: seq<byte>): (r: Option<(nat, nat, seq<byte>)>)
  {
    match Decoding(bytes)
    case None => None
    case Some(p) =>
      match Decoding(bytes[p.1..])
      case None => None
      case Some(q) => Some((p.0, q.0, bytes[p.1..][q.1..]))
  }

  /** The rest of a status packet stands for these runs, from this packet on. */
  ghost predicate Planned(packet: nat, runs: seq<nat>, rest: seq<byte>)
  {
    packet + Sum(runs) < LIMIT && Alternating(runs) && rest == NackBytes(runs)
  }

  lemma PlannedBelow(packet: nat, runs: seq<nat>, rest: seq<byte>)
    requires Planned(packet, runs, rest)
    ensures packet < LIMIT
  {
  }

  lemma PlannedPair(packet: nat, runs: seq<nat>, rest: seq<byte>)
    requires Planned(packet, runs, rest)
    ensures packet < LIMIT
    ensures match Codes2(rest)
            case None => Sends(packet, runs) == []
            case Some(p) =>
              && |runs| >= 2 && p.1 >= 1 && Planned(packet + p.0 + p.1, runs[2..], p.2)
              && Sends(packet, runs) == Range(packet + p.0, p.1) + Sends(packet + p.0 + p.1, runs[2..])
              && packet + p.0 + p.1 < LIMIT && Sends(packet, runs) != []
  {
    hide Decoding, NackBytes, Alternating, Small, Range, Sum;
    TwoRuns(runs);
  }

  lemma NoBytes()
    ensures Decoding([]) == None
  {
  }

  /** What the first two codes of a status packet are, and what is left behind them. */
  lemma TwoRuns(runs: seq<nat>)
    requires Alternating(runs)
    ensures runs == [] ==> Decoding(NackBytes(runs)) == None
    ensures runs != [] ==> Decoding(NackBytes(runs)).Some? && Decoding(NackBytes(runs)).value.0 == runs[0]
                           && NackBytes(runs)[Decoding(NackBytes(runs)).value.1..] == NackBytes(runs[1..])
    ensures |runs| == 1 ==> Decoding(NackBytes(runs[1..])) == None && Sum(runs) == runs[0]
    ensures |runs| >= 2 ==> Decoding(NackBytes(runs[1..])).Some? && Decoding(NackBytes(runs[1..])).value.0 == runs[1] >= 1
                            && NackBytes(runs[1..])[Decoding(NackBytes(runs[1..])).value.1..] == NackBytes(runs[2..])
                            && Sum(runs) == runs[0] + runs[1] + Sum(runs[2..]) && Alternating(runs[2..])
  {
    hide Decoding, NackBytes, Alternating, Sum, Small;
    AlternatingParts(runs);
    OneRun(runs);
    if runs != [] {
      OneRun(runs[1..]);
      SumParts(runs);
    }
  }

  lemma OneRun(runs: seq<nat>)
    requires Small(runs)
    ensures runs == [] ==> Decoding(NackBytes(runs)) == None
    ensures runs != [] ==> Small(runs[1..]) && Decoding(NackBytes(runs)).Some? && Decoding(NackBytes(runs)).value.0 == runs[0]
    ensures runs != [] ==> NackBytes(runs)[Decoding(NackBytes(runs)).value.1..] == NackBytes(runs[1..])
  {
    hide Encoding, Decoding, Codes;
    NackHead(runs);
  }

  lemma AlternatingParts(runs: seq<nat>)
    requires Alternating(runs)
    ensures Small(runs) && (runs != [] ==> Small(runs[1..]))
    ensures |runs| >= 2 ==> runs[1] >= 1 && Alternating(runs[2..]) && runs[1..][1..] == runs[2..]
  {
    if |runs| >= 2 {
      var rest := runs[2..];
      forall i | 0 <= i < |rest| && i % 2 == 1 ensures rest[i] >= 1 {
        assert (i + 2) % 2 == 1;
      }
    }
  }

  lemma SumParts(runs: seq<nat>)
    requires runs != []
    ensures |runs| == 1 ==> Sum(runs) == runs[0]
    ensures |runs| >= 2 ==> Sum(runs) == runs[0] + runs[1] + Sum(runs[2..])
  {
    if |runs| >= 2 {
      SumSplits(runs);
    }
  }

  lemma NoRange(p: nat)
    ensures Range(p, 0) == []
    ensures forall s: seq<nat> :: Range(p, 0) + s == s
  {
  }

  lemma NothingToSend(runs: seq<nat>)
    requires |runs| < 2
    ensures forall p: nat :: Sends(p, runs) == []
  {
  }

  lemma TodoHead(p: nat, count: nat, runs: seq<nat>)
    requires count >= 1
    ensures |Range(p, count) + Sends(p + count, runs)| > 0 && (Range(p, count) + Sends(p + count, runs))[0] == p
  {
  }

  lemma TodoStep(p: nat, count: nat, runs: seq<nat>)
    requires count >= 1
    ensures Range(p, count) + Sends(p + count, runs) == [p] + (Range(p + 1, count - 1) + Sends(p + count, runs))
    ensures count == 1 ==> Range(p + 1, count - 1) + Sends(p + count, runs) == Sends(p + 1, runs)
  {
  }

  lemma BlockStarts(n: nat, total: nat)
    ensures n * SLAM_BLOCK_SIZE < total <==> n < Packets(total, SLAM_BLOCK_SIZE)
  {
  }
}
