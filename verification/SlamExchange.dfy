/** Client and server talking to each other: a report and its answer, and a whole download. */
module SlamExchange {
  import opened Bytes
  import opened SlamCode
  import opened SlamNack
  import opened SlamBlocks
  import opened SlamClient
  import opened SlamServer
  import opened SlamSystem
  import SlamBitmap

  // --------------------------------------------------------------------- reports

  /** Any part of a client's report is what the server takes apart, and asks for the packets
      missing, in order, up to where it was cut. */
  lemma ReportIsAnswerable(bits: seq<bool>, k: nat)
    requires |bits| < LIMIT && k <= |Scan(bits, true, 0)|
    ensures var all := Scan(bits, true, 0)[..k];
            && Alternating(all) && Sum(all) < LIMIT && Sends(0, all) <= Missing(bits, 0)
            && (k == |Scan(bits, true, 0)| ==> Sends(0, all) == Missing(bits, 0))
            && forall n :: n in Sends(0, all) ==> n < |bits|
  {
    hide Scan, Sends, Missing, Sum;
    var runs := Scan(bits, true, 0);
    RunsAreSmall(bits);
    ScanShape(bits, true, 0);
    SumPrefix(runs, k);
    SendsPrefix(0, runs, k);
    NackAsksForMissing(bits);
    MissingExact(bits, 0);
    assert k == |runs| ==> runs[..k] == runs;
    var sent := Sends(0, runs[..k]);
    forall n | n in sent ensures n < |bits| {
      var i :| 0 <= i < |sent| && sent[i] == n;
      assert Missing(bits, 0)[i] in Missing(bits, 0);
    }
  }

  lemma {:induction false} SumPrefix(runs: seq<nat>, k: nat)
    requires k <= |runs|
    ensures Sum(runs[..k]) <= Sum(runs)
    decreases |runs|
  {
    if k > 0 {
      assert runs[..k][1..] == runs[1..][..k - 1];
      SumPrefix(runs[1..], k - 1);
    }
  }

  /** A report has a second run exactly if something is missing. */
  lemma {:induction false} SecondRun(bits: seq<bool>, len: nat)
    ensures |Scan(bits, true, len)| >= 2 <==> exists i :: 0 <= i < |bits| && !bits[i]
    decreases bits
  {
    if bits != [] && bits[0] {
      SecondRun(bits[1..], len + 1);
      if i :| 0 <= i < |bits| && !bits[i] {
        assert !bits[1..][i - 1];
      }
    }
  }

  lemma SomethingMissing(bits: seq<bool>)
    ensures |Scan(bits, true, 0)| >= 2 <==> Missing(bits, 0) != []
  {
    hide Scan, Missing;
    SecondRun(bits, 0);
    MissingExact(bits, 0);
    if Missing(bits, 0) != [] {
      var n := Missing(bits, 0)[0];
      assert n in Missing(bits, 0);
    }
    if i :| 0 <= i < |bits| && !bits[i] {
      var n: nat := i;
      assert n in Missing(bits, 0);
    }
  }

  /** The server is about to serve this file under this header. */
  ghost predicate Serves(server: Server, h: Header, file: seq<byte>)
    reads server
  {
    && server.state == Waiting && server.file == file && 0 < |file| < LIMIT && server.transaction < U32
    && h == server.Header()
  }

  /** Messages are the data packets with these numbers. */
  ghost predicate Packed(messages: seq<seq<byte>>, sent: seq<nat>, h: Header, file: seq<byte>)
  {
    && Fits(h) && |messages| == |sent|
    && forall i :: 0 <= i < |sent| ==> sent[i] < U32 && messages[i] == DataPacket(h, file, sent[i])
  }

  /** The server's answer to a client's report: the data packets of exactly those that the
      client misses, in order, each once; or of the first of them if the report was cut. Then it
      goes on to ping, unless nothing was missing. */
  method Answered(server: Server, packet: seq<byte>, arrivals: nat, ghost bits: seq<bool>, ghost k: nat, ghost h: Header)
    returns (messages: seq<seq<byte>>, ghost sent: seq<nat>)
    requires Serves(server, h, server.file) && |bits| == Packets(|server.file|, SLAM_BLOCK_SIZE) && Reported(packet, bits, k)
    modifies server
    ensures Packed(messages, sent, h, server.file) && sent <= Missing(bits, 0)
    ensures k == |Scan(bits, true, 0)| ==> sent == Missing(bits, 0)
    ensures server.state == if Missing(bits, 0) == [] then Waiting else Pinging
    ensures forall i :: 0 <= i < |sent| ==> sent[i] < |bits|
  {
    hide Scan, Sends, Missing, Sum, Encoding, Width, Packets, DataPacket, Alternating, NackBytes;
    ghost var all := Scan(bits, true, 0)[..k];
    PacketsSmall(|server.file|, SLAM_BLOCK_SIZE);
    ReportIsAnswerable(bits, k);
    ReportHasTwo(packet, bits, k);
    SomethingMissing(bits);
    messages, sent := server.Answer(packet, arrivals, all);
    forall i | 0 <= i < |sent| ensures sent[i] < |bits| {
      assert sent[i] in Sends(0, all);
    }
  }

  /** The client reports, the server answers. */
  method Round(client: Client, server: Server, arrivals: nat, ghost h: Header, ghost file: seq<byte>, ghost memory: seq<byte>)
    returns (messages: seq<seq<byte>>, ghost sent: seq<nat>, ghost k: nat)
    requires Serves(server, h, file) && client.InSession(h, file, memory)
    modifies client.bitmap, server
    ensures client.InSession(h, file, memory) && client.View() == WithTrailer(old(client.View()))
    ensures Packed(messages, sent, h, file)
    ensures var bits := client.View().bits[..client.totalPackets];
            && sent <= Missing(bits, 0) && k <= |Scan(bits, true, 0)| && (k == |Scan(bits, true, 0)| ==> sent == Missing(bits, 0))
            && (server.state == if Missing(bits, 0) == [] then Waiting else Pinging)
            && forall i :: 0 <= i < |sent| ==> sent[i] < |bits|
  {
    hide Scan, Missing, Packets, SlamBitmap.View, Assembled, Packed, HeaderBytes, Reported, Encoding;
    PacketsSome(|file|, h.block);
    ghost var v := client.View();
    TrailerKeeps(v, file, memory, h.block, !v.bits[client.totalPackets - 1]);
    var packet;
    packet, k := client.BuildNack();
    ReportedPart(packet, client.View().bits[..client.totalPackets], k);
    messages, sent := Answered(server, packet, arrivals, client.View().bits[..client.totalPackets], k, h);
  }

  // -------------------------------------------------------------------- delivery

  /** How a message arrives: something may follow it in the frame and in the buffer. */
  function Framed(message: seq<byte>, behind: seq<byte>, extra: nat): (f: Frame)
  {
    Frame(message + behind, |message| + extra, UDP + |message|)
  }

  lemma FramedCarries(h: Header, file: seq<byte>, n: nat, behind: seq<byte>, extra: nat)
    requires Fits(h) && h.total == |file| < LIMIT && 0 < h.block < LIMIT && n < Packets(|file|, h.block)
    requires MAX_HDR <= |behind| && extra <= |behind|
    ensures n < LIMIT && Carries(Framed(DataPacket(h, file, n), behind, extra), h, file, n)
  {
    hide Packets, Encoding, HeaderBytes, BlockLength;
    PacketsSmall(|file|, h.block);
    var m := DataPacket(h, file, n);
    assert (m + behind)[..|m|] == m;
  }

  function World(h: Header, file: seq<byte>): (w: Setup)
  {
    Setup(file, h.block)
  }

  lemma {:induction false} DeliverOneMore(w: Setup, v: Receiver, ns: seq<nat>, n: nat)
    requires Sensible(w) && |v.bits| == Count(w) + 1 && |v.image| == |v.bits| * w.block && Below(ns, Count(w)) && n < Count(w)
    ensures Below(ns + [n], Count(w))
    ensures DeliverAll(w, v, ns + [n]) == Delivered(DeliverAll(w, v, ns), w.file, w.block, n)
    decreases |ns|
  {
    hide Delivered, Packets;
    if ns == [] {
      assert [n][1..] == [];
    } else {
      assert (ns + [n])[1..] == ns[1..] + [n];
      DeliverySized(w, v, ns[0]);
      DeliverOneMore(w, Delivered(v, w.file, w.block, ns[0]), ns[1..], n);
    }
  }

  lemma DeliverySized(w: Setup, v: Receiver, n: nat)
    requires Sensible(w) && |v.bits| == Count(w) + 1 && |v.image| == |v.bits| * w.block && n < Count(w)
    ensures var v' := Delivered(v, w.file, w.block, n); |v'.bits| == |v.bits| && |v'.image| == |v.image|
  {
    hide Packets;
  }

  /** One data packet of the server comes in. */
  method DeliverOne(client: Client, message: seq<byte>, behind: seq<byte>, extra: nat, ghost n: nat, ghost h: Header,
                    ghost file: seq<byte>, ghost memory: seq<byte>, ghost v: Receiver) returns (finished: bool)
    requires client.InSession(h, file, memory) && h.total == |file| && 0 < |file| && 0 < h.block < LIMIT
    requires n < client.totalPackets && n < U32 && message == DataPacket(h, file, n) && MAX_HDR <= |behind| && extra <= |behind|
    requires client.View() == v
    modifies client, client.hdr, client.bitmap, client.image
    ensures client.InSession(h, file, memory) && client.bitmap == old(client.bitmap) && client.image == old(client.image)
    ensures finished == (client.received == client.totalPackets) && client.totalPackets == old(client.totalPackets)
    ensures finished ==> |file| <= client.image.Length && client.image[..|file|] == file
    ensures |v.bits| == Packets(|file|, h.block) + 1 && |v.image| == |v.bits| * h.block && n < Packets(|file|, h.block)
    ensures client.View() == Delivered(v, file, h.block, n)
  {
    hide Delivered, DataPacket, Packets, Carries, SlamBitmap.View, HeaderBytes, Assembled, Encoding;
    FramedCarries(h, file, n, behind, extra);
    SizedWhen(v, file, memory, h.block);
    ghost var memory';
    var outcome;
    outcome, memory' := client.OnData(Framed(message, behind, extra), true, h, memory, h, file, n);
    finished := outcome == Finished;
  }

  lemma SizedWhen(v: Receiver, file: seq<byte>, memory: seq<byte>, block: nat)
    requires Assembled(v, file, memory, block)
    ensures |v.bits| == Packets(|file|, block) + 1 && |v.image| == |v.bits| * block
  {
  }

  /** Data packets of the server come in one after the other, until the client has them all. */
  method Deliver(client: Client, messages: seq<seq<byte>>, behind: seq<byte>, extra: nat, ghost sent: seq<nat>, ghost h: Header,
                 ghost file: seq<byte>, ghost memory: seq<byte>, ghost v: Receiver) returns (finished: bool, ghost done: nat)
    requires client.InSession(h, file, memory) && h.total == |file| && 0 < |file| && 0 < h.block < LIMIT
    requires client.received < client.totalPackets && client.View() == v
    requires Packed(messages, sent, h, file) && Below(sent, client.totalPackets) && MAX_HDR <= |behind| && extra <= |behind|
    modifies client, client.hdr, client.bitmap, client.image
    ensures client.InSession(h, file, memory) && done <= |sent| && finished == (client.received == client.totalPackets)
    ensures finished ==> |file| <= client.image.Length && client.image[..|file|] == file
    ensures !finished ==> done == |sent|
    ensures Within(h, file, v, sent) && client.View() == DeliverAll(World(h, file), v, sent[..done])
  {
    hide Delivered, DataPacket, Packets, HeaderBytes, Encoding, Client.InSession, DeliverAll;
    ghost var w := World(h, file);
    StandsWithin(client, h, file, memory, v, sent);
    Active(client, h, file, memory);
    finished, done := false, 0;
    var i := 0;
    NothingDelivered(w, v, sent);
    while i < |messages| && !finished
      invariant 0 <= i <= |messages| && done == i && client.InSession(h, file, memory)
      invariant client.bitmap == old(client.bitmap) && client.image == old(client.image)
      invariant finished == (client.received == client.totalPackets) && client.totalPackets == Count(w)
      invariant finished ==> |file| <= client.image.Length && client.image[..|file|] == file
      invariant client.Valid() && client.active && client.View() == DeliverAll(w, v, sent[..i])
    {
      DeliverOneMore(w, v, sent[..i], sent[i]);
      assert sent[..i + 1] == sent[..i] + [sent[i]];
      finished := DeliverOne(client, messages[i], behind, extra, sent[i], h, file, memory, DeliverAll(w, v, sent[..i]));
      Active(client, h, file, memory);
      i, done := i + 1, i + 1;
    }
  }

  lemma Active(client: Client, h: Header, file: seq<byte>, memory: seq<byte>)
    requires client.InSession(h, file, memory)
    ensures client.Valid() && client.active
  {
  }

  lemma NothingDelivered(w: Setup, v: Receiver, sent: seq<nat>)
    requires Sensible(w) && |v.bits| == Count(w) + 1 && |v.image| == |v.bits| * w.block
    ensures DeliverAll(w, v, sent[..0]) == v
  {
  }

  lemma StandsWithin(client: Client, h: Header, file: seq<byte>, memory: seq<byte>, v: Receiver, sent: seq<nat>)
    requires client.InSession(h, file, memory) && 0 < |file| && 0 < h.block && client.View() == v && Below(sent, client.totalPackets)
    ensures Within(h, file, v, sent) && client.totalPackets == Count(World(h, file))
  {
    hide Packets, SlamBitmap.View, HeaderBytes;
  }

  ghost predicate Within(h: Header, file: seq<byte>, v: Receiver, sent: seq<nat>)
  {
    && Sensible(World(h, file)) && |v.bits| == Count(World(h, file)) + 1 && |v.image| == |v.bits| * h.block
    && Below(sent, Count(World(h, file)))
  }

  lemma WithinPrefix(h: Header, file: seq<byte>, v: Receiver, sent: seq<nat>, k: nat)
    requires Within(h, file, v, sent) && k <= |sent|
    ensures Within(h, file, v, sent[..k])
  {
  }

  /** When all that a complete report asks for has come in, so has the file. */
  lemma RoundCompletes(h: Header, file: seq<byte>, memory: seq<byte>, v: Receiver, sent: seq<nat>)
    requires Within(h, file, v, sent) && Assembled(v, file, memory, h.block) && |file| % h.block != 0
    requires sent == Missing(v.bits[..Count(World(h, file))], 0)
    ensures DeliverAll(World(h, file), v, sent).received == Count(World(h, file))
  {
    hide Assembled, Packets, Scan, Sends, Missing, DeliverAll;
    NackAsksForMissing(v.bits[..Count(World(h, file))]);
    OneRoundCompletes(World(h, file), v, memory, sent);
  }

  /** A full last block is still missing, whatever comes in. */
  lemma RoundLeaves(h: Header, file: seq<byte>, memory: seq<byte>, v: Receiver, sent: seq<nat>)
    requires Within(h, file, v, sent) && Assembled(v, file, memory, h.block) && |file| % h.block == 0
    ensures Count(World(h, file)) >= 1
    ensures !v.bits[Count(World(h, file)) - 1] ==> DeliverAll(World(h, file), v, sent).received < Count(World(h, file))
  {
    hide Assembled, Packets, DeliverAll;
    SomePackets(World(h, file));
    if !v.bits[Count(World(h, file)) - 1] {
      FullLastBlockNeverCompletes(World(h, file), v, memory, sent);
    }
  }

  /** The answer to a report comes in without loss. If the report was complete, and the last
      block is short, the client has the file; a client that finishes always has it. */
  method Finish(client: Client, server: Server, packet: seq<byte>, behind: seq<byte>, extra: nat, ghost k: nat, ghost h: Header,
                ghost file: seq<byte>, ghost memory: seq<byte>) returns (finished: bool)
    requires Serves(server, h, file) && client.InSession(h, file, memory) && client.received < client.totalPackets
    requires Reported(packet, client.View().bits[..client.totalPackets], k) && MAX_HDR <= |behind| && extra <= |behind|
    modifies client, client.hdr, client.bitmap, client.image, server
    ensures client.InSession(h, file, memory) && finished == (client.received == client.totalPackets)
    ensures finished ==> |file| <= client.image.Length && client.image[..|file|] == file
    ensures k == |Scan(old(client.View().bits[..client.totalPackets]), true, 0)| && |file| % SLAM_BLOCK_SIZE != 0 ==> finished
    ensures |file| % SLAM_BLOCK_SIZE == 0 && !old(client.View().bits[client.totalPackets - 1]) ==> !finished
  {
    hide Scan, Missing, Packets, SlamBitmap.View, Packed, HeaderBytes, Assembled, Within, DeliverAll, Reported, Missing;
    ghost var v, bits := client.View(), client.View().bits[..client.totalPackets];
    var messages;
    ghost var sent, done;
    messages, sent := Answered(server, packet, 0, bits, k, h);
    finished, done := Deliver(client, messages, behind, extra, sent, h, file, memory, v);
    assert done == |sent| ==> sent[..done] == sent;
    if |file| % SLAM_BLOCK_SIZE == 0 {
      WithinPrefix(h, file, v, sent, done);
      RoundLeaves(h, file, memory, v, sent[..done]);
    } else if k == |Scan(bits, true, 0)| {
      RoundCompletes(h, file, memory, v, sent);
    }
  }

  /** A client in the middle of a download reports by itself, and the answer comes in. */
  method Exchange(client: Client, server: Server, behind: seq<byte>, extra: nat, ghost h: Header, ghost file: seq<byte>,
                  ghost memory: seq<byte>) returns (finished: bool, ghost k: nat)
    requires Serves(server, h, file) && client.InSession(h, file, memory) && client.received < client.totalPackets
    requires MAX_HDR <= |behind| && extra <= |behind|
    modifies client, client.hdr, client.bitmap, client.image, server
    ensures client.InSession(h, file, memory) && finished == (client.received == client.totalPackets)
    ensures finished ==> |file| <= client.image.Length && client.image[..|file|] == file
    ensures k == |Scan(old(client.View().bits[..client.totalPackets]), true, 0)| && |file| % SLAM_BLOCK_SIZE != 0 ==> finished
    ensures |file| % SLAM_BLOCK_SIZE == 0 && !old(client.View().bits[client.totalPackets - 1]) ==> !finished
  {
    hide Scan, Packets, SlamBitmap.View, Assembled, HeaderBytes, Reported;
    ghost var v := client.View();
    TrailerKeeps(v, file, memory, h.block, !v.bits[client.totalPackets - 1]);
    var packet;
    packet, k := client.BuildNack();
    assert client.View().bits[..client.totalPackets] == v.bits[..client.totalPackets];
    finished := Finish(client, server, packet, behind, extra, k, h, file, memory);
  }

  // -------------------------------------------------------------------- download

  /** There is room for the server's blocks in a frame. */
  lemma ServerAdmissible(h: Header, file: seq<byte>)
    requires Fits(h) && h.total == |file| < LIMIT && h.block == SLAM_BLOCK_SIZE
    ensures |HeaderBytes(h)| <= 15 && Admissible(|file|, h.block, |HeaderBytes(h)|)
  {
    hide Encoding, Packets;
    EncodingLength(h.transaction);
    EncodingLength(h.total);
    EncodingLength(h.block);
    PacketsSmall(|file|, h.block);
    EncodingLength(Packets(|file|, h.block));
  }

  lemma FirstAsk()
    ensures Alternating([0, 1]) && Sum([0, 1]) < LIMIT && Sends(0, [0, 1]) == [0]
  {
    FirstReport();
    SumSplits([0, 1]);
  }

  /** The first report of a client that has packet 0 alone has two runs. */
  lemma AfterFirst(bits: seq<bool>)
    requires |bits| >= 2 && bits[0] && forall i :: 1 <= i < |bits| ==> !bits[i]
    ensures |Scan(bits, true, 0)| == 2
  {
    var rest := bits[1..];
    assert Scan(bits, true, 0) == Scan(rest, true, 1);
    assert Scan(rest, true, 1) == [1] + Scan(rest[1..], false, 1);
    ScanNothing(rest[1..], 1);
  }

  /** The client asks for packet 0, which begins the session. */
  method Begin(client: Client, server: Server, behind: seq<byte>, extra: nat, ghost h: Header, ghost file: seq<byte>)
    returns (finished: bool, ghost memory: seq<byte>)
    requires client.Valid() && !client.active && client.hdrLen == MAX_HDR && client.hdr[0] == 0
    requires Serves(server, h, file) && MAX_HDR <= |behind| && extra <= |behind|
    modifies client, client.hdr, client.bitmap, client.image, server
    ensures server.state == Pinging && client.InSession(h, file, memory) && client.totalPackets > 0
    ensures finished == (client.received == client.totalPackets)
    ensures finished ==> |file| <= client.image.Length && client.image[..|file|] == file
    ensures Sized(Fresh(client.totalPackets, memory), file, memory, h.block)
            && client.View() == Delivered(Fresh(client.totalPackets, memory), file, h.block, 0)
    ensures client.bitmap != client.hdr && fresh(client.bitmap) && fresh(client.image)
  {
    hide Packets, SlamBitmap.View, Assembled, HeaderBytes, Delivered, DataPacket, Sends, Sum, Encoding, NackBytes, Admissible;
    hide Carries;
    PacketsSome(|file|, h.block);
    var ask;
    ghost var k, sent;
    ask, k := client.BuildNack();
    FirstAsk();
    var messages;
    messages, sent := server.Answer(ask, 0, [0, 1]);
    ServerAdmissible(h, file);
    FramedCarries(h, file, 0, behind, extra);
    var outcome;
    outcome, memory := client.OnData(Framed(messages[0], behind, extra), true, h, [], h, file, 0);
    finished := outcome == Finished;
  }

  /** What the first packet leaves to be reported. */
  lemma AfterFirstPacket(v: Receiver, n: nat, file: seq<byte>, memory: seq<byte>, block: nat, packet: seq<byte>, bits: seq<bool>,
                         k: nat)
    requires block > 0 && n == Packets(|file|, block) >= 1 && Sized(Fresh(n, memory), file, memory, block)
    requires v == Delivered(Fresh(n, memory), file, block, 0) && bits == WithTrailer(v).bits[..n] && Reported(packet, bits, k)
    ensures n >= 2 ==> k == |Scan(bits, true, 0)|
    ensures |file| % block == 0 ==> !bits[n - 1]
  {
    hide Packets, BlockLength, Scan, Reported;
    BlockInside(0, |Block(file, 0, block)|, |Fresh(n, memory).bits|, block);
    ReportHasTwo(packet, bits, k);
    if n >= 2 {
      AfterFirst(bits);
      ReportedPart(packet, bits, k);
    }
  }

  lemma FirstCounts(v: Receiver, n: nat, file: seq<byte>, memory: seq<byte>, block: nat)
    requires block > 0 && n == Packets(|file|, block) >= 1 && Sized(Fresh(n, memory), file, memory, block)
    requires v == Delivered(Fresh(n, memory), file, block, 0)
    ensures v.received <= n && (v.received == n <==> n == 1 && |file| % block != 0)
  {
    hide Packets, BlockLength;
    BlockInside(0, |Block(file, 0, block)|, |Fresh(n, memory).bits|, block);
  }

  lemma ReportedPart(packet: seq<byte>, bits: seq<bool>, k: nat)
    requires Reported(packet, bits, k)
    ensures k <= |Scan(bits, true, 0)|
  {
  }

  /** The server pings a client that has packet 0 alone, and answers its report. */
  method Rest(client: Client, server: Server, behind: seq<byte>, extra: nat, ghost h: Header, ghost file: seq<byte>,
              ghost memory: seq<byte>) returns (finished: bool)
    requires server.state == Pinging && server.file == file && 0 < |file| < LIMIT && server.transaction < U32 && h == server.Header()
    requires client.InSession(h, file, memory) && client.totalPackets > client.received && client.Knows(h)
    requires MAX_HDR <= |behind| && 1 <= extra <= |behind|
    requires Sized(Fresh(client.totalPackets, memory), file, memory, h.block)
             && client.View() == Delivered(Fresh(client.totalPackets, memory), file, h.block, 0)
    modifies client, client.hdr, client.bitmap, client.image, server
    ensures client.InSession(h, file, memory)
    ensures finished ==> |file| <= client.image.Length && client.image[..|file|] == file
    ensures finished <==> |file| % SLAM_BLOCK_SIZE != 0
  {
    hide Packets, SlamBitmap.View, Assembled, HeaderBytes, Delivered, Encoding, Reported, Scan, Admissible, Client.Knows;
    ghost var v := client.View();
    FirstCounts(v, client.totalPackets, file, memory, h.block);
    var request := server.Ping(true);
    ServerAdmissible(h, file);
    FramedHeads(h, behind, extra);
    var packet;
    ghost var memory', k;
    packet, memory', k := client.OnRequest(Framed(request.value, behind, extra), true, h, memory, h, file);
    AfterFirstPacket(v, client.totalPackets, file, memory, h.block, packet.value, client.View().bits[..client.totalPackets], k);
    finished := Finish(client, server, packet.value, behind, extra, k, h, file, memory);
  }

  /** A whole download without loss: the client asks, gets packet 0, is pinged, reports, and
      gets the rest. It ends, and then with the file, exactly if the last block is short. */
  method Download(file: seq<byte>, transaction: nat, behind: seq<byte>, extra: nat) returns (client: Client, finished: bool)
    requires 0 < |file| < LIMIT && transaction < U32 && MAX_HDR <= |behind| && 1 <= extra <= |behind|
    ensures client.Valid() && client.active && client.totalBytes == |file|
    ensures finished ==> |file| <= client.image.Length && client.image[..|file|] == file
    ensures finished <==> |file| % SLAM_BLOCK_SIZE != 0
  {
    hide Packets, SlamBitmap.View, Assembled, HeaderBytes, Delivered;
    client := new Client();
    var server := new Server(file, transaction);
    ghost var h, memory := server.Header(), [];
    finished, memory := Begin(client, server, behind, extra, h, file);
    FirstCounts(client.View(), client.totalPackets, file, memory, h.block);
    if !finished {
      finished := Rest(client, server, behind, extra, h, file, memory);
    }
  }

  lemma FramedHeads(h: Header, behind: seq<byte>, extra: nat)
    requires Fits(h) && MAX_HDR <= |behind| && extra <= |behind|
    ensures Heads(Framed(HeaderBytes(h), behind, extra), h)
  {
    hide Encoding;
    assert (HeaderBytes(h) + behind)[..|HeaderBytes(h)|] == HeaderBytes(h);
  }
}
