/** Sender and receiver with a network between them that may lose, repeat and reorder what
    was sent, however late. */
module TftpSystem {
  import opened Bytes
  import opened TftpNetascii
  import opened TftpBuffers
  import opened TftpProtocol

  /** What is transferred, in blocks of which size, and whether options were agreed on: then
      the receiver has acknowledged them as block 0. */
  datatype Job = Job(stream: seq<byte>, seg: nat, options: bool)

  /** The state of both ends as far as the protocol goes, and everything ever sent. */
  datatype System = System(
    sending: nat, sent: bool,
    taken: nat, got: seq<byte>, complete: bool,
    data: seq<(nat, seq<byte>)>, acks: seq<nat>)

  ghost predicate Init(j: Job, s: System)
  {
    j.seg >= 1 && s == System(1, false, 0, [], false, [], [])
  }

  /** The sender transmits its block, at first or after a timeout. */
  ghost predicate Transmits(j: Job, s: System, s': System)
  {
    && s.sending >= 1 && !s.sent
    && s' == s.(data := s.data + [(Number(s.sending), BlockData(j.stream, j.seg, s.sending))])
  }

  /** The sender takes an acknowledgement, as Sender.OnAck does. */
  ghost predicate Acknowledged(j: Job, s: System, s': System, ack: nat)
  {
    && ack in s.acks && s.sending >= 1 && !s.sent
    && if ack != Number(s.sending) then s' == s
       else if |BlockData(j.stream, j.seg, s.sending)| == j.seg then s' == s.(sending := s.sending + 1)
       else s' == s.(sent := true)
  }

  /** The receiver takes a block, as Receiver.OnData does. */
  ghost predicate Arrives(j: Job, s: System, s': System, n: nat, d: seq<byte>)
  {
    && (n, d) in s.data && !s.complete
    && if n != Number(s.taken + 1) then s' == s
       else s' == s.(taken := s.taken + 1, got := s.got + d, complete := |d| != j.seg, acks := s.acks + [n])
  }

  /** The receiver repeats its last acknowledgement, if it has sent one. */
  ghost predicate Repeats(j: Job, s: System, s': System)
  {
    First(j) <= s.taken && s' == s.(acks := s.acks + [Number(s.taken)])
  }

  ghost predicate Next(j: Job, s: System, s': System)
  {
    || Transmits(j, s, s') || Repeats(j, s, s')
    || (exists ack :: Acknowledged(j, s, s', ack))
    || (exists n, d :: Arrives(j, s, s', n, d))
  }

  ghost predicate Run(j: Job, run: seq<System>)
  {
    |run| > 0 && Init(j, run[0]) && forall i :: 0 <= i < |run| - 1 ==> Next(j, run[i], run[i + 1])
  }

  // ---------------------------------------------------------------- what is kept

  /** The first block ever acknowledged. */
  function First(j: Job): (n: nat)
    ensures n <= 1
  {
    if j.options then 0 else 1
  }

  /** No number is used twice for blocks that could be mistaken for each other. */
  predicate Fits(j: Job)
  {
    if j.options then |j.stream| <= 65535 * j.seg else |j.stream| < 65536 * j.seg
  }

  /** An acknowledgement stands for a block taken. */
  ghost predicate Genuine(j: Job, taken: nat, ack: nat)
  {
    exists k :: First(j) <= k <= taken && ack == Number(k)
  }

  /** A packet stands for a block sent. */
  ghost predicate Authentic(j: Job, sending: nat, n: nat, d: seq<byte>)
  {
    exists k :: 1 <= k <= sending && n == Number(k) && d == BlockData(j.stream, j.seg, k)
  }

  /** The receiver has exactly the first blocks, the two ends are at most one block apart,
      and nothing in the network claims otherwise. */
  ghost predicate Sound(j: Job, s: System)
  {
    && Apart(j, s) && Ended(j, s)
    && (forall i :: 0 <= i < |s.data| ==> Authentic(j, s.sending, s.data[i].0, s.data[i].1))
    && (forall i :: 0 <= i < |s.acks| ==> Genuine(j, s.taken, s.acks[i]))
  }

  ghost predicate Apart(j: Job, s: System)
  {
    && j.seg >= 1 && s.sending >= 1
    && s.taken <= s.sending <= s.taken + 1
    && s.got == Prefix(j.stream, j.seg, s.taken)
    && FullUpTo(j.stream, j.seg, s.sending)
  }

  /** Either end stops only when the receiver has everything; the sender alone can stop when
      just the empty last block is missing. */
  ghost predicate Ended(j: Job, s: System)
  {
    && (if s.complete then s.got == j.stream && s.sending == s.taken >= 1 && |BlockData(j.stream, j.seg, s.taken)| != j.seg
        else FullUpTo(j.stream, j.seg, s.taken + 1))
    && (s.sent ==> s.got == j.stream && (s.complete || (j.options && |j.stream| == 65535 * j.seg)))
  }

  /** The block numbers that occur in a job that fits. */
  lemma BlocksFit(j: Job, n: nat)
    requires j.seg >= 1 && n >= 1 && FullUpTo(j.stream, j.seg, n) && Fits(j)
    ensures n <= 65536 && (n == 65536 && j.options ==> Prefix(j.stream, j.seg, 65535) == j.stream && |j.stream| == 65535 * j.seg)
  {
    hide Prefix, FullUpTo;
    FullLength(j.stream, j.seg, n);
    if n - 1 >= 65536 {
      MulGrows(65536, n - 1, j.seg);
    }
  }

  lemma MulGrows(a: nat, b: nat, seg: nat)
    requires a <= b
    ensures a * seg <= b * seg
  {
  }

  lemma TransmitsKeeps(j: Job, s: System, s': System)
    requires Sound(j, s) && Transmits(j, s, s')
    ensures Sound(j, s')
  {
    hide BlockData, Prefix, Number;
    assert Authentic(j, s.sending, Number(s.sending), BlockData(j.stream, j.seg, s.sending));
  }

  lemma RepeatsKeeps(j: Job, s: System, s': System)
    requires Sound(j, s) && Repeats(j, s, s')
    ensures Sound(j, s')
  {
    hide BlockData, Prefix, Number;
    assert Genuine(j, s.taken, Number(s.taken));
  }

  /** In a job that fits, an acknowledgement with the right number is that of the block under
      way, or else the block is empty. */
  lemma AckMeans(j: Job, s: System, ack: nat)
    requires Fits(j) && Sound(j, s) && ack in s.acks && ack == Number(s.sending)
    ensures s.taken == s.sending || (Prefix(j.stream, j.seg, s.taken) == j.stream && j.options && |j.stream| == 65535 * j.seg)
  {
    hide BlockData, Prefix, FullUpTo;
    BlocksFit(j, s.sending);
    assert Genuine(j, s.taken, ack);
    var k :| First(j) <= k <= s.taken && ack == Number(k);
  }

  lemma AckOfFull(j: Job, s: System)
    requires Apart(j, s) && |BlockData(j.stream, j.seg, s.sending)| == j.seg
    ensures Prefix(j.stream, j.seg, s.sending - 1) != j.stream
  {
    NextData(j.stream, j.seg, s.sending);
  }

  lemma AckOfShort(j: Job, s: System)
    requires Apart(j, s) && Ended(j, s) && |BlockData(j.stream, j.seg, s.sending)| != j.seg && s.taken == s.sending
    ensures s.complete && s.got == j.stream
  {
    hide BlockData, Prefix;
    ShortIsLast(j.stream, j.seg, s.sending);
  }

  lemma AcknowledgedKeeps(j: Job, s: System, s': System, ack: nat)
    requires Fits(j) && Sound(j, s) && Acknowledged(j, s, s', ack)
    ensures Sound(j, s')
  {
    hide Prefix, BlockData, Fits, Number, FullUpTo, Genuine, Authentic;
    if ack == Number(s.sending) {
      AckMeans(j, s, ack);
      if |BlockData(j.stream, j.seg, s.sending)| == j.seg {
        AckOfFull(j, s);
        FullMore(j.stream, j.seg, s.sending);
        AuthenticStill(j, s.sending, s.data);
      } else if s.taken == s.sending {
        AckOfShort(j, s);
      }
    }
  }

  lemma AuthenticStill(j: Job, sending: nat, data: seq<(nat, seq<byte>)>)
    requires forall i :: 0 <= i < |data| ==> Authentic(j, sending, data[i].0, data[i].1)
    ensures forall i :: 0 <= i < |data| ==> Authentic(j, sending + 1, data[i].0, data[i].1)
  {
    hide BlockData, Number;
    forall i | 0 <= i < |data| ensures Authentic(j, sending + 1, data[i].0, data[i].1) {
      assert Authentic(j, sending, data[i].0, data[i].1);
      var k :| 1 <= k <= sending && data[i].0 == Number(k) && data[i].1 == BlockData(j.stream, j.seg, k);
    }
  }

  lemma GenuineStill(j: Job, taken: nat, acks: seq<nat>)
    requires forall i :: 0 <= i < |acks| ==> Genuine(j, taken, acks[i])
    ensures forall i :: 0 <= i < |acks| ==> Genuine(j, taken + 1, acks[i])
  {
    hide Number;
    forall i | 0 <= i < |acks| ensures Genuine(j, taken + 1, acks[i]) {
      assert Genuine(j, taken, acks[i]);
      var k :| First(j) <= k <= taken && acks[i] == Number(k);
    }
  }

  /** In a job that fits, a packet with the number expected is the block expected. */
  lemma DataMeans(j: Job, s: System, n: nat, d: seq<byte>)
    requires Fits(j) && Sound(j, s) && !s.complete && (n, d) in s.data && n == Number(s.taken + 1)
    ensures s.taken + 1 == s.sending && d == BlockData(j.stream, j.seg, s.sending)
  {
    hide BlockData, Prefix, FullUpTo, Fits;
    BlocksFit(j, s.sending);
    BlocksFit(j, s.taken + 1);
    assert Authentic(j, s.sending, n, d);
    var k :| 1 <= k <= s.sending && n == Number(k) && d == BlockData(j.stream, j.seg, k);
  }

  lemma TakenKeeps(j: Job, s: System, s': System, d: seq<byte>)
    requires Apart(j, s) && Ended(j, s) && !s.complete && s.taken + 1 == s.sending && d == BlockData(j.stream, j.seg, s.sending)
    requires s' == s.(taken := s.taken + 1, got := s.got + d, complete := |d| != j.seg, acks := s'.acks)
    ensures Apart(j, s') && Ended(j, s')
  {
    hide BlockData, Prefix;
    NextData(j.stream, j.seg, s.sending);
    if |d| != j.seg {
      ShortIsLast(j.stream, j.seg, s.sending);
    } else {
      FullMore(j.stream, j.seg, s.sending);
    }
    if s.sent {
      assert s.got + d <= j.stream && s.got == j.stream;
      assert d == [];
    }
  }

  lemma ArrivesKeeps(j: Job, s: System, s': System, n: nat, d: seq<byte>)
    requires Fits(j) && Sound(j, s) && Arrives(j, s, s', n, d)
    ensures Sound(j, s')
  {
    hide BlockData, Prefix, Fits, Number, FullUpTo, Apart, Ended, Genuine, Authentic;
    if n == Number(s.taken + 1) {
      DataMeans(j, s, n, d);
      TakenKeeps(j, s, s', d);
      GenuineStill(j, s.taken, s.acks);
      assert Genuine(j, s.taken + 1, n) by {
        AckIsGenuine(j, s.taken + 1);
      }
    }
  }

  lemma AckIsGenuine(j: Job, n: nat)
    requires n >= 1
    ensures Genuine(j, n, Number(n))
  {
  }

  lemma NextKeeps(j: Job, s: System, s': System)
    requires Fits(j) && Sound(j, s) && Next(j, s, s')
    ensures Sound(j, s')
  {
    hide BlockData, Prefix, Acknowledged, Arrives, Transmits, Repeats, Sound, Fits;
    if Transmits(j, s, s') {
      TransmitsKeeps(j, s, s');
    } else if Repeats(j, s, s') {
      RepeatsKeeps(j, s, s');
    } else if ack :| Acknowledged(j, s, s', ack) {
      AcknowledgedKeeps(j, s, s', ack);
    } else if n, d :| Arrives(j, s, s', n, d) {
      ArrivesKeeps(j, s, s', n, d);
    }
  }

  /** At every step of every run, whatever is lost, repeated or reordered. */
  lemma {:induction false} EveryRun(j: Job, run: seq<System>, i: nat)
    requires Fits(j) && Run(j, run) && i < |run|
    ensures Sound(j, run[i])
    decreases i
  {
    hide BlockData, Next, Fits;
    if i == 0 {
      assert Prefix(j.stream, j.seg, 0) == [];
    } else {
      EveryRun(j, run, i - 1);
      assert Next(j, run[i - 1], run[i - 1 + 1]);
      NextKeeps(j, run[i - 1], run[i]);
    }
  }

  /** When the receiver stops on a short block it has written the whole file, netascii or
      not, and so it has when the sender stops. */
  lemma FileIsComplete(file: seq<byte>, convert: bool, j: Job, run: seq<System>, i: nat)
    requires j.stream == (if convert then Expand(file) else file) && Fits(j) && Run(j, run) && i < |run|
    requires run[i].complete || run[i].sent
    ensures WrittenFor(run[i].got, convert).out == file
  {
    hide Run, WrittenFor, Expand, Fits, Apart;
    EveryRun(j, run, i);
    AllWritten(file, convert);
  }

  // ------------------------------------------------------------------- schedules

  /** What happens next: a timer runs out, or something sent earlier arrives. */
  datatype Event = SenderTimeout | ReceiverTimeout | AckArrives(i: nat) | DataArrives(i: nat)

  function Send(j: Job, s: System): (s': System)
    requires s.sending >= 1
  {
    s.(data := s.data + [(Number(s.sending), BlockData(j.stream, j.seg, s.sending))])
  }

  function Repeat(j: Job, s: System): (s': System)
  {
    if First(j) <= s.taken then s.(acks := s.acks + [Number(s.taken)]) else s
  }

  /** At first the sender sends block 1, and the receiver may have acknowledged options. */
  function Begin(j: Job): (s: System)
    ensures s.sending >= 1
  {
    Repeat(j, Send(j, System(1, false, 0, [], false, [], [])))
  }

  function OnAck(j: Job, s: System, ack: nat): (s': System)
    requires s.sending >= 1
    ensures s'.sending >= 1
  {
    if ack == Number(s.sending) then
      if |BlockData(j.stream, j.seg, s.sending)| == j.seg then Send(j, s.(sending := s.sending + 1)) else s.(sent := true)
    else if ack == Number(s.sending) - 1 then Send(j, s)
    else s
  }

  function OnData(j: Job, s: System, n: nat, d: seq<byte>): (s': System)
    ensures s'.sending == s.sending
  {
    if n == Number(s.taken + 1) then
      s.(taken := s.taken + 1, got := s.got + d, complete := |d| != j.seg, acks := s.acks + [n])
    else if n == Number(s.taken + 1) - 1 then Repeat(j, s)
    else s
  }

  function React(j: Job, s: System, e: Event): (s': System)
    requires s.sending >= 1
    ensures s'.sending >= 1
  {
    match e
    case SenderTimeout => if s.sent then s else Send(j, s)
    case ReceiverTimeout => if s.complete then s else Repeat(j, s)
    case AckArrives(i) => if i < |s.acks| && !s.sent then OnAck(j, s, s.acks[i]) else s
    case DataArrives(i) => if i < |s.data| && !s.complete then OnData(j, s, s.data[i].0, s.data[i].1) else s
  }

  function Played(j: Job, schedule: seq<Event>): (s: System)
    ensures s.sending >= 1
  {
    if schedule == [] then Begin(j)
    else React(j, Played(j, schedule[..|schedule| - 1]), schedule[|schedule| - 1])
  }

  ghost predicate Reachable(j: Job, s: System)
  {
    exists run :: Run(j, run) && run[|run| - 1] == s
  }

  lemma ReachableNext(j: Job, s: System, s': System)
    requires Reachable(j, s) && Next(j, s, s')
    ensures Reachable(j, s')
  {
    hide Next;
    var run :| Run(j, run) && run[|run| - 1] == s;
    var run' := run + [s'];
    forall i | 0 <= i < |run'| - 1 ensures Next(j, run'[i], run'[i + 1]) {
      if i < |run| - 1 {
        assert Next(j, run[i], run[i + 1]);
      }
    }
    assert Run(j, run') && run'[|run'| - 1] == s';
  }

  lemma SendReachable(j: Job, s: System)
    requires Reachable(j, s) && s.sending >= 1 && !s.sent
    ensures Reachable(j, Send(j, s))
  {
    hide Reachable;
    assert Transmits(j, s, Send(j, s));
    ReachableNext(j, s, Send(j, s));
  }

  lemma RepeatReachable(j: Job, s: System)
    requires Reachable(j, s)
    ensures Reachable(j, Repeat(j, s))
  {
    hide Reachable;
    if First(j) <= s.taken {
      assert Repeats(j, s, Repeat(j, s));
      ReachableNext(j, s, Repeat(j, s));
    }
  }

  lemma AckReachable(j: Job, s: System, ack: nat)
    requires Reachable(j, s) && s.sending >= 1 && !s.sent && ack in s.acks
    ensures Reachable(j, OnAck(j, s, ack))
  {
    hide Reachable, BlockData, Number, Send;
    if ack == Number(s.sending) {
      if |BlockData(j.stream, j.seg, s.sending)| == j.seg {
        var s' := s.(sending := s.sending + 1);
        assert Acknowledged(j, s, s', ack);
        ReachableNext(j, s, s');
        SendReachable(j, s');
      } else {
        assert Acknowledged(j, s, s.(sent := true), ack);
        ReachableNext(j, s, s.(sent := true));
      }
    } else {
      SendReachable(j, s);
    }
  }

  lemma DataReachable(j: Job, s: System, n: nat, d: seq<byte>)
    requires Reachable(j, s) && !s.complete && (n, d) in s.data
    ensures Reachable(j, OnData(j, s, n, d))
  {
    hide Reachable, Number, Repeat;
    if n == Number(s.taken + 1) {
      assert Arrives(j, s, OnData(j, s, n, d), n, d);
      ReachableNext(j, s, OnData(j, s, n, d));
    } else {
      RepeatReachable(j, s);
    }
  }

  /** Whatever happens in whatever order is a run of the machine. */
  lemma {:induction false} PlayedReachable(j: Job, schedule: seq<Event>)
    requires j.seg >= 1
    ensures Reachable(j, Played(j, schedule))
    decreases |schedule|
  {
    hide Reachable, Send, Repeat, OnAck, OnData;
    if schedule == [] {
      var s := System(1, false, 0, [], false, [], []);
      assert Reachable(j, s) by {
        InitReachable(j, s);
      }
      SendReachable(j, s);
      RepeatReachable(j, Send(j, s));
    } else {
      var s, e := Played(j, schedule[..|schedule| - 1]), schedule[|schedule| - 1];
      PlayedReachable(j, schedule[..|schedule| - 1]);
      ReactReachable(j, s, e);
    }
  }

  lemma InitReachable(j: Job, s: System)
    requires Init(j, s)
    ensures Reachable(j, s)
  {
    assert Run(j, [s]) && [s][|[s]| - 1] == s;
  }

  lemma ReactReachable(j: Job, s: System, e: Event)
    requires Reachable(j, s) && s.sending >= 1
    ensures Reachable(j, React(j, s, e))
  {
    hide Reachable, Send, Repeat, OnAck, OnData;
    match e
    case SenderTimeout => if !s.sent { SendReachable(j, s); }
    case ReceiverTimeout => if !s.complete { RepeatReachable(j, s); }
    case AckArrives(i) => if i < |s.acks| && !s.sent { AckReachable(j, s, s.acks[i]); }
    case DataArrives(i) =>
      if i < |s.data| && !s.complete {
        assert (s.data[i].0, s.data[i].1) == s.data[i];
        DataReachable(j, s, s.data[i].0, s.data[i].1);
      }
  }

  // ------------------------------------------------------------------ without loss

  /** Where a transfer without loss stands between two blocks. */
  function Standing(j: Job, n: nat): (s: System)
  {
    System(n + 1, false, n, Prefix(j.stream, j.seg, n), false,
           seq<(nat, seq<byte>)>(n + 1, (i: nat) => (Number(i + 1), BlockData(j.stream, j.seg, i + 1))),
           seq<nat>(n + 1 - First(j), (i: nat) => Number(i + First(j))))
  }

  /** Each block and its acknowledgement arrive in turn. */
  function InOrder(j: Job, n: nat): (schedule: seq<Event>)
  {
    if n == 0 then [] else InOrder(j, n - 1) + [DataArrives(n - 1)] + [AckArrives(n - First(j))]
  }

  lemma PlayedMore(j: Job, schedule: seq<Event>, e: Event)
    ensures Played(j, schedule + [e]) == React(j, Played(j, schedule), e)
  {
    hide React, Begin;
    assert (schedule + [e])[..|schedule|] == schedule;
  }

  lemma Begins(j: Job)
    ensures Begin(j) == Standing(j, 0)
  {
    hide BlockData;
    var s, s' := Begin(j), Standing(j, 0);
    assert s.data == s'.data;
    assert s.acks == s'.acks;
  }

  lemma Received(j: Job, n: nat)
    ensures var d := BlockData(j.stream, j.seg, n + 1);
            React(j, Standing(j, n), DataArrives(n)) ==
            Standing(j, n).(taken := n + 1, got := Prefix(j.stream, j.seg, n + 1), complete := |d| != j.seg, acks := Standing(j, n).acks + [Number(n + 1)])
  {
    hide BlockData, Prefix, Number;
    NextData(j.stream, j.seg, n + 1);
  }

  lemma Answered(j: Job, n: nat, s: System)
    requires |BlockData(j.stream, j.seg, n + 1)| == j.seg
    requires s == Standing(j, n).(taken := n + 1, got := Prefix(j.stream, j.seg, n + 1), acks := Standing(j, n).acks + [Number(n + 1)])
    ensures React(j, s, AckArrives(n + 1 - First(j))) == Standing(j, n + 1)
  {
    hide BlockData, Prefix, Number;
    var s', t := React(j, s, AckArrives(n + 1 - First(j))), Standing(j, n + 1);
    assert s.acks[n + 1 - First(j)] == Number(n + 1);
    assert s'.data == t.data;
    assert s'.acks == t.acks;
  }

  lemma {:induction false} InOrderStands(j: Job, n: nat)
    requires FullUpTo(j.stream, j.seg, n + 1)
    ensures Played(j, InOrder(j, n)) == Standing(j, n)
    decreases n
  {
    hide BlockData, Prefix, Number, React, Standing, Played;
    if n == 0 {
      NothingPlayed(j);
      Begins(j);
    } else {
      InOrderStands(j, n - 1);
      var schedule := InOrder(j, n - 1);
      PlayedMore(j, schedule, DataArrives(n - 1));
      Received(j, n - 1);
      assert |BlockData(j.stream, j.seg, n)| == j.seg;
      PlayedMore(j, schedule + [DataArrives(n - 1)], AckArrives(n - First(j)));
      Turned(j, n - 1);
    }
  }

  lemma NothingPlayed(j: Job)
    ensures Played(j, []) == Begin(j)
  {
  }

  lemma Turned(j: Job, n: nat)
    requires |BlockData(j.stream, j.seg, n + 1)| == j.seg
    ensures React(j, React(j, Standing(j, n), DataArrives(n)), AckArrives(n + 1 - First(j))) == Standing(j, n + 1)
  {
    hide BlockData, Prefix, Number, React;
    Received(j, n);
    Answered(j, n, React(j, Standing(j, n), DataArrives(n)));
  }

  /** Without loss every transfer ends, with the whole stream at the receiver, however long. */
  lemma WithoutLoss(j: Job)
    requires j.seg >= 1
    ensures var s := Played(j, InOrder(j, |j.stream| / j.seg + 1)); s.complete && s.sent && s.got == j.stream
  {
    hide Played, InOrder;
    var n := WholeBlocks(|j.stream|, j.seg);
    EndsAfter(j, n);
  }

  lemma EndsAfter(j: Job, n: nat)
    requires j.seg >= 1 && n * j.seg <= |j.stream| < (n + 1) * j.seg
    ensures var s := Played(j, InOrder(j, n + 1)); s.complete && s.sent && s.got == j.stream
  {
    hide BlockData, Prefix, Number, React, FullUpTo, Played, InOrder;
    FullFromLength(j.stream, j.seg, n);
    ShortRest(|j.stream|, n, j.seg);
    InOrderStands(j, n);
    var schedule := InOrder(j, n);
    PlayedMore(j, schedule, DataArrives(n));
    PlayedMore(j, schedule + [DataArrives(n)], AckArrives(n + 1 - First(j)));
    InOrderMore(j, n);
    Ends(j, n);
  }

  lemma InOrderMore(j: Job, n: nat)
    ensures InOrder(j, n + 1) == InOrder(j, n) + [DataArrives(n)] + [AckArrives(n + 1 - First(j))]
  {
  }

  lemma ShortRest(a: nat, n: nat, seg: nat)
    requires a < (n + 1) * seg
    ensures a - n * seg < seg
  {
    assert (n + 1) * seg == n * seg + seg;
  }

  lemma WholeBlocks(a: nat, seg: nat) returns (n: nat)
    requires seg >= 1
    ensures n == a / seg && n * seg <= a < (n + 1) * seg
  {
    n := a / seg;
    assert a == n * seg + a % seg;
    assert (n + 1) * seg == n * seg + seg;
  }

  lemma Ends(j: Job, n: nat)
    requires |BlockData(j.stream, j.seg, n + 1)| != j.seg
    ensures var s := React(j, React(j, Standing(j, n), DataArrives(n)), AckArrives(n + 1 - First(j)));
            s.complete && s.sent && s.got == j.stream
  {
    hide BlockData, Prefix, Number;
    Received(j, n);
    ShortIsLast(j.stream, j.seg, n + 1);
    assert React(j, Standing(j, n), DataArrives(n)).acks[n + 1 - First(j)] == Number(n + 1);
  }

  // ------------------------------------------------------------------ in spite of loss

  /** Events from state s on. */
  function PlayFrom(j: Job, s: System, es: seq<Event>): (s': System)
    requires s.sending >= 1
    ensures s'.sending >= 1
    decreases |es|
  {
    if es == [] then s else PlayFrom(j, React(j, s, es[0]), es[1..])
  }

  lemma {:induction false} PlayOn(j: Job, s: System, a: seq<Event>, b: seq<Event>)
    requires s.sending >= 1
    ensures PlayFrom(j, s, a + b) == PlayFrom(j, PlayFrom(j, s, a), b)
    decreases |a|
  {
    hide React;
    if a == [] {
      assert a + b == b;
    } else {
      assert (a + b)[1..] == a[1..] + b;
      PlayOn(j, React(j, s, a[0]), a[1..], b);
    }
  }

  /** Under way, with anything lost or late. */
  ghost predicate UnderWay(j: Job, s: System)
  {
    && j.seg >= 1 && s.sending >= 1 && !s.sent && !s.complete && s.taken <= s.sending <= s.taken + 1
    && s.got == Prefix(j.stream, j.seg, s.taken) && FullUpTo(j.stream, j.seg, s.taken + 1)
  }

  lemma SoundUnderWay(j: Job, s: System)
    requires Sound(j, s) && !s.sent && !s.complete
    ensures UnderWay(j, s)
  {
  }

  /** The sender's block was lost: it is sent again after a timeout, and taken. */
  lemma BlockAgain(j: Job, s: System)
    requires UnderWay(j, s) && s.sending == s.taken + 1
    ensures var d := BlockData(j.stream, j.seg, s.sending);
            React(j, React(j, s, SenderTimeout), DataArrives(|s.data|)) ==
            Send(j, s).(taken := s.sending, got := Prefix(j.stream, j.seg, s.sending), complete := |d| != j.seg, acks := s.acks + [Number(s.sending)])
  {
    hide BlockData, Prefix, Number, FullUpTo;
    NextData(j.stream, j.seg, s.sending);
  }

  /** Its acknowledgement was lost: the block is sent again, and the receiver, which has it
      already, acknowledges it again, unless it expects block number 0. */
  lemma AckAgain(j: Job, s: System)
    requires UnderWay(j, s) && s.sending == s.taken
    ensures var s1 := React(j, React(j, s, SenderTimeout), DataArrives(|s.data|));
            if Number(s.taken + 1) != 0 then s1 == Send(j, s).(acks := s.acks + [Number(s.taken)]) else s1 == Send(j, s)
  {
    hide BlockData, Prefix, FullUpTo;
  }

  lemma Acked(j: Job, s: System, s1: System)
    requires UnderWay(j, s) && s.sending == s.taken && s1 == Send(j, s).(acks := s.acks + [Number(s.taken)])
    ensures React(j, s1, AckArrives(|s.acks|)) == Send(j, s1.(sending := s.sending + 1))
    ensures UnderWay(j, React(j, s1, AckArrives(|s.acks|)))
  {
    hide BlockData, Prefix, Number;
    assert |BlockData(j.stream, j.seg, s.sending)| == j.seg;
  }

  lemma AllTaken(j: Job, s: System, s1: System)
    requires UnderWay(j, s) && s.sending == s.taken + 1 && |BlockData(j.stream, j.seg, s.sending)| != j.seg
    requires s1 == Send(j, s).(taken := s.sending, got := Prefix(j.stream, j.seg, s.sending), complete := true, acks := s.acks + [Number(s.sending)])
    ensures React(j, s1, AckArrives(|s.acks|)) == s1.(sent := true) && s1.got == j.stream
  {
    hide BlockData, Prefix, Number, FullUpTo;
    ShortIsLast(j.stream, j.seg, s.sending);
  }

  lemma RepeatedAck(j: Job, s: System)
    requires UnderWay(j, s) && s.sending == s.taken
    ensures React(j, Send(j, s), ReceiverTimeout) == Send(j, s).(acks := s.acks + [Number(s.taken)])
  {
    hide BlockData, Prefix, Number, FullUpTo;
  }

  lemma NumbersWrap(j: Job, s: System)
    requires UnderWay(j, s) && Number(s.taken + 1) == 0
    ensures |j.stream| >= 65535 * j.seg
  {
    hide BlockData, Prefix, FullUpTo;
    FullLength(j.stream, j.seg, s.taken + 1);
    MulGrows(65535, s.taken, j.seg);
  }

  lemma BlockTaken(j: Job, s: System, s1: System)
    requires UnderWay(j, s) && s.sending == s.taken + 1 && |BlockData(j.stream, j.seg, s.sending)| == j.seg
    requires s1 == Send(j, s).(taken := s.sending, got := Prefix(j.stream, j.seg, s.sending), complete := false, acks := s1.acks)
    ensures UnderWay(j, s1) && |s.got| < |s1.got| <= |j.stream|
  {
    hide BlockData, Prefix, Number;
    FullMore(j.stream, j.seg, s.sending);
    NextData(j.stream, j.seg, s.sending);
  }

  lemma TwoEvents(j: Job, s: System, a: Event, b: Event)
    requires s.sending >= 1
    ensures PlayFrom(j, s, [a, b]) == React(j, React(j, s, a), b) && PlayFrom(j, s, [a]) == React(j, s, a)
  {
    hide React;
    assert [a, b][1..] == [b] && [b][1..] == [] && [a][1..] == [];
    assert PlayFrom(j, React(j, s, a), [b]) == PlayFrom(j, React(j, React(j, s, a), b), []);
  }

  /** Whatever was lost, the transfer can still end, by the sender's timeouts alone as long as
      block numbers do not wrap. */
  lemma {:induction false} CanFinish(j: Job, s: System) returns (es: seq<Event>)
    requires UnderWay(j, s)
    ensures var s' := PlayFrom(j, s, es); s'.complete && s'.sent && s'.got == j.stream
    ensures |j.stream| < 65535 * j.seg ==> ReceiverTimeout !in es
    decreases |j.stream| - |s.got|, s.sending == s.taken
  {
    hide BlockData, Prefix, React, PlayFrom, FullUpTo, Number;
    var again := [SenderTimeout, DataArrives(|s.data|)];
    var s1 := React(j, React(j, s, SenderTimeout), DataArrives(|s.data|));
    TwoEvents(j, s, SenderTimeout, DataArrives(|s.data|));
    if s.sending == s.taken {
      AckAgain(j, s);
      var ack := [AckArrives(|s.acks|)];
      if Number(s.taken + 1) == 0 {
        NumbersWrap(j, s);
        RepeatedAck(j, s);
        TwoEvents(j, s1, ReceiverTimeout, SenderTimeout);
        PlayOn(j, s, again, [ReceiverTimeout]);
        again, s1 := again + [ReceiverTimeout], React(j, s1, ReceiverTimeout);
      }
      Acked(j, s, s1);
      var s2 := React(j, s1, AckArrives(|s.acks|));
      TwoEvents(j, s1, AckArrives(|s.acks|), SenderTimeout);
      var more := CanFinish(j, s2);
      PlayOn(j, s, again, ack + more);
      PlayOn(j, s1, ack, more);
      es := again + (ack + more);
    } else {
      BlockAgain(j, s);
      if |BlockData(j.stream, j.seg, s.sending)| != j.seg {
        AllTaken(j, s, s1);
        TwoEvents(j, s1, AckArrives(|s.acks|), SenderTimeout);
        PlayOn(j, s, again, [AckArrives(|s.acks|)]);
        es := again + [AckArrives(|s.acks|)];
      } else {
        BlockTaken(j, s, s1);
        var more := CanFinish(j, s1);
        PlayOn(j, s, again, more);
        es := again + more;
      }
    }
  }

  lemma {:induction false} PlayedJoin(j: Job, schedule: seq<Event>, es: seq<Event>)
    ensures Played(j, schedule + es) == PlayFrom(j, Played(j, schedule), es)
    decreases |es|
  {
    hide React, Played;
    if es == [] {
      assert schedule + es == schedule;
    } else {
      assert schedule + es == schedule + [es[0]] + es[1..];
      PlayedMore(j, schedule, es[0]);
      PlayedJoin(j, schedule + [es[0]], es[1..]);
    }
  }

  /** After any schedule that has stopped neither end, a job that fits can still be brought to its
      end. */
  lemma NeverStuck(j: Job, schedule: seq<Event>) returns (es: seq<Event>)
    requires j.seg >= 1 && Fits(j) && !Played(j, schedule).sent && !Played(j, schedule).complete
    ensures var s := Played(j, schedule + es); s.complete && s.sent && s.got == j.stream
    ensures |j.stream| < 65535 * j.seg ==> ReceiverTimeout !in es
  {
    hide Played, Sound, Fits, PlayFrom, UnderWay, Reachable;
    PlayedReachable(j, schedule);
    SoundExactly(j);
    SoundUnderWay(j, Played(j, schedule));
    es := CanFinish(j, Played(j, schedule));
    PlayedJoin(j, schedule, es);
  }

  // ------------------------------------------------------------ files that do not fit

  /** An acknowledgement from 65536 blocks ago is taken for that of a block that the receiver
      does not have. */
  lemma OldAckCounts(j: Job)
    requires j.seg >= 1 && |j.stream| > (65535 + First(j)) * j.seg
    ensures !Sound(j, React(j, Standing(j, 65535 + First(j)), AckArrives(0)))
  {
    hide Prefix, BlockData, Authentic, Genuine;
    var n := 65535 + First(j);
    FullFromLength(j.stream, j.seg, n);
    assert Standing(j, n).acks[0] == Number(First(j)) == Number(n + 1);
  }

  /** Block 1 is taken for the empty block 65537. */
  lemma OldBlockCounts(j: Job)
    requires j.seg >= 1 && |j.stream| == 65536 * j.seg
    ensures !Sound(j, React(j, Standing(j, 65536), DataArrives(0)))
  {
    hide Prefix, BlockData, Authentic, Genuine, FullUpTo;
    FullFromLength(j.stream, j.seg, 65536);
    FullFromLength(j.stream, j.seg, 0);
    var d := BlockData(j.stream, j.seg, 1);
    assert Standing(j, 65536).data[0] == (Number(65537), d);
    assert |Prefix(j.stream, j.seg, 65536) + d| > |j.stream|;
    assert |Prefix(j.stream, j.seg, 65537)| <= |j.stream|;
  }

  lemma TooLong(j: Job) returns (schedule: seq<Event>)
    requires j.seg >= 1 && !Fits(j)
    ensures !Sound(j, Played(j, schedule))
  {
    hide Prefix, BlockData, Standing, Sound, React, Played, InOrder;
    var n := 65535 + First(j);
    FullFromLength(j.stream, j.seg, n);
    InOrderStands(j, n);
    if |j.stream| > n * j.seg {
      schedule := InOrder(j, n) + [AckArrives(0)];
      PlayedMore(j, InOrder(j, n), AckArrives(0));
      OldAckCounts(j);
    } else {
      schedule := InOrder(j, n) + [DataArrives(0)];
      PlayedMore(j, InOrder(j, n), DataArrives(0));
      OldBlockCounts(j);
    }
  }

  /** The two ends agree in every run exactly where the file fits. */
  lemma SoundExactly(j: Job)
    requires j.seg >= 1
    ensures (forall s :: Reachable(j, s) ==> Sound(j, s)) <==> Fits(j)
  {
    hide Sound, Fits, Next, Played;
    if Fits(j) {
      forall s | Reachable(j, s) ensures Sound(j, s) {
        var run :| Run(j, run) && run[|run| - 1] == s;
        EveryRun(j, run, |run| - 1);
      }
    } else {
      var schedule := TooLong(j);
      PlayedReachable(j, schedule);
    }
  }

  // ----------------------------------------------------------------- the programs

  /** The two programs stand where the machine does. */
  ghost predicate Agree(j: Job, s: System, sender: Sender, receiver: Receiver)
    reads sender, sender.reader, sender.reader.bfs, receiver, receiver.writer, receiver.writer.bfs
  {
    && sender.Valid() && receiver.Valid() && sender.reader.bfs != receiver.writer.bfs
    && sender.reader.Stream() == j.stream && sender.reader.segsize == j.seg == receiver.segsize
    && s.sending == sender.index && s.sent == sender.finished
    && s.taken == receiver.count && s.got == receiver.writer.taken && s.complete == receiver.finished
    && (receiver.last.Some? <==> First(j) <= receiver.count)
  }

  /** Lets an event happen to the programs as they stand. */
  method Happens(sender: Sender, receiver: Receiver, data: seq<(nat, seq<byte>)>, acks: seq<nat>, e: Event, ghost j: Job,
                 ghost s: System) returns (data': seq<(nat, seq<byte>)>, acks': seq<nat>)
    requires Agree(j, s, sender, receiver) && s.data == data && s.acks == acks
    modifies sender, sender.reader, sender.reader.bfs, receiver, receiver.writer, receiver.writer.bfs
    ensures var s' := React(j, s, e); Agree(j, s', sender, receiver) && s'.data == data' && s'.acks == acks'
  {
    hide FileReader.Valid, FileWriter.Valid, FullUpTo, BlockData, Prefix, Number, WrittenFor, FileReader.Stream;
    data', acks' := data, acks;
    match e
    case SenderTimeout =>
      if !sender.finished {
        data' := data + [(sender.block, sender.packet)];
      }
    case ReceiverTimeout =>
      if !receiver.finished && receiver.last.Some? {
        acks' := acks + [receiver.last.value];
      }
    case AckArrives(i) =>
      if i < |acks| && !sender.finished {
        var send := sender.OnAck(acks[i]);
        if send {
          data' := data + [(sender.block, sender.packet)];
        }
      }
    case DataArrives(i) =>
      if i < |data| && !receiver.finished {
        var ack := receiver.OnData(data[i].0, data[i].1);
        if ack.Some? {
          acks' := acks + [ack.value];
        }
      }
  }

  /** Both ends after the request, the first block under way. */
  method Start(file: seq<byte>, convert: bool, seg: nat, options: bool, ghost j: Job)
    returns (sender: Sender, receiver: Receiver, data: seq<(nat, seq<byte>)>, acks: seq<nat>)
    requires seg >= 1 && j == Job(if convert then Expand(file) else file, seg, options)
    ensures fresh(sender) && fresh(sender.reader) && fresh(sender.reader.bfs)
    ensures fresh(receiver) && fresh(receiver.writer) && fresh(receiver.writer.bfs) && receiver.writer.convert == convert
    ensures var s := Begin(j); Agree(j, s, sender, receiver) && s.data == data && s.acks == acks
  {
    hide FileReader.Valid, FileWriter.Valid, Expand, FullUpTo, BlockData, WrittenFor;
    var reader := new FileReader(file, convert, seg);
    var writer := new FileWriter(convert);
    sender := new Sender(reader);
    receiver := new Receiver(writer, seg, options);
    data := [(sender.block, sender.packet)];
    acks := if receiver.last.Some? then [receiver.last.value] else [];
    FirstPrefix(j.stream, j.seg);
    assert Begin(j).data == data;
  }

  lemma Concluded(j: Job, s: System, sender: Sender, receiver: Receiver)
    requires Agree(j, s, sender, receiver)
    ensures s.complete == receiver.finished && s.sent == sender.finished
    ensures s.complete ==> receiver.writer.out == WrittenFor(s.got, receiver.writer.convert).out
  {
    hide FileReader.Valid, FileWriter.Valid, Expand, FullUpTo, BlockData, Prefix, WrittenFor;
  }

  lemma Arrived(file: seq<byte>, convert: bool, j: Job, s: System)
    requires j.stream == (if convert then Expand(file) else file) && Sound(j, s)
    ensures s.complete ==> WrittenFor(s.got, convert).out == file
    ensures s.sent ==> s.complete || (j.options && |j.stream| == 65535 * j.seg)
  {
    hide WrittenFor, Expand, Apart;
    AllWritten(file, convert);
  }

  /** A file is sent and received, with whatever delays, losses and repetitions. If the
      receiver comes to its end, the file has arrived. */
  method Transfer(file: seq<byte>, convert: bool, seg: nat, options: bool, schedule: seq<Event>)
    returns (out: seq<byte>, complete: bool, sent: bool)
    requires seg >= 1
    ensures var s := Played(Job(if convert then Expand(file) else file, seg, options), schedule);
            complete == s.complete && sent == s.sent
    ensures var j := Job(if convert then Expand(file) else file, seg, options);
            Fits(j) ==> (complete ==> out == file) && (sent ==> complete || (options && |j.stream| == 65535 * seg))
  {
    hide FileReader.Valid, FileWriter.Valid, Expand, Fits, Played, React, WrittenFor, Agree;
    ghost var j := Job(if convert then Expand(file) else file, seg, options);
    var sender, receiver, data, acks := Start(file, convert, seg, options, j);
    NothingPlayed(j);
    var i := 0;
    while i < |schedule|
      invariant 0 <= i <= |schedule|
      invariant fresh(sender) && fresh(sender.reader) && fresh(sender.reader.bfs)
      invariant fresh(receiver) && fresh(receiver.writer) && fresh(receiver.writer.bfs) && receiver.writer.convert == convert
      invariant var s := Played(j, schedule[..i]); Agree(j, s, sender, receiver) && s.data == data && s.acks == acks
    {
      PlayedMore(j, schedule[..i], schedule[i]);
      assert schedule[..i + 1] == schedule[..i] + [schedule[i]];
      data, acks := Happens(sender, receiver, data, acks, schedule[i], j, Played(j, schedule[..i]));
      i := i + 1;
    }
    assert schedule[..|schedule|] == schedule;
    out, complete, sent := receiver.writer.out, receiver.finished, sender.finished;
    Concluded(j, Played(j, schedule), sender, receiver);
    PlayedReachable(j, schedule);
    if Fits(j) {
      SoundExactly(j);
      Arrived(file, convert, j, Played(j, schedule));
    }
  }
}
