/** The NRV2B stream format. Single bits are gathered into words of s bits, and
    each word sits in the stream at the place where its first bit was needed;
    raw bytes are stored between the words. */
module Nrv2bFormat {
  import opened Bytes

  /** BITSIZE: the four word widths the coder can be configured for. */
  type Width = s: nat | s == 8 || s == 16 || s == 32 || s == 64 witness 32

  datatype Op = Bit(b: bool) | Raw(v: byte)

  function BitsOf(ops: seq<Op>): (bits: seq<bool>)
  {
    if ops == [] then []
    else match ops[0]
      case Bit(b) => [b] + BitsOf(ops[1..])
      case Raw(_) => BitsOf(ops[1..])
  }

  function RawsOf(ops: seq<Op>): (raws: seq<byte>)
  {
    if ops == [] then []
    else match ops[0]
      case Bit(_) => RawsOf(ops[1..])
      case Raw(v) => [v] + RawsOf(ops[1..])
  }

  function WordBytes(s: Width, bits: seq<bool>): (w: seq<byte>)
    ensures |w| == s / 8
  {
    LeBytes(Value(Pad(bits, s)), s / 8)
  }

  /** The bytes of a stream, when the word before it still holds `avail` of its bits. */
  function Layout(s: Width, ops: seq<Op>, avail: nat): (bytes: seq<byte>)
  {
    if ops == [] then []
    else match ops[0]
      case Raw(v) => [v] + Layout(s, ops[1..], avail)
      case Bit(_) =>
        if avail > 0 then Layout(s, ops[1..], avail - 1)
        else WordBytes(s, BitsOf(ops)) + Layout(s, ops[1..], s - 1)
  }

  // ---------------------------------------------------------------- appending

  lemma OpsAppend(a: seq<Op>, b: seq<Op>)
    ensures BitsOf(a + b) == BitsOf(a) + BitsOf(b)
    ensures RawsOf(a + b) == RawsOf(a) + RawsOf(b)
  {
    BitsAppend(a, b);
    RawsAppend(a, b);
  }

  lemma {:induction false} BitsAppend(a: seq<Op>, b: seq<Op>)
    ensures BitsOf(a + b) == BitsOf(a) + BitsOf(b)
  {
    if a == [] {
      assert a + b == b;
    } else {
      assert (a + b)[1..] == a[1..] + b;
      BitsAppend(a[1..], b);
    }
  }

  lemma {:induction false} RawsAppend(a: seq<Op>, b: seq<Op>)
    ensures RawsOf(a + b) == RawsOf(a) + RawsOf(b)
  {
    if a == [] {
      assert a + b == b;
    } else {
      assert (a + b)[1..] == a[1..] + b;
      RawsAppend(a[1..], b);
    }
  }

  /** Cost in bits: one for a bit, eight for a raw byte. */
  function Weight(ops: seq<Op>): (w: nat)
  {
    |BitsOf(ops)| + 8 * |RawsOf(ops)|
  }

  lemma WeightAppend(a: seq<Op>, b: seq<Op>)
    ensures Weight(a + b) == Weight(a) + Weight(b)
  {
    hide BitsOf, RawsOf;
    OpsAppend(a, b);
  }

  lemma NoWeight()
    ensures Weight([]) == 0
  {
  }

  lemma WeightOfBit(b: bool)
    ensures Weight([Bit(b)]) == 1
  {
    OneOp(Bit(b));
  }

  lemma WeightOfRaw(v: byte)
    ensures Weight([Raw(v)]) == 8
  {
    OneOp(Raw(v));
  }

  /** What a single operation is made of. */
  lemma OneOp(op: Op)
    ensures BitsOf([op]) == (if op.Bit? then [op.b] else []) && RawsOf([op]) == (if op.Bit? then [] else [op.v])
  {
    assert [op][1..] == [] && BitsOf([]) == [] && RawsOf([]) == [];
    assert [op][0] == op;
  }

  lemma WeightOfTwoBits(a: bool, b: bool)
    ensures Weight([Bit(a), Bit(b)]) == 2
  {
    hide Weight;
    assert [Bit(a), Bit(b)] == [Bit(a)] + [Bit(b)];
    WeightAppend([Bit(a)], [Bit(b)]);
    WeightOfBit(a);
    WeightOfBit(b);
  }

  /** n bits fill their words exactly. */
  predicate WholeWords(s: Width, n: int)
  {
    n == 0 || (n >= s && WholeWords(s, n - s))
  }

  lemma FirstWordAppend(s: Width, a: seq<Op>, b: seq<Op>)
    requires |BitsOf(a)| >= s
    ensures WordBytes(s, BitsOf(a + b)) == WordBytes(s, BitsOf(a))
  {
    OpsAppend(a, b);
    assert Pad(BitsOf(a) + BitsOf(b), s) == Pad(BitsOf(a), s);
  }

  /** Where a word ends exactly, the stream falls into two independent halves. */
  lemma {:induction false} LayoutAppend(s: Width, a: seq<Op>, b: seq<Op>, avail: nat)
    requires avail < s && WholeWords(s, |BitsOf(a)| - avail)
    ensures Layout(s, a + b, avail) == Layout(s, a, avail) + Layout(s, b, 0)
  {
    hide Layout, BitsOf, WordBytes, WholeWords;
    if a == [] {
      assert a + b == b;
      NoLayout(s, avail);
      NoneOpen(s, avail);
    } else {
      var rest := a[1..];
      assert (a + b)[1..] == rest + b && (a + b)[0] == a[0];
      BitsHead(a);
      LayoutHead(s, a, avail);
      LayoutHead(s, a + b, avail);
      if a[0].Raw? {
        LayoutAppend(s, rest, b, avail);
        Regroup([a[0].v], Layout(s, rest, avail), Layout(s, b, 0));
      } else if avail > 0 {
        LayoutAppend(s, rest, b, avail - 1);
      } else {
        FirstWord(s, |BitsOf(a)|);
        FirstWordAppend(s, a, b);
        LayoutAppend(s, rest, b, s - 1);
        Regroup(WordBytes(s, BitsOf(a)), Layout(s, rest, s - 1), Layout(s, b, 0));
      }
    }
  }

  lemma NoneOpen(s: Width, avail: nat)
    requires avail < s && WholeWords(s, |BitsOf([])| - avail)
    ensures avail == 0
  {
  }

  lemma FirstWord(s: Width, n: nat)
    requires n > 0 && WholeWords(s, n)
    ensures n >= s && WholeWords(s, n - s)
  {
  }

  lemma NoLayout(s: Width, avail: nat)
    ensures Layout(s, [], avail) == []
  {
  }

  lemma BitsHead(ops: seq<Op>)
    requires ops != []
    ensures |BitsOf(ops)| == |BitsOf(ops[1..])| + (if ops[0].Bit? then 1 else 0)
  {
  }

  lemma LayoutHead(s: Width, ops: seq<Op>, avail: nat)
    requires ops != []
    ensures Layout(s, ops, avail) ==
            if ops[0].Raw? then [ops[0].v] + Layout(s, ops[1..], avail)
            else if avail > 0 then Layout(s, ops[1..], avail - 1)
            else WordBytes(s, BitsOf(ops)) + Layout(s, ops[1..], s - 1)
  {
  }

  /** A stretch whose bits all come from the word already loaded holds only raw bytes. */
  lemma {:induction false} LayoutWithinWord(s: Width, ops: seq<Op>, avail: nat)
    requires |BitsOf(ops)| <= avail
    ensures Layout(s, ops, avail) == RawsOf(ops)
  {
    if ops != [] {
      LayoutWithinWord(s, ops[1..], if ops[0].Bit? then avail - 1 else avail);
    }
  }

  /** A stretch of at most s bits that starts a word: the word, then its raw bytes. */
  lemma LayoutOneWord(s: Width, ops: seq<Op>)
    requires ops != [] && ops[0].Bit? && |BitsOf(ops)| <= s
    ensures Layout(s, ops, 0) == WordBytes(s, BitsOf(ops)) + RawsOf(ops)
  {
    LayoutWithinWord(s, ops[1..], s - 1);
  }

  // --------------------------------------------------------------------- size

  /** Bytes taken by the words that `bits` single bits need. */
  function WordSpace(s: Width, bits: int): (n: nat)
  {
    if bits <= 0 then 0 else s / 8 + WordSpace(s, bits - s)
  }

  lemma {:induction false} LayoutSize(s: Width, ops: seq<Op>, avail: nat)
    requires avail < s
    ensures |Layout(s, ops, avail)| == |RawsOf(ops)| + WordSpace(s, |BitsOf(ops)| - avail)
  {
    if ops != [] {
      match ops[0]
      case Raw(_) => LayoutSize(s, ops[1..], avail);
      case Bit(_) => LayoutSize(s, ops[1..], if avail > 0 then avail - 1 else s - 1);
    }
  }

  lemma {:induction false} WordSpaceMonotone(s: Width, m: int, n: int)
    requires m <= n
    ensures WordSpace(s, m) <= WordSpace(s, n)
    decreases if m > 0 then m else 0
  {
    if m > 0 {
      WordSpaceMonotone(s, m - s, n - s);
    }
  }

  /** The words waste less than one word. */
  lemma {:induction false} WordSpaceBound(s: Width, bits: nat)
    ensures bits <= 8 * WordSpace(s, bits) < bits + s
  {
    if bits > s {
      WordSpaceBound(s, bits - s);
    } else if bits > 0 {
      assert WordSpace(s, bits - s) == 0;
    }
  }

  // ------------------------------------------------------------------ reading

  /** A reader: the next byte to fetch, and the bits left of the last word fetched. */
  datatype Reader = Reader(pos: nat, buf: seq<bool>)

  datatype Read<+T> = Overrun | Got(value: T, rest: Reader)

  /** How many bits a reader has taken: those of the bytes behind it that are not in hand. */
  function Used(rd: Reader): (bits: int)
  {
    8 * rd.pos - |rd.buf|
  }

  function NextBit(s: Width, src: seq<byte>, rd: Reader): (r: Read<bool>)
    ensures r.Got? ==> Fuel(src, r.rest) < Fuel(src, rd) && r.rest.pos <= |src|
    ensures r.Got? ==> Used(r.rest) == Used(rd) + 1
  {
    if rd.buf != [] then
      if rd.pos <= |src| then Got(rd.buf[0], rd.(buf := rd.buf[1..])) else Overrun
    else if rd.pos + s / 8 <= |src| then
      var word := FetchWord(s, src, rd.pos);
      WordBits(s);
      Got(word[0], Reader(rd.pos + s / 8, word[1..]))
    else Overrun
  }

  lemma WordBits(s: Width)
    ensures 8 * (s / 8) == s
  {
  }

  function FetchWord(s: Width, src: seq<byte>, pos: nat): (bits: seq<bool>)
    requires pos + s / 8 <= |src|
    ensures |bits| == s
  {
    ToBits(LeValue(src[pos..pos + s / 8]), s)
  }

  function NextRaw(src: seq<byte>, rd: Reader): (r: Read<byte>)
    ensures r.Got? ==> Fuel(src, r.rest) < Fuel(src, rd) && r.rest.pos <= |src|
    ensures r.Got? ==> Used(r.rest) == Used(rd) + 8
  {
    if rd.pos < |src| then Got(src[rd.pos], rd.(pos := rd.pos + 1)) else Overrun
  }

  /** What is left to read; every successful read uses some of it up. */
  function Fuel(src: seq<byte>, rd: Reader): int
  {
    9 * (|src| - rd.pos) + |rd.buf|
  }

  /** The reader stands in `src` exactly where `ops` remain to be read. */
  ghost predicate StandsAt(s: Width, src: seq<byte>, rd: Reader, ops: seq<Op>)
  {
    && rd.pos <= |src|
    && |rd.buf| < s
    && src[rd.pos..] == Layout(s, ops, |rd.buf|)
    && rd.buf == Pad(BitsOf(ops), |rd.buf|)
  }

  lemma WordReadsBack(s: Width, src: seq<byte>, pos: nat, bits: seq<bool>, tail: seq<byte>)
    requires pos <= |src| && src[pos..] == WordBytes(s, bits) + tail
    ensures pos + s / 8 <= |src| && FetchWord(s, src, pos) == Pad(bits, s) && src[pos + s / 8..] == tail
  {
    hide Value, LeValue, LeBytes, ToBits, Pad;
    assert src[pos..pos + s / 8] == src[pos..][..s / 8];
    assert src[pos + s / 8..] == src[pos..][s / 8..];
    LeValueOfLeBytes(Value(Pad(bits, s)), s / 8);
    ToBitsOfValue(Pad(bits, s));
  }

  lemma PadTail(b: bool, bits: seq<bool>, n: nat)
    requires n > 0
    ensures Pad([b] + bits, n)[0] == b && Pad([b] + bits, n)[1..] == Pad(bits, n - 1)
  {
  }

  lemma ReadBit(s: Width, src: seq<byte>, rd: Reader, b: bool, rest: seq<Op>)
    requires StandsAt(s, src, rd, [Bit(b)] + rest)
    ensures NextBit(s, src, rd).Got? && NextBit(s, src, rd).value == b
    ensures StandsAt(s, src, NextBit(s, src, rd).rest, rest)
  {
    assert ([Bit(b)] + rest)[1..] == rest;
    if rd.buf == [] {
      FetchBit(s, src, rd, b, rest);
    } else {
      PadTail(b, BitsOf(rest), |rd.buf|);
    }
  }

  lemma FetchBit(s: Width, src: seq<byte>, rd: Reader, b: bool, rest: seq<Op>)
    requires StandsAt(s, src, rd, [Bit(b)] + rest) && rd.buf == []
    ensures NextBit(s, src, rd).Got? && NextBit(s, src, rd).value == b
    ensures StandsAt(s, src, NextBit(s, src, rd).rest, rest)
  {
    hide Layout, WordBytes, FetchWord, Pad;
    var ops := [Bit(b)] + rest;
    assert ops[1..] == rest;
    LayoutHead(s, ops, 0);
    assert BitsOf(ops) == [b] + BitsOf(rest);
    WordReadsBack(s, src, rd.pos, BitsOf(ops), Layout(s, rest, s - 1));
    PadTail(b, BitsOf(rest), s);
  }

  lemma ReadRaw(s: Width, src: seq<byte>, rd: Reader, v: byte, rest: seq<Op>)
    requires StandsAt(s, src, rd, [Raw(v)] + rest)
    ensures NextRaw(src, rd).Got? && NextRaw(src, rd).value == v
    ensures StandsAt(s, src, NextRaw(src, rd).rest, rest)
  {
    var ops := [Raw(v)] + rest;
    assert ops[1..] == rest;
    assert src[rd.pos..] == [v] + Layout(s, rest, |rd.buf|);
    assert src[rd.pos] == src[rd.pos..][0];
    assert src[rd.pos + 1..] == src[rd.pos..][1..];
  }

  lemma StandsAtStart(s: Width, ops: seq<Op>)
    ensures StandsAt(s, Layout(s, ops, 0), Reader(0, []), ops)
  {
    var src := Layout(s, ops, 0);
    assert src[0..] == src;
  }
}
