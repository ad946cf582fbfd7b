/** The NRV2B format in numbers: what the constants stand for, and a stream byte by byte. */
module Nrv2bSample {
  import opened Bytes
  import opened Nrv2bFormat
  import opened Nrv2bTokens
  import opened Nrv2bCost
  import opened RingBuffer
  import Nrv2bCompress

  // ------------------------------------------------------------------- constants

  /** The shortest copy covers two bytes up to the offset from which on it costs more than the
      two literals, and three beyond. */
  lemma TwoBytesPay(off: nat, last: nat)
    requires 1 <= off <= N && off != last
    ensures 1 + OffsetCost(off, last) + 2 <= 18 <==> off <= M2_MAX_OFFSET
  {
    hide Log2;
    var x := 3 + (off - 1) / 256;
    Log2Range(x);
  }

  lemma Log2Range(x: nat)
    requires 3 <= x < 1024
    ensures Log2(x) <= 3 <==> x < 16
  {
    hide Log2;
    if x < 16 {
      Log2Monotone(x, 15);
    } else {
      Log2Monotone(16, x);
    }
    Log2Of16();
  }

  lemma Log2Of16()
    ensures Log2(15) == 3 && Log2(16) == 4
  {
    assert Log2(1) == 0 && Log2(2) == 1 && Log2(4) == 2 && Log2(8) == 3;
    assert Log2(3) == 1 && Log2(7) == 2;
  }

  /** A coded length m copies m + 1 bytes up to 3328 back and m + 2 from further back. */
  lemma CopyLength(m: u32, off: u32)
    requires 1 <= m < 0x7fff_ffff
    ensures CopyCount(m, off) == if off <= 3328 then m + 1 else m + 2
  {
  }

  /** An offset is a prefix code for its upper part, counted from three, and a byte; one that was
      used before is a two instead. Lengths up to three have two bits, longer ones two zeros and a
      prefix code. */
  lemma FieldsInBits()
    ensures OffsetOps(300, 1) == [Bit(false), Bit(false), Bit(false), Bit(true), Raw(43)]
    ensures OffsetOps(300, 300) == [Bit(false), Bit(true)]
    ensures LengthOps(1) == [Bit(false), Bit(true)] && LengthOps(2) == [Bit(true), Bit(false)]
    ensures LengthOps(3) == [Bit(true), Bit(true)] && LengthOps(5) == [Bit(false), Bit(false), Bit(true), Bit(true)]
  {
    assert PrefixHead(1) == [];
    assert PrefixHead(2) == PrefixHead(1) + [Bit(false), Bit(false)];
    assert PrefixOps(4) == PrefixHead(2) + [Bit(false), Bit(true)];
  }

  // --------------------------------------------------------------------- a stream

  function Bits(bs: seq<bool>): (ops: seq<Op>)
    ensures |ops| == |bs| && forall i :: 0 <= i < |bs| ==> ops[i] == Bit(bs[i])
  {
    seq(|bs|, i requires 0 <= i < |bs| => Bit(bs[i]))
  }

  lemma {:induction false} BitsOfBits(bs: seq<bool>)
    ensures BitsOf(Bits(bs)) == bs && RawsOf(Bits(bs)) == []
  {
    if bs != [] {
      assert Bits(bs)[1..] == Bits(bs[1..]);
      BitsOfBits(bs[1..]);
    }
  }

  /** Bits that are still in the open word take no bytes. */
  lemma {:induction false} LayoutInside(s: Width, ops: seq<Op>, avail: nat)
    requires |BitsOf(ops)| <= avail
    ensures Layout(s, ops, avail) == RawsOf(ops)
    decreases ops
  {
    if ops != [] {
      LayoutInside(s, ops[1..], if ops[0].Bit? then avail - 1 else avail);
    }
  }

  /** One word and the raw bytes that come with it. */
  lemma LayoutWord(s: Width, ops: seq<Op>)
    requires ops != [] && ops[0].Bit? && |BitsOf(ops)| <= s
    ensures Layout(s, ops, 0) == WordBytes(s, BitsOf(ops)) + RawsOf(ops)
  {
    hide WordBytes, Layout;
    LayoutHead(s, ops, 0);
    LayoutInside(s, ops[1..], s - 1);
  }

  lemma {:induction false} PrefixOfPower(k: nat)
    ensures PrefixHead(Pow2(k)) == Bits(Zeros(2 * k))
  {
    if k > 0 {
      PrefixOfPower(k - 1);
      assert Pow2(k) / 2 == Pow2(k - 1) && Pow2(k) % 2 == 0;
      assert Bits(Zeros(2 * k)) == Bits(Zeros(2 * k - 2)) + [Bit(false), Bit(false)];
    }
  }

  lemma EofBits()
    ensures EofOps() == Bits(Zeros(45) + [true, false, false, true]) + [Raw(0xff)]
  {
    hide PrefixHead;
    PrefixOfPower(22);
    PowerOf22();
    PrefixHeadIs(0x80_0001);
    assert EofOps() == [Bit(false)] + (Bits(Zeros(44)) + [Bit(true), Bit(false)] + [Bit(false), Bit(true)] + [Raw(0xff)]);
  }

  lemma PowerOf16()
    ensures Pow2(16) == 65536
  {
    assert Pow2(8) == 256;
  }

  lemma PowerOf22()
    ensures Pow2(22) == 0x40_0000
  {
    PowerOf16();
  }

  lemma PrefixHeadIs(u: nat)
    requires u >= 2
    ensures PrefixHead(u) == PrefixHead(u / 2) + [Bit(u % 2 == 1), Bit(false)]
  {
  }

  /** ABABABBBB as two literals and two copies. */
  function Sample(): (ts: seq<Token>)
    ensures AllLegal(ts)
  {
    [Literal(65), Literal(66), Copy(4, 2), Copy(3, 1)]
  }

  lemma CopyOps()
    ensures TokenOps(Copy(4, 2), 1) == [Bit(false), Bit(true), Bit(true), Raw(1), Bit(true), Bit(true)]
    ensures TokenOps(Copy(3, 1), 2) == [Bit(false), Bit(true), Bit(true), Raw(0), Bit(true), Bit(false)]
  {
    hide PrefixHead;
    NoPrefix();
    assert PrefixOps(3) == [Bit(true), Bit(true)];
  }

  lemma NoPrefix()
    ensures PrefixHead(1) == []
  {
  }

  lemma SampleOps()
    ensures TokensOps(Sample(), 1) == TokenOps(Literal(65), 1) + (TokenOps(Literal(66), 1) + (TokenOps(Copy(4, 2), 1) + TokenOps(Copy(3, 1), 2)))
  {
    hide TokenOps, TokensOps;
    var ts := Sample();
    assert ts[1..][1..] == ts[2..] && ts[2..][1..] == ts[3..] && ts[3..][1..] == [];
    TokensHead(ts, 1);
    TokensHead(ts[1..], 1);
    TokensHead(ts[2..], 1);
    TokensHead(ts[3..], 2);
    assert TokenOps(ts[3], 2) + [] == TokenOps(ts[3], 2);
  }

  /** The definition of TokensOps, one step. */
  lemma TokensHead(ts: seq<Token>, last: nat)
    requires AllLegal(ts) && ts != []
    ensures TokensOps(ts, last) == TokenOps(ts[0], last) + TokensOps(ts[1..], NextLast(ts[0], last)) && TokensOps([], 1) == []
  {
    hide TokenOps;
    NoTokens();
  }

  lemma NoTokens()
    ensures TokensOps([], 1) == []
  {
  }

  /** The operations of the first word. */
  function FirstWord(): (ops: seq<Op>)
  {
    Bits([true]) + [Raw(65)] + (Bits([true]) + [Raw(66)]) + (Bits([false, true, true]) + [Raw(1)])
    + (Bits([true, true, false, true, true]) + [Raw(0)]) + Bits([true, false, false, false, false, false])
  }

  function LastWord(): (ops: seq<Op>)
  {
    Bits(Zeros(9) + [true, false, false, true]) + [Raw(0xff)]
  }

  lemma SampleStream()
    ensures StreamOps(Sample()) == FirstWord() + (Bits(Zeros(16)) + (Bits(Zeros(16)) + LastWord()))
  {
    hide TokensOps, EofOps, FirstPieces, FirstWord, LastWord, Bits;
    var a, z, y, x := FirstPieces(), Bits(Zeros(4)), Bits(Zeros(16)), LastWord();
    SamplePieces();
    FirstWordIs();
    EofSplit();
    assert a + (z + (y + (y + x))) == (a + z) + (y + (y + x));
  }

  lemma BitsJoin(a: seq<bool>, b: seq<bool>)
    ensures Bits(a + b) == Bits(a) + Bits(b)
  {
  }

  /** The end mark fills the first word, two more, and part of the last. */
  lemma EofSplit()
    ensures EofOps() == Bits(Zeros(4)) + (Bits(Zeros(16)) + (Bits(Zeros(16)) + LastWord()))
  {
    hide EofOps, Bits;
    EofBits();
    var last := Zeros(9) + [true, false, false, true];
    assert Zeros(45) + [true, false, false, true] == Zeros(4) + (Zeros(16) + (Zeros(16) + last));
    BitsJoin(Zeros(4), Zeros(16) + (Zeros(16) + last));
    BitsJoin(Zeros(16), Zeros(16) + last);
    BitsJoin(Zeros(16), last);
  }

  /** The operations of the tokens. */
  function FirstPieces(): (ops: seq<Op>)
  {
    Bits([true]) + [Raw(65)] + (Bits([true]) + [Raw(66)]) + (Bits([false, true, true]) + [Raw(1)])
    + (Bits([true, true, false, true, true]) + [Raw(0)]) + Bits([true, false])
  }

  lemma SamplePieces()
    ensures TokensOps(Sample(), 1) == FirstPieces()
  {
    hide TokensOps;
    SampleOps();
    CopyOps();
  }

  lemma FirstWordIs()
    ensures FirstWord() == FirstPieces() + Bits(Zeros(4))
  {
    hide Bits;
    BitsJoin([true, false], Zeros(4));
    assert [true, false] + Zeros(4) == [true, false, false, false, false, false];
  }

  /** Bits, and the raw byte behind them. */
  lemma Piece(bs: seq<bool>, v: byte)
    ensures BitsOf(Bits(bs) + [Raw(v)]) == bs && RawsOf(Bits(bs) + [Raw(v)]) == [v]
  {
    OpsAppend(Bits(bs), [Raw(v)]);
    BitsOfBits(bs);
    OneOp(Raw(v));
  }

  lemma FirstWordParts()
    ensures BitsOf(FirstWord()) == [true, true, false, true, true, true, true, false, true, true, true, false, false, false, false, false]
    ensures RawsOf(FirstWord()) == [65, 66, 1, 0]
  {
    hide BitsOf, RawsOf, Bits;
    var a, b, c, d := Bits([true]) + [Raw(65)], Bits([true]) + [Raw(66)], Bits([false, true, true]) + [Raw(1)],
                      Bits([true, true, false, true, true]) + [Raw(0)];
    var e := Bits([true, false, false, false, false, false]);
    Piece([true], 65);
    Piece([true], 66);
    Piece([false, true, true], 1);
    Piece([true, true, false, true, true], 0);
    BitsOfBits([true, false, false, false, false, false]);
    OpsAppend(a, b);
    OpsAppend(a + b, c);
    OpsAppend(a + b + c, d);
    OpsAppend(a + b + c + d, e);
  }

  lemma WordIs(v: nat, bits: seq<bool>)
    requires v < 65536 && Pad(bits, 16) == ToBits(v, 16)
    ensures WordBytes(16, bits) == [v % 256, v / 256]
  {
    hide ToBits, Value, Pad, LeBytes, Pow2;
    PowerOf16();
    ValueOfToBits(v, 16);
    TwoBytes(v);
  }

  lemma TwoBytes(v: nat)
    requires v < 65536
    ensures LeBytes(v, 2) == [v % 256, v / 256]
  {
    assert LeBytes(v / 256, 1) == [v / 256 % 256] + LeBytes(v / 256 / 256, 0);
  }

  lemma LowDigits(v: nat, n: nat)
    ensures ToBits(v, n + 4) == ToBits(v / 16, n) + [v / 8 % 2 == 1, v / 4 % 2 == 1, v / 2 % 2 == 1, v % 2 == 1]
  {
    assert ToBits(v, n + 4) == ToBits(v / 2, n + 3) + [v % 2 == 1];
    assert ToBits(v / 2, n + 3) == ToBits(v / 4, n + 2) + [v / 2 % 2 == 1];
    assert ToBits(v / 4, n + 2) == ToBits(v / 8, n + 1) + [v / 4 % 2 == 1];
    assert ToBits(v / 8, n + 1) == ToBits(v / 16, n) + [v / 8 % 2 == 1];
  }

  lemma DigitsOfFirst()
    ensures ToBits(0xdee0, 16) == [true, true, false, true, true, true, true, false, true, true, true, false, false, false, false, false]
  {
    hide ToBits;
    LowDigits(0xdee0, 12);
    LowDigits(0xdee, 8);
    LowDigits(0xde, 4);
    LowDigits(0xd, 0);
    EmptyDigits(0);
  }

  lemma {:induction false} ZeroDigits(n: nat)
    ensures ToBits(0, n) == Zeros(n)
  {
    if n > 0 {
      ZeroDigits(n - 1);
      assert Zeros(n) == Zeros(n - 1) + [false];
    }
  }

  lemma DigitsOfLast()
    ensures ToBits(0x48, 16) == Zeros(9) + [true, false, false, true] + Zeros(3)
  {
    hide ToBits;
    LowDigits(0x48, 12);
    LowDigits(4, 8);
    ZeroDigits(8);
    assert Zeros(8) + [false, true, false, false] + [true, false, false, false] == Zeros(9) + [true, false, false, true] + Zeros(3);
  }

  lemma FirstWordLayout()
    ensures Layout(16, FirstWord(), 0) == [0xe0, 0xde, 65, 66, 1, 0] && |BitsOf(FirstWord())| == 16
  {
    hide Layout, WordBytes, BitsOf, RawsOf, FirstWord, ToBits, Pad;
    FirstWordParts();
    FirstBits();
    LayoutWord(16, FirstWord());
    DigitsOfFirst();
    PadAll(BitsOf(FirstWord()));
    WordIs(0xdee0, BitsOf(FirstWord()));
  }

  lemma PadAll(bits: seq<bool>)
    ensures Pad(bits, |bits|) == bits
  {
  }

  lemma ZeroWordLayout()
    ensures Layout(16, Bits(Zeros(16)), 0) == [0, 0] && |BitsOf(Bits(Zeros(16)))| == 16
  {
    hide Layout, WordBytes, BitsOf, RawsOf, Bits, ToBits, Pad;
    BitsOfBits(Zeros(16));
    FirstBits();
    LayoutWord(16, Bits(Zeros(16)));
    ZeroDigits(16);
    PadAll(Zeros(16));
    WordIs(0, Zeros(16));
  }

  lemma LastWordLayout()
    ensures Layout(16, LastWord(), 0) == [0x48, 0, 0xff]
  {
    hide Layout, WordBytes, BitsOf, RawsOf, LastWord, ToBits;
    LastWordParts();
    FirstBits();
    LayoutWord(16, LastWord());
    DigitsOfLast();
    assert Pad(BitsOf(LastWord()), 16) == ToBits(0x48, 16);
    WordIs(0x48, BitsOf(LastWord()));
  }

  lemma OneWholeWord()
    ensures WholeWords(16, 16)
  {
  }

  /** The stream of the sample in words of 16 bits: the first bit is on top of its word, words
      are little-endian, and a raw byte stands where the reader is when it comes to it. */
  lemma SampleLayout()
    ensures Layout(16, StreamOps(Sample()), 0) == [0xe0, 0xde, 65, 66, 1, 0, 0, 0, 0, 0, 0x48, 0, 0xff]
  {
    hide Layout, BitsOf, StreamOps, FirstWord, LastWord, Bits, WholeWords;
    var a, b, c := FirstWord(), Bits(Zeros(16)), LastWord();
    SampleStream();
    FirstWordLayout();
    ZeroWordLayout();
    LastWordLayout();
    OneWholeWord();
    LayoutAppend(16, a, b + (b + c), 0);
    LayoutAppend(16, b, b + c, 0);
    LayoutAppend(16, b, c, 0);
  }

  lemma LastWordParts()
    ensures BitsOf(LastWord()) == Zeros(9) + [true, false, false, true] && RawsOf(LastWord()) == [0xff]
  {
    Piece(Zeros(9) + [true, false, false, true], 0xff);
  }

  lemma FirstBits()
    ensures |FirstWord()| > 0 && FirstWord()[0].Bit? && |LastWord()| > 0 && LastWord()[0].Bit?
    ensures |Bits(Zeros(16))| > 0 && Bits(Zeros(16))[0].Bit?
  {
  }

  /** That stream is read as ABABABBBB. */
  lemma SampleDecodes()
    ensures var r := DecodeFrom(16, [0xe0, 0xde, 65, 66, 1, 0, 0, 0, 0, 0, 0x48, 0, 0xff], Start(), 1, [], 9);
            r.Done? && r.out == [65, 66, 65, 66, 65, 66, 66, 66, 66] && r.rest.pos == 13
  {
    hide Layout, StreamOps, DecodeFrom;
    SampleLayout();
    SampleText();
    StreamReadsBack(16, Sample(), 9);
  }

  lemma SampleText()
    ensures Expandable(Sample(), []) && Expand(Sample(), []) == [65, 66, 65, 66, 65, 66, 66, 66, 66]
  {
    hide CopyBytes;
    var ts := Sample();
    assert ts[1..][1..] == ts[2..] && ts[2..][1..] == ts[3..] && ts[3..][1..] == [];
    CopyFour();
    CopyThree();
    assert [] + [65] == [65] && [65] + [66] == [65, 66];
    assert Expandable([], [65, 66, 65, 66, 65, 66, 66, 66, 66]);
    assert Expandable(ts[3..], [65, 66, 65, 66, 65, 66]);
    assert Expandable(ts[2..], [65, 66]);
    assert Apply(ts[1], [65]) == [65, 66];
    assert Expandable(ts[1..], [65]);
    assert Apply(ts[0], []) == [65];
  }

  lemma CopyFour()
    ensures CopyBytes([65, 66], 2, 4) == [65, 66, 65, 66, 65, 66]
  {
    hide CopyBytes;
    CopyStep([65, 66], 2, 3);
    CopyStep([65, 66, 65], 2, 2);
    CopyStep([65, 66, 65, 66], 2, 1);
    CopyStep([65, 66, 65, 66, 65], 2, 0);
    CopyStep([65, 66, 65, 66, 65, 66], 2, 0);
    assert [65, 66] + [65] == [65, 66, 65] && [65, 66, 65] + [66] == [65, 66, 65, 66];
    assert [65, 66, 65, 66] + [65] == [65, 66, 65, 66, 65] && [65, 66, 65, 66, 65] + [66] == [65, 66, 65, 66, 65, 66];
  }

  lemma CopyThree()
    ensures CopyBytes([65, 66, 65, 66, 65, 66], 1, 3) == [65, 66, 65, 66, 65, 66, 66, 66, 66]
  {
    hide CopyBytes;
    CopyStep([65, 66, 65, 66, 65, 66], 1, 2);
    CopyStep([65, 66, 65, 66, 65, 66, 66], 1, 1);
    CopyStep([65, 66, 65, 66, 65, 66, 66, 66], 1, 0);
    CopyStep([65, 66, 65, 66, 65, 66, 66, 66, 66], 1, 0);
    assert [65, 66, 65, 66, 65, 66] + [66] == [65, 66, 65, 66, 65, 66, 66];
    assert [65, 66, 65, 66, 65, 66, 66] + [66] == [65, 66, 65, 66, 65, 66, 66, 66];
    assert [65, 66, 65, 66, 65, 66, 66, 66] + [66] == [65, 66, 65, 66, 65, 66, 66, 66, 66];
  }

  /** The file has the size of the text in front, lowest byte first. */
  lemma SampleFile()
    ensures Nrv2bCompress.FileText(16, [9, 0, 0, 0, 0xe0, 0xde, 65, 66, 1, 0, 0, 0, 0, 0, 0x48, 0, 0xff])
            == Some([65, 66, 65, 66, 65, 66, 66, 66, 66])
  {
    hide DecodeFrom, LeValue;
    var stream: seq<byte> := [0xe0, 0xde, 65, 66, 1, 0, 0, 0, 0, 0, 0x48, 0, 0xff];
    var file := [9, 0, 0, 0] + stream;
    SampleDecodes();
    SizeOfNine();
    assert file[..4] == [9, 0, 0, 0] && file[4..] == stream;
    assert file == [9, 0, 0, 0, 0xe0, 0xde, 65, 66, 1, 0, 0, 0, 0, 0, 0x48, 0, 0xff];
  }

  lemma SizeOfNine()
    ensures LeValue([9, 0, 0, 0]) == 9
  {
    assert [9, 0, 0, 0][1..] == [0, 0, 0] && [0, 0, 0][1..] == [0, 0] && [0, 0][1..] == [0] && [0][1..] == [];
    assert LeValue([0]) == 0 && LeValue([0, 0]) == 0 && LeValue([0, 0, 0]) == 0;
  }
}
