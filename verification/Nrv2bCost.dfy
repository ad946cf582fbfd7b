/** What tokens cost, and why a stream never outgrows its text by more than an eighth. */
module Nrv2bCost {
  import opened Bytes
  import opened Nrv2bFormat
  import opened Nrv2bTokens

  /** Size of the ring buffer, hence the farthest offset the compressor uses. */
  const N: nat := 65536

  function Log2(v: nat): (n: nat)
  {
    if v < 2 then 0 else 1 + Log2(v / 2)
  }

  function BitLength(v: nat): (n: nat)
  {
    if v == 0 then 0 else 1 + BitLength(v / 2)
  }

  lemma {:induction false} Log2Monotone(a: nat, b: nat)
    requires a <= b
    ensures Log2(a) <= Log2(b)
  {
    if a >= 2 {
      Log2Monotone(a / 2, b / 2);
    }
  }

  lemma {:induction false} PrefixHeadWeight(u: nat)
    requires u >= 1
    ensures Weight(PrefixHead(u)) == 2 * Log2(u)
  {
    if u >= 2 {
      PrefixHeadWeight(u / 2);
      WeightAppend(PrefixHead(u / 2), [Bit(u % 2 == 1), Bit(false)]);
      WeightOfTwoBits(u % 2 == 1, false);
    }
  }

  lemma PrefixWeight(v: nat)
    requires v >= 2
    ensures Weight(PrefixOps(v)) == 2 * Log2(v)
  {
    PrefixHeadWeight(v / 2);
    WeightAppend(PrefixHead(v / 2), [Bit(v % 2 == 1), Bit(true)]);
    WeightOfTwoBits(v % 2 == 1, true);
  }

  lemma OffsetWeight(off: nat, last: nat)
    requires off >= 1
    ensures Weight(OffsetOps(off, last)) == OffsetCost(off, last)
  {
    hide Weight, PrefixOps;
    if off == last {
      WeightOfTwoBits(false, true);
    } else {
      PrefixWeight(3 + (off - 1) / 256);
      WeightAppend(PrefixOps(3 + (off - 1) / 256), [Raw((off - 1) % 256)]);
      WeightOfRaw((off - 1) % 256);
    }
  }

  lemma LengthWeight(m: nat)
    ensures Weight(LengthOps(m)) == LengthCost(m)
  {
    hide Weight, PrefixOps;
    if m >= 4 {
      WeightOfTwoBits(false, false);
      PrefixWeight(m - 2);
      WeightAppend([Bit(false), Bit(false)], PrefixOps(m - 2));
    } else {
      WeightOfTwoBits(m > 1, m % 2 == 1);
    }
  }

  function OffsetCost(off: nat, last: nat): (w: nat)
    requires off >= 1
  {
    if off == last then 2 else 8 + 2 * Log2(3 + (off - 1) / 256)
  }

  function LengthCost(m: int): (w: nat)
  {
    if m >= 4 then 2 + 2 * Log2(m - 2) else 2
  }

  /** The exact cost of a match in bits. */
  function CopyCost(len: nat, off: nat, last: nat): (w: int)
    requires off >= 1
  {
    1 + OffsetCost(off, last) + LengthCost(CodedLength(len, off))
  }

  lemma CopyWeight(t: Token, last: nat)
    requires Legal(t) && t.Copy?
    ensures Weight(TokenOps(t, last)) == CopyCost(t.len, t.off, last)
  {
    hide Weight, OffsetOps, LengthOps;
    var m := CodedLength(t.len, t.off);
    OffsetWeight(t.off, last);
    LengthWeight(m);
    WeightAppend(OffsetOps(t.off, last), LengthOps(m));
    WeightAppend([Bit(false)], OffsetOps(t.off, last) + LengthOps(m));
    WeightOfBit(false);
  }

  // ------------------------------------------------------- the nine-eighths law

  lemma {:induction false} Log2Small(v: nat)
    requires v >= 1
    ensures Log2(v) < v
  {
    if v >= 2 {
      Log2Small(v / 2);
    }
  }

  lemma OffsetLog(off: nat)
    requires 1 <= off <= N
    ensures Log2(3 + (off - 1) / 256) <= 8
    ensures off <= M2_MAX_OFFSET ==> Log2(3 + (off - 1) / 256) <= 3
  {
    Log2Monotone(3 + (off - 1) / 256, 258);
    assert Log2(258) == 8;
    if off <= M2_MAX_OFFSET {
      Log2Monotone(3 + (off - 1) / 256, 15);
      assert Log2(15) == 3;
    }
  }

  /** No token costs more than nine bits for each byte it stands for. */
  lemma TokenBound(t: Token, last: nat)
    requires Legal(t) && (t.Copy? ==> t.off <= N)
    ensures Weight(TokenOps(t, last)) <= 9 * Extent(t)
  {
    match t
    case Literal(v) =>
      hide Weight;
      WeightOfBit(true);
      WeightOfRaw(v);
      WeightAppend([Bit(true)], [Raw(v)]);
      assert [Bit(true)] + [Raw(v)] == [Bit(true), Raw(v)];
    case Copy(len, off) =>
      hide Weight, TokenOps;
      CopyWeight(t, last);
      OffsetLog(off);
      var m := CodedLength(len, off);
      if m >= 4 {
        Log2Small(m - 2);
      }
  }

  function Extents(ts: seq<Token>): (n: nat)
  {
    if ts == [] then 0 else Extent(ts[0]) + Extents(ts[1..])
  }

  predicate WithinWindow(ts: seq<Token>)
  {
    forall i :: 0 <= i < |ts| && ts[i].Copy? ==> ts[i].off <= N
  }

  lemma {:induction false} TokensBound(ts: seq<Token>, last: nat)
    requires AllLegal(ts) && WithinWindow(ts)
    ensures Weight(TokensOps(ts, last)) <= 9 * Extents(ts)
  {
    if ts != [] {
      hide Weight, TokenOps, Extent;
      TokenBound(ts[0], last);
      TokensBound(ts[1..], NextLast(ts[0], last));
      WeightAppend(TokenOps(ts[0], last), TokensOps(ts[1..], NextLast(ts[0], last)));
    }
  }

  lemma {:induction false} ExpandLength(ts: seq<Token>, out: seq<byte>)
    requires Expandable(ts, out)
    ensures |Expand(ts, out)| == |out| + Extents(ts)
  {
    if ts != [] {
      ExpandLength(ts[1..], Apply(ts[0], out));
    }
  }

  lemma LayoutBound(s: Width, ops: seq<Op>)
    ensures Weight(ops) <= 8 * |Layout(s, ops, 0)| < Weight(ops) + s
  {
    LayoutSize(s, ops, 0);
    WordSpaceBound(s, |BitsOf(ops)|);
  }

  lemma {:induction false} ExpandPrefix(ts: seq<Token>, out: seq<byte>, k: nat)
    requires Expandable(ts, out) && k <= |ts|
    ensures Expandable(ts[..k], out)
    decreases k
  {
    if k > 0 {
      ExpandPrefix(ts[1..], Apply(ts[0], out), k - 1);
      assert ts[..k][1..] == ts[1..][..k - 1];
    }
  }

  /** Decoding in place is safe: once the decoder has read k tokens of a stream, the bytes it
      has taken exceed nine eighths of the text produced by less than a word. */
  lemma InPlaceBound(s: Width, ts: seq<Token>, k: nat)
    requires AllLegal(ts) && WithinWindow(ts) && Expandable(ts, []) && k <= |ts|
    ensures Expandable(ts[..k], [])
    ensures var r := ReadItems(s, Layout(s, StreamOps(ts), 0), Start(), 1, k);
            r.Got? && r.value == ts[..k] && 8 * r.rest.pos < 9 * |Expand(ts[..k], [])| + s
  {
    hide Layout, Weight, ReadItems, TokensOps, EofOps, Expand, Expandable, StandsAt;
    StandsAtStart(s, StreamOps(ts));
    var rd := ItemsReadBack(s, Layout(s, StreamOps(ts), 0), Start(), ts, 1, EofOps(), k);
    ExpandPrefix(ts, [], k);
    ExpandLength(ts[..k], []);
    TokensBound(ts[..k], 1);
  }

  lemma Log2OfByteShift(v: nat, r: byte)
    requires v >= 1
    ensures Log2(256 * v + r) == 8 + Log2(v)
  {
    hide Log2;
    Log2OfTwoBits(64 * v + r / 4, r % 4);
    Log2OfTwoBits(16 * v + r / 16, r / 4 % 4);
    Log2OfTwoBits(4 * v + r / 64, r / 16 % 4);
    Log2OfTwoBits(v, r / 64);
  }

  lemma Log2OfTwoBits(v: nat, r: nat)
    requires v >= 1 && r < 4
    ensures Log2(4 * v + r) == 2 + Log2(v)
  {
    assert (4 * v + r) / 2 / 2 == v;
  }

  lemma EofWeight()
    ensures Weight(EofOps()) == 57
  {
    hide Weight, PrefixOps;
    PrefixWeight(EOF_PREFIX + 2);
    Log2OfByteShift(0x10000, 2);
    Log2OfByteShift(0x100, 0);
    Log2OfByteShift(1, 0);
    WeightAppend(PrefixOps(EOF_PREFIX + 2), [Raw(0xff)]);
    WeightOfRaw(0xff);
    WeightAppend([Bit(false)], PrefixOps(EOF_PREFIX + 2) + [Raw(0xff)]);
    WeightOfBit(false);
  }

  /** The output buffer of n + n/8 + 256 bytes is always large enough. */
  lemma StreamBound(s: Width, ts: seq<Token>)
    requires AllLegal(ts) && WithinWindow(ts) && Expandable(ts, [])
    ensures var n := |Expand(ts, [])|; |Layout(s, StreamOps(ts), 0)| <= n + n / 8 + 256
  {
    hide Layout, Weight, EofOps;
    TokensBound(ts, 1);
    ExpandLength(ts, []);
    EofWeight();
    WeightAppend(TokensOps(ts, 1), EofOps());
    LayoutBound(s, StreamOps(ts));
  }

  // ------------------------------------------------------- the cost estimate

  lemma {:induction false} OffsetEstimate(x: nat)
    ensures BitLength(x) - 1 <= Log2(x + 3) <= BitLength(x) + 1
  {
    if x > 0 {
      OffsetEstimate(x / 2);
      Log2Monotone((x + 3) / 2, x / 2 + 3);
      BitLengthIsLog2(x);
      Log2Monotone(x, x + 3);
    }
  }

  lemma {:induction false} BitLengthIsLog2(x: nat)
    requires x > 0
    ensures BitLength(x) == 1 + Log2(x)
  {
    if x >= 2 {
      BitLengthIsLog2(x / 2);
    }
  }

  lemma {:induction false} Log2OfSuccessor(z: nat)
    ensures Log2(z + 1) <= BitLength(z)
  {
    if z > 0 {
      Log2OfSuccessor(z / 2);
      Log2Monotone((z + 1) / 2, z / 2 + 1);
    }
  }

  lemma LengthEstimate(y: nat)
    ensures var e := if y == 0 then 1 else BitLength(y); e - 1 <= Log2(y + 2) <= e
  {
    Log2OfSuccessor(y / 2);
    if y > 0 {
      BitLengthIsLog2(y);
      Log2Monotone(y, y + 2);
    }
  }

  /** The compressor's estimate of what a match costs. */
  function Estimate(len: nat, off: nat, last: nat): (b: int)
    requires off >= 1
  {
    var m := len - 2 - (if off > M2_MAX_OFFSET then 1 else 0);
    1 + (if off == last then 2 else 10 + 2 * BitLength((off - 1) / 256)) + 2
    + (if m < 3 then 0 else if m == 3 then 2 else 2 * BitLength(m - 3))
  }

  /** The estimate the lazy matcher compares: never below the true cost of the
      match, and at most six bits above it. Matches the format cannot spell get -1. */
  method LenOfCodedMatch(mLen: u32, mOff: u32, lastOff: u32) returns (b: int)
    requires mOff >= 1 || mLen < 2
    ensures (mLen < 2 || (mLen == 2 && mOff > M2_MAX_OFFSET)) ==> b == -1
    ensures !(mLen < 2 || (mLen == 2 && mOff > M2_MAX_OFFSET)) ==> b == Estimate(mLen, mOff, lastOff)
    ensures !(mLen < 2 || (mLen == 2 && mOff > M2_MAX_OFFSET)) ==>
              CopyCost(mLen, mOff, lastOff) <= b <= CopyCost(mLen, mOff, lastOff) + 6
  {
    hide BitLength, CopyCost;
    if mLen < 2 || (mLen == 2 && mOff > M2_MAX_OFFSET) {
      return -1;
    }
    EstimateIsClose(mLen, mOff, lastOff);
    var m: nat := mLen - 2 - (if mOff > M2_MAX_OFFSET then 1 else 0);
    if mOff == lastOff {
      b := 1 + 2;
    } else {
      b := 1 + 10;
      var bits := TwiceBits((mOff - 1) / 256);
      b := b + bits;
    }
    b := b + 2;
    if m < 3 {
      return;
    }
    HalvingBits();
    b := b + 2;
    var more := TwiceBits((m - 3) / 2);
    b := b + more;
  }

  /** The loops that count two bits for each halving. */
  method TwiceBits(v: nat) returns (b: nat)
    ensures b == 2 * BitLength(v)
  {
    var x := v;
    b := 0;
    while x > 0
      invariant b + 2 * BitLength(x) == 2 * BitLength(v)
    {
      b := b + 2;
      x := x / 2;
    }
  }

  lemma HalvingBits()
    ensures BitLength(0) == 0 && forall x: nat :: x > 0 ==> BitLength(x) == 1 + BitLength(x / 2)
  {
  }

  /** Estimates are off by six bits at most, and never too low. */
  lemma EstimateIsClose(len: nat, off: nat, last: nat)
    requires off >= 1 && len >= 2 && (off > M2_MAX_OFFSET ==> len >= 3)
    ensures CopyCost(len, off, last) <= Estimate(len, off, last) <= CopyCost(len, off, last) + 6
  {
    hide BitLength, Log2;
    var m := len - 2 - (if off > M2_MAX_OFFSET then 1 else 0);
    OffsetEstimate((off - 1) / 256);
    if m >= 3 {
      LengthEstimate(m - 3);
    }
  }
}
