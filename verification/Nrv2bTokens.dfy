/** NRV2B tokens: how literals and matches are spelled as bits and raw bytes,
    what they stand for, and how a stream is parsed back into them. */
module Nrv2bTokens {
  import opened Bytes
  import opened Nrv2bFormat
  import opened RingBuffer

  const M2_MAX_OFFSET := 0xd00

  /** One more digit, in 32 bits. */
  function Append(acc: u32, digit: bool): (r: u32)
  {
    var x := 2 * acc + (if digit then 1 else 0);
    if x < U32 then x else x - U32
  }

  /** A literal byte, or `len` bytes repeated from `off` positions back. */
  datatype Token = Literal(v: byte) | Copy(len: nat, off: nat)

  /** What the format can spell: the shortest match is longer for far offsets. */
  predicate Legal(t: Token)
  {
    t.Copy? ==> && 1 <= t.off < U32
                && 2 <= t.len < U32 / 2
                && (t.off > M2_MAX_OFFSET ==> 3 <= t.len)
  }

  predicate AllLegal(ts: seq<Token>)
  {
    forall i :: 0 <= i < |ts| ==> Legal(ts[i])
  }

  // ------------------------------------------------------------------ meaning

  predicate Applies(t: Token, out: seq<byte>)
  {
    t.Copy? ==> 1 <= t.off <= |out|
  }

  function Apply(t: Token, out: seq<byte>): (r: seq<byte>)
    requires Applies(t, out)
  {
    match t
    case Literal(v) => out + [v]
    case Copy(len, off) => CopyBytes(out, off, len)
  }

  predicate Expandable(ts: seq<Token>, out: seq<byte>)
  {
    ts == [] || (Applies(ts[0], out) && Expandable(ts[1..], Apply(ts[0], out)))
  }

  function Expand(ts: seq<Token>, out: seq<byte>): (r: seq<byte>)
    requires Expandable(ts, out)
    ensures |out| <= |r|
  {
    if ts == [] then out else Expand(ts[1..], Apply(ts[0], out))
  }

  // ----------------------------------------------------------------- spelling

  /** The binary digits of u below its leading one, each followed by "more". */
  function PrefixHead(u: nat): (ops: seq<Op>)
  {
    if u < 2 then [] else PrefixHead(u / 2) + [Bit(u % 2 == 1), Bit(false)]
  }

  /** The digits of v below its leading one; the last is followed by "stop". */
  function PrefixOps(v: nat): (ops: seq<Op>)
    requires v >= 2
  {
    PrefixHead(v / 2) + [Bit(v % 2 == 1), Bit(true)]
  }

  function OffsetOps(off: nat, last: nat): (ops: seq<Op>)
    requires off >= 1
  {
    if off == last then [Bit(false), Bit(true)]
    else PrefixOps(3 + (off - 1) / 256) + [Raw((off - 1) % 256)]
  }

  function LengthOps(m: nat): (ops: seq<Op>)
  {
    if m >= 4 then [Bit(false), Bit(false)] + PrefixOps(m - 2)
    else [Bit(m > 1), Bit(m % 2 == 1)]
  }

  /** The length field: the coded length leaves out what every match has. */
  function CodedLength(len: nat, off: nat): int
  {
    len - 1 - (if off > M2_MAX_OFFSET then 1 else 0)
  }

  function TokenOps(t: Token, last: nat): (ops: seq<Op>)
    requires Legal(t)
  {
    match t
    case Literal(v) => [Bit(true), Raw(v)]
    case Copy(len, off) => [Bit(false)] + (OffsetOps(off, last) + LengthOps(CodedLength(len, off)))
  }

  /** The offset the next match may repeat. */
  function NextLast(t: Token, last: nat): (r: nat)
  {
    if t.Copy? then t.off else last
  }

  function TokensOps(ts: seq<Token>, last: nat): (ops: seq<Op>)
    requires AllLegal(ts)
  {
    if ts == [] then [] else TokenOps(ts[0], last) + TokensOps(ts[1..], NextLast(ts[0], last))
  }

  const EOF_PREFIX: nat := 0x1000000

  function EofOps(): (ops: seq<Op>)
  {
    [Bit(false)] + (PrefixOps(EOF_PREFIX + 2) + [Raw(0xff)])
  }

  // ------------------------------------------------------------------ parsing

  /** Reads digits while "more" follows; the number is kept in 32 bits. */
  function ReadPrefix(s: Width, src: seq<byte>, rd: Reader, acc: u32): (r: Read<u32>)
    ensures r.Got? ==> Fuel(src, r.rest) < Fuel(src, rd) && r.rest.pos <= |src|
    decreases Fuel(src, rd)
  {
    var digit := NextBit(s, src, rd);
    if digit.Overrun? then Overrun else
    var more := NextBit(s, src, digit.rest);
    if more.Overrun? then Overrun else
    if more.value then Got(Append(acc, digit.value), more.rest)
    else ReadPrefix(s, src, more.rest, Append(acc, digit.value))
  }

  datatype Item = Tok(t: Token) | End

  function ReadOffset(s: Width, src: seq<byte>, rd: Reader, last: u32): (r: Read<u32>)
    ensures r.Got? ==> Fuel(src, r.rest) < Fuel(src, rd) && r.rest.pos <= |src|
  {
    var prefix := ReadPrefix(s, src, rd, 1);
    if prefix.Overrun? then Overrun
    else if prefix.value == 2 then Got(last, prefix.rest)
    else
      var low := NextRaw(src, prefix.rest);
      if low.Overrun? then Overrun
      else Got((((prefix.value - 3) * 256 + low.value) % U32 + 1) % U32, low.rest)
  }

  function ReadLength(s: Width, src: seq<byte>, rd: Reader): (r: Read<u32>)
    ensures r.Got? ==> Fuel(src, r.rest) < Fuel(src, rd) && r.rest.pos <= |src|
  {
    var hi := NextBit(s, src, rd);
    if hi.Overrun? then Overrun else
    var lo := NextBit(s, src, hi.rest);
    if lo.Overrun? then Overrun
    else if hi.value || lo.value then
      Got((if hi.value then 2 else 0) + (if lo.value then 1 else 0), lo.rest)
    else
      var prefix := ReadPrefix(s, src, lo.rest, 1);
      if prefix.Overrun? then Overrun else Got((prefix.value + 2) % U32, prefix.rest)
  }

  /** The copy loop runs once, and then until the decremented length reaches zero. */
  function CopyCount(m: u32, off: u32): (n: nat)
  {
    var m' := (m + (if off > M2_MAX_OFFSET then 1 else 0)) % U32;
    if m' == 0 then 1 + U32 else 1 + m'
  }

  /** One token. An offset that wraps to zero marks the end of the stream. */
  function ReadItem(s: Width, src: seq<byte>, rd: Reader, last: u32): (r: Read<Item>)
    requires last >= 1
    ensures r.Got? ==> Fuel(src, r.rest) < Fuel(src, rd) && r.rest.pos <= |src|
    ensures r.Got? && r.value.Tok? && r.value.t.Copy? ==> 1 <= r.value.t.off < U32
  {
    var flag := NextBit(s, src, rd);
    if flag.Overrun? then Overrun
    else if flag.value then
      var lit := NextRaw(src, flag.rest);
      if lit.Overrun? then Overrun else Got(Tok(Literal(lit.value)), lit.rest)
    else
      var off := ReadOffset(s, src, flag.rest, last);
      if off.Overrun? then Overrun
      else if off.value == 0 then Got(End, off.rest)
      else
        var len := ReadLength(s, src, off.rest);
        if len.Overrun? then Overrun
        else Got(Tok(Copy(CopyCount(len.value, off.value), off.value)), len.rest)
  }

  /** Broken: the input, the output buffer or the text copied from would be overrun. */
  datatype Decoded = Broken | Done(out: seq<byte>, rest: Reader)

  function DecodeFrom(s: Width, src: seq<byte>, rd: Reader, last: u32, out: seq<byte>, limit: nat): (r: Decoded)
    requires last >= 1
    decreases Fuel(src, rd)
  {
    var item := ReadItem(s, src, rd, last);
    if item.Overrun? then Broken
    else match item.value
      case End => Done(out, item.rest)
      case Tok(t) =>
        if Applies(t, out) && |out| + Extent(t) <= limit
        then DecodeFrom(s, src, item.rest, NextLast(t, last), Apply(t, out), limit)
        else Broken
  }

  /** How many bytes of text a token stands for. */
  function Extent(t: Token): (n: nat)
  {
    match t
    case Literal(_) => 1
    case Copy(len, _) => len
  }

  function Start(): Reader
  {
    Reader(0, [])
  }

  // --------------------------------------------------------------- round trip

  lemma ReadTwoBits(s: Width, src: seq<byte>, rd: Reader, a: bool, b: bool, rest: seq<Op>)
      returns (rd': Reader)
    requires StandsAt(s, src, rd, [Bit(a), Bit(b)] + rest)
    ensures NextBit(s, src, rd).Got? && NextBit(s, src, rd).value == a
    ensures NextBit(s, src, NextBit(s, src, rd).rest) == Got(b, rd')
    ensures StandsAt(s, src, rd', rest) && Used(rd') == Used(rd) + 2
  {
    hide StandsAt;
    assert [Bit(a), Bit(b)] + rest == [Bit(a)] + ([Bit(b)] + rest);
    ReadBit(s, src, rd, a, [Bit(b)] + rest);
    ReadBit(s, src, NextBit(s, src, rd).rest, b, rest);
    rd' := NextBit(s, src, NextBit(s, src, rd).rest).rest;
  }

  lemma ReadDigit(s: Width, src: seq<byte>, rd: Reader, acc: u32, digit: bool, stop: bool, rest: seq<Op>)
      returns (rd': Reader)
    requires StandsAt(s, src, rd, [Bit(digit), Bit(stop)] + rest)
    ensures StandsAt(s, src, rd', rest) && Used(rd') == Used(rd) + 2
    ensures ReadPrefix(s, src, rd, acc)
         == if stop then Got(Append(acc, digit), rd') else ReadPrefix(s, src, rd', Append(acc, digit))
  {
    hide StandsAt;
    rd' := ReadTwoBits(s, src, rd, digit, stop, rest);
  }

  lemma {:induction false} PrefixHeadReadsBack(s: Width, src: seq<byte>, rd: Reader, u: u32, rest: seq<Op>)
      returns (rd': Reader)
    requires 1 <= u
    requires StandsAt(s, src, rd, PrefixHead(u) + rest)
    ensures StandsAt(s, src, rd', rest) && Used(rd') == Used(rd) + Weight(PrefixHead(u))
    ensures ReadPrefix(s, src, rd, 1) == ReadPrefix(s, src, rd', u)
  {
    hide StandsAt, NextBit, ReadPrefix, Weight;
    if u < 2 {
      assert PrefixHead(u) + rest == rest;
      NoWeight();
      rd' := rd;
    } else {
      var digit := [Bit(u % 2 == 1), Bit(false)];
      WeightAppend(PrefixHead(u / 2), digit);
      WeightOfTwoBits(u % 2 == 1, false);
      Reassociate(PrefixHead(u / 2), digit, rest);
      var rd1 := PrefixHeadReadsBack(s, src, rd, u / 2, digit + rest);
      rd' := ReadDigit(s, src, rd1, u / 2, u % 2 == 1, false, rest);
    }
  }

  lemma Reassociate(a: seq<Op>, b: seq<Op>, c: seq<Op>)
    ensures a + b + c == a + (b + c)
  {
  }

  lemma PrefixReadsBack(s: Width, src: seq<byte>, rd: Reader, v: u32, rest: seq<Op>)
      returns (rd': Reader)
    requires 2 <= v
    requires StandsAt(s, src, rd, PrefixOps(v) + rest)
    ensures ReadPrefix(s, src, rd, 1) == Got(v, rd')
    ensures StandsAt(s, src, rd', rest) && Used(rd') == Used(rd) + Weight(PrefixOps(v))
  {
    hide StandsAt, NextBit, ReadPrefix, Weight;
    var digit := [Bit(v % 2 == 1), Bit(true)];
    WeightAppend(PrefixHead(v / 2), digit);
    WeightOfTwoBits(v % 2 == 1, true);
    Reassociate(PrefixHead(v / 2), digit, rest);
    var rd1 := PrefixHeadReadsBack(s, src, rd, v / 2, digit + rest);
    rd' := ReadDigit(s, src, rd1, v / 2, v % 2 == 1, true, rest);
  }

  /** The "repeat the last offset" mark is the shortest prefix, which spells 2. */
  lemma RepeatIsPrefixTwo()
    ensures PrefixOps(2) == [Bit(false), Bit(true)]
  {
    assert PrefixHead(1) == [];
  }

  lemma OffsetReadsBack(s: Width, src: seq<byte>, rd: Reader, off: u32, last: u32, rest: seq<Op>)
      returns (rd': Reader)
    requires 1 <= off
    requires StandsAt(s, src, rd, OffsetOps(off, last) + rest)
    ensures ReadOffset(s, src, rd, last) == Got(off, rd')
    ensures StandsAt(s, src, rd', rest) && Used(rd') == Used(rd) + Weight(OffsetOps(off, last))
  {
    hide StandsAt, NextBit, NextRaw, ReadPrefix, PrefixOps, Weight, ReadOffset;
    if off == last {
      RepeatIsPrefixTwo();
      rd' := PrefixReadsBack(s, src, rd, 2, rest);
      ShortOffset(s, src, rd, last, rd');
    } else {
      var low := (off - 1) % 256;
      var v := 3 + (off - 1) / 256;
      assert OffsetOps(off, last) + rest == PrefixOps(v) + ([Raw(low)] + rest);
      WeightAppend(PrefixOps(v), [Raw(low)]);
      WeightOfRaw(low);
      var rd1 := PrefixReadsBack(s, src, rd, v, [Raw(low)] + rest);
      ReadRaw(s, src, rd1, low, rest);
      rd' := NextRaw(src, rd1).rest;
      LongOffset(s, src, rd, last, v, rd1, low, rd');
    }
  }

  /** The definition of ReadOffset, case by case. */
  lemma ShortOffset(s: Width, src: seq<byte>, rd: Reader, last: u32, rd1: Reader)
    requires ReadPrefix(s, src, rd, 1) == Got(2, rd1)
    ensures ReadOffset(s, src, rd, last) == Got(last, rd1)
  {
    hide ReadPrefix;
  }

  lemma LongOffset(s: Width, src: seq<byte>, rd: Reader, last: u32, v: u32, rd1: Reader, low: byte, rd2: Reader)
    requires ReadPrefix(s, src, rd, 1) == Got(v, rd1) && v >= 3 && NextRaw(src, rd1) == Got(low, rd2)
    ensures ReadOffset(s, src, rd, last) == Got((((v - 3) * 256 + low) % U32 + 1) % U32, rd2)
  {
    hide ReadPrefix, NextRaw;
  }

  lemma LengthReadsBack(s: Width, src: seq<byte>, rd: Reader, m: u32, rest: seq<Op>)
      returns (rd': Reader)
    requires 1 <= m
    requires StandsAt(s, src, rd, LengthOps(m) + rest)
    ensures ReadLength(s, src, rd) == Got(m, rd')
    ensures StandsAt(s, src, rd', rest) && Used(rd') == Used(rd) + Weight(LengthOps(m))
  {
    hide StandsAt, NextBit, NextRaw, ReadPrefix, PrefixOps, Weight;
    if m >= 4 {
      WeightAppend([Bit(false), Bit(false)], PrefixOps(m - 2));
      WeightOfTwoBits(false, false);
      assert LengthOps(m) + rest == [Bit(false), Bit(false)] + (PrefixOps(m - 2) + rest);
      var rd1 := ReadTwoBits(s, src, rd, false, false, PrefixOps(m - 2) + rest);
      rd' := PrefixReadsBack(s, src, rd1, m - 2, rest);
    } else {
      WeightOfTwoBits(m > 1, m % 2 == 1);
      rd' := ReadTwoBits(s, src, rd, m > 1, m % 2 == 1, rest);
    }
  }

  lemma TokenReadsBack(s: Width, src: seq<byte>, rd: Reader, t: Token, last: u32, rest: seq<Op>)
      returns (rd': Reader)
    requires Legal(t) && last >= 1
    requires StandsAt(s, src, rd, TokenOps(t, last) + rest)
    ensures ReadItem(s, src, rd, last) == Got(Tok(t), rd')
    ensures StandsAt(s, src, rd', rest) && Used(rd') == Used(rd) + Weight(TokenOps(t, last))
  {
    hide StandsAt, NextBit, NextRaw, ReadOffset, ReadLength, OffsetOps, LengthOps, Weight;
    match t
    case Literal(v) =>
      assert TokenOps(t, last) + rest == [Bit(true)] + ([Raw(v)] + rest);
      LiteralWeight(v);
      ReadBit(s, src, rd, true, [Raw(v)] + rest);
      ReadRaw(s, src, NextBit(s, src, rd).rest, v, rest);
      rd' := NextRaw(src, NextBit(s, src, rd).rest).rest;
    case Copy(len, off) =>
      var m := CodedLength(len, off);
      var tail := LengthOps(m) + rest;
      MatchWeight(off, last, m);
      assert TokenOps(t, last) + rest == [Bit(false)] + (OffsetOps(off, last) + tail);
      ReadBit(s, src, rd, false, OffsetOps(off, last) + tail);
      var rd1 := OffsetReadsBack(s, src, NextBit(s, src, rd).rest, off, last, tail);
      rd' := LengthReadsBack(s, src, rd1, m, rest);
  }

  lemma LiteralWeight(v: byte)
    ensures Weight([Bit(true), Raw(v)]) == 9
  {
    hide Weight;
    WeightOfBit(true);
    WeightOfRaw(v);
    WeightAppend([Bit(true)], [Raw(v)]);
    assert [Bit(true)] + [Raw(v)] == [Bit(true), Raw(v)];
  }

  lemma MatchWeight(off: nat, last: nat, m: nat)
    requires off >= 1
    ensures Weight([Bit(false)] + (OffsetOps(off, last) + LengthOps(m))) == 1 + Weight(OffsetOps(off, last)) + Weight(LengthOps(m))
  {
    hide Weight, OffsetOps, LengthOps;
    WeightAppend(OffsetOps(off, last), LengthOps(m));
    WeightAppend([Bit(false)], OffsetOps(off, last) + LengthOps(m));
    WeightOfBit(false);
  }

  lemma EofReadsBack(s: Width, src: seq<byte>, rd: Reader, last: u32)
      returns (rd': Reader)
    requires last >= 1
    requires StandsAt(s, src, rd, EofOps())
    ensures ReadItem(s, src, rd, last) == Got(End, rd')
    ensures rd'.pos == |src|
  {
    hide StandsAt, NextBit, NextRaw, ReadPrefix, PrefixOps, ReadOffset;
    var v := EOF_PREFIX + 2;
    ReadBit(s, src, rd, false, PrefixOps(v) + [Raw(0xff)]);
    var rd1 := PrefixReadsBack(s, src, NextBit(s, src, rd).rest, v, [Raw(0xff)]);
    assert [Raw(0xff)] == [Raw(0xff)] + [];
    ReadRaw(s, src, rd1, 0xff, []);
    rd' := NextRaw(src, rd1).rest;
    LongOffset(s, src, NextBit(s, src, rd).rest, last, v, rd1, 0xff, rd');
    StandsAtEnd(s, src, rd');
  }

  lemma StandsAtEnd(s: Width, src: seq<byte>, rd: Reader)
    requires StandsAt(s, src, rd, [])
    ensures rd.pos == |src|
  {
  }

  /** The next k tokens, and where they leave the reader. */
  function ReadItems(s: Width, src: seq<byte>, rd: Reader, last: u32, k: nat): (r: Read<seq<Token>>)
    requires last >= 1
    decreases k
  {
    if k == 0 then Got([], rd)
    else
      var item := ReadItem(s, src, rd, last);
      if item.Overrun? || item.value.End? then Overrun
      else
        var rest := ReadItems(s, src, item.rest, NextLast(item.value.t, last), k - 1);
        if rest.Overrun? then Overrun else Got([item.value.t] + rest.value, rest.rest)
  }

  /** Wherever the decoder stops between tokens, it has taken exactly their bits. */
  lemma {:induction false} ItemsReadBack(s: Width, src: seq<byte>, rd: Reader, ts: seq<Token>, last: u32,
                                         rest: seq<Op>, k: nat)
      returns (rd': Reader)
    requires AllLegal(ts) && last >= 1 && k <= |ts|
    requires StandsAt(s, src, rd, TokensOps(ts, last) + rest)
    ensures ReadItems(s, src, rd, last, k) == Got(ts[..k], rd')
    ensures |rd'.buf| < s && Used(rd') == Used(rd) + Weight(TokensOps(ts[..k], last))
    decreases k
  {
    hide ReadItem, TokenOps, Weight, Layout, BitsOf;
    if k == 0 {
      assert ts[..0] == [];
      NoWeight();
      rd' := rd;
    } else {
      var t, next := ts[0], NextLast(ts[0], last);
      var tail := TokensOps(ts[1..], next) + rest;
      assert TokensOps(ts, last) + rest == TokenOps(t, last) + tail;
      var rd1 := TokenReadsBack(s, src, rd, t, last, tail);
      rd' := ItemsReadBack(s, src, rd1, ts[1..], next, rest, k - 1);
      assert ts[..k][1..] == ts[1..][..k - 1] && ts[..k] == [t] + ts[1..][..k - 1];
      WeightAppend(TokenOps(t, last), TokensOps(ts[1..][..k - 1], next));
    }
  }

  /** Every legal token sequence reads back as itself, and the reader ends at the last byte. */
  lemma {:induction false} TokensReadBack(s: Width, src: seq<byte>, rd: Reader, ts: seq<Token>, last: u32,
                                          out: seq<byte>, limit: nat)
    requires AllLegal(ts) && last >= 1 && Expandable(ts, out) && |Expand(ts, out)| <= limit
    requires StandsAt(s, src, rd, TokensOps(ts, last) + EofOps())
    ensures DecodeFrom(s, src, rd, last, out, limit).Done?
    ensures DecodeFrom(s, src, rd, last, out, limit).out == Expand(ts, out)
    ensures DecodeFrom(s, src, rd, last, out, limit).rest.pos == |src|
    decreases |ts|
  {
    hide StandsAt, ReadItem, EofOps, TokenOps;
    if ts == [] {
      assert TokensOps(ts, last) + EofOps() == EofOps();
      var rd1 := EofReadsBack(s, src, rd, last);
    } else {
      var t, tail := ts[0], TokensOps(ts[1..], NextLast(ts[0], last)) + EofOps();
      assert TokensOps(ts, last) + EofOps() == TokenOps(t, last) + tail;
      var rd1 := TokenReadsBack(s, src, rd, t, last, tail);
      TokensReadBack(s, src, rd1, ts[1..], NextLast(t, last), Apply(t, out), limit);
    }
  }

  /** The whole stream a compressor produces for a token sequence. */
  function StreamOps(ts: seq<Token>): (ops: seq<Op>)
    requires AllLegal(ts)
  {
    TokensOps(ts, 1) + EofOps()
  }

  lemma StreamReadsBack(s: Width, ts: seq<Token>, limit: nat)
    requires AllLegal(ts) && Expandable(ts, []) && |Expand(ts, [])| <= limit
    ensures var src := Layout(s, StreamOps(ts), 0);
            var r := DecodeFrom(s, src, Start(), 1, [], limit);
            r.Done? && r.out == Expand(ts, []) && r.rest.pos == |src|
  {
    hide StandsAt, Layout, DecodeFrom, Expand, Expandable;
    StandsAtStart(s, StreamOps(ts));
    TokensReadBack(s, Layout(s, StreamOps(ts), 0), Start(), ts, 1, [], limit);
  }
}
