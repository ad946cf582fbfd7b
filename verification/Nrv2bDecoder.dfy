/** The NRV2B decompressor: four bit readers, and the decoding loop. */
module Nrv2bDecoder {
  import opened Bytes
  import opened Nrv2bFormat
  import opened Nrv2bTokens
  import opened RingBuffer

  // --------------------------------------------------------- sentinel arithmetic

  lemma {:induction false} Pow2Add(a: nat, b: nat)
    ensures Pow2(a + b) == Pow2(a) * Pow2(b)
  {
    if a > 0 {
      hide Pow2;
      Pow2Add(a - 1, b);
      NextPow2(a - 1);
      NextPow2(a - 1 + b);
      DoubleFactor(Pow2(b), Pow2(a - 1));
    } else {
      assert Pow2(0) == 1;
    }
  }

  lemma DoubleFactor(x: nat, y: nat)
    ensures x * (2 * y) == 2 * (x * y) && (2 * y) * x == 2 * (y * x) && x * y == y * x
  {
  }

  lemma CancelFactor(x: nat, a: nat, b: nat)
    requires a >= 1 && b >= 1
    ensures a * b >= 1 && (x * a) / (a * b) == x / b
  {
    var q, r := x / b, x % b;
    assert x == b * q + r;
    Scaled(a, b, q, r);
    ScaledLess(r, b, a);
    QuotientUnique(x * a, a * b, q, r * a);
  }

  lemma Scaled(a: nat, b: nat, q: nat, r: nat)
    ensures (b * q + r) * a == (a * b) * q + r * a
  {
    var c := b * q;
    assert (c + r) * a == c * a + r * a;
    assert c * a == a * c;
    assert a * (b * q) == (a * b) * q;
  }

  lemma ScaledLess(r: nat, b: nat, a: nat)
    requires r < b && a >= 1
    ensures r * a < a * b && a * b >= 1
  {
    var d := b - r;
    assert a * b == a * (r + d) == a * r + a * d;
    assert a * d == d * a;
    assert d * a >= a by {
      var e := d - 1;
      assert d * a == (e + 1) * a == e * a + a;
      assert e * a >= 0;
    }
  }

  /** Shifting the word and its trailing sentinel bit left brings digit r - 1 of
      the word into position `top`. */
  lemma SentinelDigit(w: nat, r: nat, top: nat)
    requires 1 <= r <= top
    ensures ((2 * w + 1) * Pow2(top - r)) / Pow2(top) == w / Pow2(r - 1)
  {
    Pow2Add(top - r, r);
    CancelFactor(2 * w + 1, Pow2(top - r), Pow2(r));
    HalveThenDivide(2 * w + 1, Pow2(r - 1));
  }

  /** While bits are left the sentinel is still inside the low n bits ... */
  lemma {:induction false} SentinelInside(w: nat, j: nat, n: nat)
    requires j < n
    ensures ((2 * w + 1) * Pow2(j)) % Pow2(n) != 0
  {
    if j == 0 {
      OddIsNoMultiple(w, Pow2(n - 1));
    } else {
      SentinelInside(w, j - 1, n - 1);
      var x := (2 * w + 1) * Pow2(j - 1);
      assert (2 * w + 1) * Pow2(j) == 2 * x;
      DoubleRemainder(x, Pow2(n - 1));
    }
  }

  /** ... and when none are left it has just moved out. */
  lemma SentinelOutside(w: nat, n: nat)
    ensures ((2 * w + 1) * Pow2(n)) % Pow2(n) == 0
  {
    QuotientUnique((2 * w + 1) * Pow2(n), Pow2(n), 2 * w + 1, 0);
  }

  lemma OddIsNoMultiple(w: nat, c: nat)
    requires c >= 1
    ensures (2 * w + 1) % (2 * c) != 0
  {
    var q := (2 * w + 1) / (2 * c);
    assert 2 * w + 1 == 2 * (c * q) + (2 * w + 1) % (2 * c);
  }

  lemma DoubleRemainder(x: nat, c: nat)
    requires c >= 1
    ensures (2 * x) % (2 * c) == 2 * (x % c)
  {
    var q, r := x / c, x % c;
    assert 2 * x == 2 * c * q + 2 * r;
    QuotientUnique(2 * x, 2 * c, q, 2 * r);
  }

  // --------------------------------------------------------------- bit readers

  /** The registers `bb` and `bc` hold the last r bits of the word w. For 8 and 16
      bits the end of the word is marked by a sentinel bit below it, for 32 and 64
      bits it is counted. */
  ghost predicate Holds(s: Width, bb: nat, bc: nat, w: nat, r: nat)
  {
    if s <= 16 then
      if r == 0 then bb % Pow2(s - 1) == 0 else r < s && bb == (2 * w + 1) * Pow2(s - 1 - r)
    else
      bc == r && (r > 0 ==> bb == w)
  }

  ghost predicate Remains(s: Width, w: nat, buf: seq<bool>)
  {
    w < Pow2(s) && |buf| < s && buf == ToBits(w, s)[s - |buf|..]
  }

  lemma TakeBit(s: Width, w: nat, buf: seq<bool>)
    requires Remains(s, w, buf) && buf != []
    ensures buf[0] == (w / Pow2(|buf| - 1) % 2 == 1)
    ensures Remains(s, w, buf[1..])
  {
    hide ToBits, Pow2, Remains;
    RemainsTail(s, w, buf);
    ToBitsDigit(w, s, s - |buf|);
    assert s - 1 - (s - |buf|) == |buf| - 1;
  }

  lemma RemainsTail(s: Width, w: nat, buf: seq<bool>)
    requires Remains(s, w, buf) && buf != []
    ensures |buf| < s && w < Pow2(s) && buf[0] == ToBits(w, s)[s - |buf|] && Remains(s, w, buf[1..])
  {
    hide ToBits, Pow2;
    var d := ToBits(w, s);
    assert d[s - |buf|..][1..] == d[s - |buf| + 1..];
  }

  lemma LeValueBound(bytes: seq<byte>)
    ensures LeValue(bytes) < Pow2(8 * |bytes|)
  {
    if bytes != [] {
      LeValueBound(bytes[1..]);
      Pow2Byte(8 * |bytes| - 8);
    }
  }

  lemma TakeFirstBit(s: Width, src: seq<byte>, pos: nat)
    requires pos + s / 8 <= |src|
    ensures var w := LeValue(src[pos..pos + s / 8]);
            && Remains(s, w, FetchWord(s, src, pos)[1..])
            && FetchWord(s, src, pos)[0] == (w / Pow2(s - 1) % 2 == 1)
  {
    hide ToBits, Pow2;
    var w := LeValue(src[pos..pos + s / 8]);
    LeValueBound(src[pos..pos + s / 8]);
    ToBitsDigit(w, s, 0);
  }

  /** A sentinel reader with bits left shifts once more. */
  lemma SentinelStep(s: Width, bb: nat, w: nat, r: nat)
    requires s <= 16 && r > 0 && Holds(s, bb, 0, w, r)
    ensures bb % Pow2(s - 1) != 0 && (2 * bb) % Pow2(s) != 0
    ensures (2 * bb) / Pow2(s) == w / Pow2(r - 1)
    ensures Holds(s, 2 * bb, 0, w, r - 1)
  {
    hide Pow2;
    SentinelInside(w, s - 1 - r, s - 1);
    NextPow2(s - 1);
    DoubleRemainder(bb, Pow2(s - 1));
    NextPow2(s - 1 - r);
    DoubleFactor(2 * w + 1, Pow2(s - 1 - r));
    SentinelDigit(w, r, s);
    if r == 1 {
      SentinelOutside(w, s - 1);
    }
  }

  /** With bits left, shifting does not overflow 32 bits. */
  lemma SentinelFits(bb: nat, w: nat, buf: seq<bool>)
    requires buf != [] && Holds(16, bb, 0, w, |buf|) && Remains(16, w, buf)
    ensures 2 * bb < U32
  {
    var r := |buf|;
    Pow2Add(15 - r, r);
    NextPow2(r - 1);
    Powers();
    ProductFits(w, Pow2(15 - r), Pow2(r));
  }

  lemma ProductFits(w: nat, a: nat, b: nat)
    requires w < 0x1_0000 && a * b == 0x8000 && b >= 2
    ensures 2 * ((2 * w + 1) * a) < U32
  {
    assert 2 * a <= a * b;
    assert (2 * w + 1) * a <= 0x1_ffff * a;
  }

  /** Loading a word puts the sentinel right below it. */
  lemma SentinelLoad(s: Width, w: nat)
    requires s <= 16 && w < Pow2(s)
    ensures (2 * w + 1) / Pow2(s) == w / Pow2(s - 1)
    ensures Holds(s, 2 * w + 1, 0, w, s - 1)
  {
    HalveThenDivide(2 * w + 1, Pow2(s - 1));
    assert Pow2(0) == 1;
  }

  lemma EmptyRemains(s: Width)
    ensures Remains(s, 0, [])
  {
  }

  lemma NothingHeld(s: Width)
    ensures Holds(s, 0, 0, 0, 0)
  {
  }

  class BitReader {
    const s: Width
    const src: seq<byte>
    var bb: nat
    var bc: nat
    var ilen: nat
    ghost var w: nat          // the word being read
    ghost var buf: seq<bool>  // its bits not yet delivered

    ghost function View(): Reader
      reads this
    {
      Reader(ilen, buf)
    }

    ghost predicate Valid()
      reads this
    {
      && ilen <= |src|
      && Remains(s, w, buf)
      && Holds(s, bb, if s <= 16 then 0 else bc, w, |buf|)
      && (s == 16 ==> bb < U32)
    }

    constructor (s: Width, src: seq<byte>)
      ensures Valid() && View() == Start()
      ensures this.s == s && this.src == src
    {
      this.s := s;
      this.src := src;
      bb, bc, ilen := 0, 0, 0;
      w, buf := 0, [];
      EmptyRemains(s);
      NothingHeld(s);
      new;
      hide Remains, Holds;
    }

    /** GETBIT_8: the low seven bits are zero once the sentinel has passed them. */
    method GetBit8() returns (ok: bool, bit: bool)
      requires Valid() && s == 8
      modifies this
      ensures Valid()
      ensures var next := NextBit(s, src, old(View())); ok == next.Got? && (ok ==> next == Got(bit, View()))
    {
      hide ToBits, LeValue, Pow2, Holds, FetchWord, Remains;
      EmptyHolds(s, bb, 0, w, |buf|);
      Powers();
      if bb % 0x80 != 0 {
        SentinelStep(s, bb, w, |buf|);
        TakeBit(s, w, buf);
        bb := bb * 2;
        buf := buf[1..];
      } else {
        if |buf| > 0 { SentinelStep(s, bb, w, |buf|); }
        if ilen >= |src| {
          return false, false;
        }
        TakeFirstBit(s, src, ilen);
        SingleByte(src, ilen);
        var byte: int := src[ilen];
        bb := byte * 2 + 1;
        w, buf := byte, FetchWord(s, src, ilen)[1..];
        SentinelLoad(s, w);
        ilen := ilen + 1;
      }
      ok, bit := true, bb / 0x100 % 2 == 1;
    }

    /** GETBIT_LE16: as above, but the test comes after the shift. */
    method GetBit16() returns (ok: bool, bit: bool)
      requires Valid() && s == 16
      modifies this
      ensures Valid()
      ensures var next := NextBit(s, src, old(View())); ok == next.Got? && (ok ==> next == Got(bit, View()))
    {
      hide ToBits, LeValue, Pow2, Holds, FetchWord, Remains;
      EmptyHolds(s, bb, 0, w, |buf|);
      Powers();
      if |buf| > 0 {
        SentinelStep(s, bb, w, |buf|);
        SentinelFits(bb, w, buf);
        TakeBit(s, w, buf);
      } else {
        NothingLeft(bb);
      }
      var shifted := if bb * 2 < U32 then bb * 2 else bb * 2 - U32;
      if shifted % 0x1_0000 != 0 {
        bb := shifted;
        buf := buf[1..];
      } else {
        if ilen + 2 > |src| {
          return false, false;
        }
        TakeFirstBit(s, src, ilen);
        TwoBytes(src, ilen);
        var lo: int, hi: int := src[ilen], src[ilen + 1];
        w, buf := lo + hi * 256, FetchWord(s, src, ilen)[1..];
        bb := (lo + hi * 256) * 2 + 1;
        SentinelLoad(s, w);
        ilen := ilen + 2;
      }
      ok, bit := true, bb / 0x1_0000 % 2 == 1;
    }

    /** GETBIT_LE32 and GETBIT_LE64: the bits left are counted in bc. */
    method GetBitCounted() returns (ok: bool, bit: bool)
      requires Valid() && s >= 32
      modifies this
      ensures Valid()
      ensures var next := NextBit(s, src, old(View())); ok == next.Got? && (ok ==> next == Got(bit, View()))
    {
      hide ToBits, LeValue, Pow2, FetchWord, Remains;
      if bc > 0 {
        TakeBit(s, w, buf);
        bc := bc - 1;
        buf := buf[1..];
      } else {
        if ilen + s / 8 > |src| {
          return false, false;
        }
        TakeFirstBit(s, src, ilen);
        bc := s - 1;
        bb := LeValue(src[ilen..ilen + s / 8]);
        w, buf := bb, FetchWord(s, src, ilen)[1..];
        ilen := ilen + s / 8;
      }
      ok, bit := true, bb / Pow2(bc) % 2 == 1;
    }

    method GetBit() returns (ok: bool, bit: bool)
      requires Valid()
      modifies this
      ensures Valid()
      ensures var next := NextBit(s, src, old(View())); ok == next.Got? && (ok ==> next == Got(bit, View()))
    {
      if s == 8 {
        ok, bit := GetBit8();
      } else if s == 16 {
        ok, bit := GetBit16();
      } else {
        ok, bit := GetBitCounted();
      }
    }

    method GetByte() returns (ok: bool, v: byte)
      requires Valid()
      modifies this`ilen
      ensures Valid()
      ensures var next := NextRaw(src, old(View())); ok == next.Got? && (ok ==> next == Got(v, View()))
    {
      if ilen >= |src| {
        return false, 0;
      }
      ok, v := true, src[ilen];
      ilen := ilen + 1;
    }

    /** The do-while loop that gathers an offset or a length. */
    method GetPrefix() returns (ok: bool, v: u32)
      requires Valid()
      modifies this
      ensures Valid()
      ensures var next := ReadPrefix(s, src, old(View()), 1);
              ok == next.Got? && (ok ==> next == Got(v, View()))
    {
      hide NextBit, Holds, Remains;
      v := 1;
      while true
        invariant Valid()
        invariant ReadPrefix(s, src, old(View()), 1) == ReadPrefix(s, src, View(), v)
        decreases Fuel(src, View())
      {
        ghost var next := ReadPrefix(s, src, View(), v);
        var digit, stop: bool;
        ok, digit := GetBit();
        if !ok { return; }
        v := Append(v, digit);
        ok, stop := GetBit();
        if !ok || stop { return; }
      }
    }

    /** The offset of a match; 0 is the end mark (m_off == 0xffffffff before the increment). */
    method GetOffset(lastOff: u32) returns (ok: bool, off: u32)
      requires Valid()
      modifies this
      ensures Valid()
      ensures var next := ReadOffset(s, src, old(View()), lastOff);
              ok == next.Got? && (ok ==> next == Got(off, View()))
    {
      hide NextBit, NextRaw, ReadPrefix, Holds, Remains;
      ok, off := GetPrefix();
      if !ok { return; }
      if off == 2 {
        off := lastOff;
      } else {
        var prefix: int := off;
        var low: byte;
        ok, low := GetByte();
        if !ok { return; }
        off := ((prefix - 3) * 256 + low) % U32;
        off := if off == 0xffff_ffff then 0 else off + 1;
      }
    }

    method GetLength() returns (ok: bool, m: u32)
      requires Valid()
      modifies this
      ensures Valid()
      ensures var next := ReadLength(s, src, old(View()));
              ok == next.Got? && (ok ==> next == Got(m, View()))
    {
      hide NextBit, ReadPrefix, Holds, Remains;
      var hi, lo: bool;
      m := 0;
      ok, hi := GetBit();
      if !ok { return; }
      ok, lo := GetBit();
      if !ok { return; }
      m := (if hi then 2 else 0) + (if lo then 1 else 0);
      if m == 0 {
        ok, m := GetPrefix();
        if !ok { return; }
        m := (m + 2) % U32;
      }
    }
  }

  lemma NothingLeft(bb: nat)
    requires bb % 0x8000 == 0
    ensures bb * 2 % 0x1_0000 == 0 && (bb * 2 - U32) % 0x1_0000 == 0
  {
  }

  lemma TwoBytes(src: seq<byte>, pos: nat)
    requires pos + 2 <= |src|
    ensures LeValue(src[pos..pos + 2]) == (src[pos] as int) + 256 * (src[pos + 1] as int)
  {
    assert src[pos..pos + 2][1..] == src[pos + 1..pos + 2];
    SingleByte(src, pos + 1);
  }

  lemma Powers()
    ensures Pow2(7) == 0x80 && Pow2(8) == 0x100 && Pow2(15) == 0x8000 && Pow2(16) == 0x1_0000
  {
  }

  lemma EmptyHolds(s: Width, bb: nat, bc: nat, w: nat, r: nat)
    requires Holds(s, bb, bc, w, r)
    ensures s <= 16 && r == 0 ==> bb % Pow2(s - 1) == 0
    ensures s >= 32 ==> bc == r && (r > 0 ==> bb == w)
  {
  }

  lemma SingleByte(src: seq<byte>, pos: nat)
    requires pos < |src|
    ensures LeValue(src[pos..pos + 1]) == src[pos]
  {
    assert src[pos..pos + 1] == [src[pos]];
    assert [src[pos]][1..] == [];
  }

  // ------------------------------------------------------------- decoding loop

  /** Copies n bytes from `off` back, one at a time, so that the copy may overlap itself. */
  method CopyMatch(dst: array<byte>, olen: nat, off: nat, n: nat)
    requires 1 <= off <= olen && olen + n <= dst.Length
    modifies dst
    ensures dst[..olen + n] == CopyBytes(old(dst[..olen]), off, n)
  {
    hide CopyBytes;
    var pos, i := olen - off, 0;
    while i < n
      invariant 0 <= i <= n && pos == olen + i - off
      invariant CopyBytes(dst[..olen + i], off, n - i) == CopyBytes(old(dst[..olen]), off, n)
    {
      ghost var before := dst[..olen + i];
      dst[olen + i] := dst[pos];
      assert dst[..olen + i + 1] == before + [before[|before| - off]];
      CopyOne(before, off, n - i);
      pos, i := pos + 1, i + 1;
    }
    CopyNone(dst[..olen + n], off);
  }

  /** Reads one token, or the end mark. */
  method NextItem(reader: BitReader, lastOff: u32) returns (ok: bool, item: Item)
    requires reader.Valid() && lastOff >= 1
    modifies reader
    ensures reader.Valid() && ok == ReadItem(reader.s, reader.src, old(reader.View()), lastOff).Got?
    ensures ok ==> ReadItem(reader.s, reader.src, old(reader.View()), lastOff) == Got(item, reader.View())
  {
    hide ReadOffset, ReadLength, NextBit, NextRaw, BitReader.Valid;
    item := End;
    var literal: bool;
    ok, literal := reader.GetBit();
    if !ok { return; }
    if literal {
      var v: byte;
      ok, v := reader.GetByte();
      item := Tok(Literal(v));
      return;
    }
    var off, m: u32;
    ok, off := reader.GetOffset(lastOff);
    if !ok || off == 0 { return; }
    ok, m := reader.GetLength();
    if !ok { return; }
    var n := CopyCount(m, off);
    item := Tok(Copy(n, off));
  }

  /** The definition of DecodeFrom, one step. */
  lemma {:induction false} DecodeStep(s: Width, src: seq<byte>, rd: Reader, last: u32, out: seq<byte>, limit: nat)
    requires last >= 1
    ensures var item, r := ReadItem(s, src, rd, last), DecodeFrom(s, src, rd, last, out, limit);
            if item.Overrun? then r == Broken
            else match item.value
              case End => r == Done(out, item.rest)
              case Tok(t) =>
                r == if Applies(t, out) && |out| + Extent(t) <= limit
                     then DecodeFrom(s, src, item.rest, NextLast(t, last), Apply(t, out), limit)
                     else Broken
  {
    hide ReadItem, Apply;
  }

  /** Decodes into a buffer of dstLen bytes. Where the source would read or write
      outside a buffer, the result is not ok. */
  method Decode(s: Width, src: seq<byte>, dstLen: nat)
      returns (ok: bool, dst: array<byte>, olen: nat, ilen: nat)
    ensures fresh(dst) && dst.Length == dstLen && olen <= dstLen
    ensures var r := DecodeFrom(s, src, Start(), 1, [], dstLen);
            ok == r.Done? && (ok ==> dst[..olen] == r.out && ilen == r.rest.pos)
  {
    hide ReadItem, DecodeFrom, CopyBytes, BitReader.Valid;
    dst := new byte[dstLen];
    var reader := new BitReader(s, src);
    var lastOff: u32 := 1;
    olen, ilen := 0, 0;
    assert dst[..0] == [];
    while true
      invariant fresh(dst) && fresh(reader) && dst.Length == dstLen && olen <= dstLen
      invariant reader.Valid() && reader.s == s && reader.src == src
      invariant lastOff >= 1
      invariant DecodeFrom(s, src, Start(), 1, [], dstLen)
             == DecodeFrom(s, src, reader.View(), lastOff, dst[..olen], dstLen)
      decreases Fuel(src, reader.View())
    {
      ghost var view, text := reader.View(), dst[..olen];
      DecodeStep(s, src, view, lastOff, text, dstLen);
      var item;
      ok, item := NextItem(reader, lastOff);
      if !ok {
        return;
      }
      match item
      case End =>
        ilen := reader.ilen;
        return;
      case Tok(Literal(v)) =>
        if olen >= dstLen {
          return false, dst, olen, ilen;
        }
        dst[olen] := v;
        olen := olen + 1;
        assert dst[..olen] == Apply(Literal(v), text);
      case Tok(Copy(n, off)) =>
        if off > olen || olen + n > dstLen {
          return false, dst, olen, ilen;
        }
        CopyMatch(dst, olen, off, n);
        lastOff := off;
        olen := olen + n;
        assert dst[..olen] == Apply(Copy(n, off), text);
    }
  }
}
