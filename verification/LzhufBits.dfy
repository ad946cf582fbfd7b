/** The bit buffers of LZHUF: Putcode on one side, GetBit and GetByte on the other.
    Both keep the bits in hand at the top of a 16-bit window. */
module LzhufBits {
  import opened Bytes

  // ------------------------------------------------------- shifts and or, bitwise

  function Or(a: nat, b: nat): (r: nat)
  {
    if a == 0 && b == 0 then 0
    else 2 * Or(a / 2, b / 2) + (if a % 2 == 1 || b % 2 == 1 then 1 else 0)
  }

  lemma {:induction false} OrBits(a: nat, b: nat, n: nat)
    ensures forall i :: 0 <= i < n ==> ToBits(Or(a, b), n)[i] == (ToBits(a, n)[i] || ToBits(b, n)[i])
  {
    if n > 0 {
      OrBits(a / 2, b / 2, n - 1);
      assert Or(a, b) / 2 == Or(a / 2, b / 2);
    }
  }

  lemma {:induction false} ToBitsZero(n: nat)
    ensures ToBits(0, n) == Zeros(n)
  {
    if n > 0 {
      ToBitsZero(n - 1);
    }
  }

  /** x << 1 */
  lemma ShiftLeftOne(x: nat, n: nat)
    requires n > 0
    ensures ToBits(2 * x, n) == ToBits(x, n)[1..] + [false]
  {
    ToBitsTail(x, n);
  }

  /** Dropping the top digit of n digits leaves n - 1 digits. */
  lemma {:induction false} ToBitsTail(x: nat, n: nat)
    requires n > 0
    ensures ToBits(x, n)[1..] == ToBits(x, n - 1)
  {
    if n > 1 {
      ToBitsTail(x / 2, n - 1);
    }
  }

  function Shl(x: nat, m: nat): (r: nat)
  {
    if m == 0 then x else 2 * Shl(x, m - 1)
  }

  lemma {:induction false} ShlBits(x: nat, m: nat, n: nat)
    requires m <= n
    ensures ToBits(Shl(x, m), n) == ToBits(x, n)[m..] + Zeros(m)
  {
    if m > 0 {
      ShlBits(x, m - 1, n);
      ShiftLeftOne(Shl(x, m - 1), n);
      assert (ToBits(x, n)[m - 1..] + Zeros(m - 1))[1..] + [false] == ToBits(x, n)[m..] + Zeros(m);
    }
  }

  /** x >> 1, for x of n bits */
  lemma {:induction false} ShiftRightOne(x: nat, n: nat)
    requires n > 0 && x < Pow2(n)
    ensures ToBits(x / 2, n) == [false] + ToBits(x, n)[..n - 1]
  {
    if n == 1 {
      assert x / 2 == 0;
      ToBitsZero(1);
    } else {
      ShiftRightOne(x / 2, n - 1);
      assert ToBits(x / 2, n) == ToBits(x / 2 / 2, n - 1) + [x / 2 % 2 == 1];
      assert ToBits(x / 2, n - 1) == ToBits(x / 2, n - 1)[..n - 2] + [x / 2 % 2 == 1];
    }
  }

  lemma {:induction false} ShrBits(x: nat, m: nat, n: nat)
    requires m <= n && x < Pow2(n)
    ensures Halve(x, m) < Pow2(n)
    ensures ToBits(Halve(x, m), n) == Zeros(m) + ToBits(x, n)[..n - m]
  {
    if m > 0 {
      ShiftRightOne(x, n);
      ShrBits(x / 2, m - 1, n);
      ZerosFirst(m);
      assert Zeros(m - 1) + ([false] + ToBits(x, n)[..n - 1])[..n - m + 1] == Zeros(m) + ToBits(x, n)[..n - m];
    }
  }

  lemma ZerosFirst(m: nat)
    requires m > 0
    ensures Zeros(m - 1) + [false] == Zeros(m)
  {
  }

  /** Splitting a number of n + 8 bits into its high part and its low byte. */
  lemma HighAndLow(x: nat, n: nat)
    ensures ToBits(x, n + 8)[..n] == ToBits(x / 256, n)
    ensures ToBits(x, n + 8)[n..] == ToBits(x, 8)
  {
    LowDigits(x, n, 8);
    HalveByte(x);
  }

  lemma {:induction false} LowDigits(x: nat, n: nat, m: nat)
    ensures ToBits(x, n + m) == ToBits(Halve(x, m), n) + ToBits(x, m)
  {
    hide ToBits;
    EmptyDigits(x);
    if m > 0 {
      LowDigits(x / 2, n, m - 1);
      LastDigit(x, n + m);
      LastDigit(x, m);
      assert ToBits(Halve(x / 2, m - 1), n) + ToBits(x / 2, m - 1) + [x % 2 == 1]
          == ToBits(Halve(x / 2, m - 1), n) + (ToBits(x / 2, m - 1) + [x % 2 == 1]);
    } else {
      assert ToBits(x, n) + [] == ToBits(x, n);
    }
  }

  lemma {:induction false} ToBitsMod(x: nat, n: nat)
    ensures ToBits(x % Pow2(n), n) == ToBits(x, n)
  {
    if n > 0 {
      ToBitsMod(x / 2, n - 1);
      ModHalves(x, Pow2(n - 1));
    }
  }

  /** Keeping only 32 bits does not disturb the low 16. */
  lemma Wrap32(x: nat)
    ensures ToBits(x % U32, 16) == ToBits(x, 16)
  {
    assert Pow2(32) == U32 by {
      Pow2Byte(0); Pow2Byte(8); Pow2Byte(16); Pow2Byte(24);
    }
    ToBitsMod(x, 32);
    LowDigits(x, 16, 16);
    LowDigits(x % U32, 16, 16);
    assert ToBits(x % U32, 32)[16..] == ToBits(x % U32, 16);
    assert ToBits(x, 32)[16..] == ToBits(x, 16);
  }

  // --------------------------------------------------------------- byte streams

  function BytesBits(bytes: seq<byte>): (bits: seq<bool>)
  {
    if bytes == [] then [] else ToBits(bytes[0], 8) + BytesBits(bytes[1..])
  }

  lemma {:induction false} BytesBitsAppend(bytes: seq<byte>, v: byte)
    ensures BytesBits(bytes + [v]) == BytesBits(bytes) + ToBits(v, 8)
  {
    if bytes == [] {
      assert bytes + [v] == [v];
      assert [v][1..] == [];
    } else {
      assert (bytes + [v])[1..] == bytes[1..] + [v];
      BytesBitsAppend(bytes[1..], v);
    }
  }

  // -------------------------------------------------------------------- writing

  /** or-ing in the code below the pending bits appends it, as far as 16 bits go. */
  lemma OrAppends(putbuf: nat, pending: seq<bool>, c: nat, bits: seq<bool>)
    requires |pending| <= 16 && ToBits(putbuf, 16) == Pad(pending, 16)
    requires c < 0x1_0000 && ToBits(c, 16) == Pad(bits, 16)
    ensures ToBits(Or(putbuf, Halve(c, |pending|)), 16) == Pad(pending + bits, 16)
  {
    hide ToBits, Or, Halve, Pow2;
    Pow2Sixteen();
    ShrBits(c, |pending|, 16);
    OrBits(putbuf, Halve(c, |pending|), 16);
  }

  lemma Pow2Sixteen()
    ensures Pow2(16) == 0x1_0000
  {
    Pow2Byte(0);
    Pow2Byte(8);
  }

  /** After two bytes went out, what is left is the end of the code alone. */
  lemma CodeRemainder(c: nat, bits: seq<bool>, n: nat)
    requires n <= 8 && 16 - n <= |bits| <= 16 && ToBits(c, 16) == Pad(bits, 16)
    ensures ToBits(Shl(c, 16 - n) % U32, 16) == Pad(bits[16 - n..], 16)
  {
    hide ToBits, Shl;
    Wrap32(Shl(c, 16 - n));
    ShlBits(c, 16 - n, 16);
  }

  lemma ByteRemainder(putbuf: nat, all: seq<bool>)
    requires |all| < 16 && ToBits(putbuf, 16) == Pad(all, 16) && |all| >= 8
    ensures ToBits(Shl(putbuf, 8) % U32, 16) == Pad(all[8..], 16)
  {
    hide ToBits, Shl;
    Wrap32(Shl(putbuf, 8));
    ShlBits(putbuf, 8, 16);
  }

  lemma WindowBytes(putbuf: nat, all: seq<bool>)
    requires ToBits(putbuf, 16) == Pad(all, 16)
    ensures |all| >= 8 ==> ToBits(putbuf / 256 % 256, 8) == all[..8]
    ensures |all| >= 16 ==> ToBits(putbuf % 256, 8) == all[8..16]
  {
    hide ToBits, Pow2;
    HighAndLow(putbuf, 8);
    Pow2Byte(0);
    Pow2One();
    ToBitsMod(putbuf / 256, 8);
    ToBitsMod(putbuf, 8);
  }

  lemma Pow2One()
    ensures Pow2(0) == 1
  {
  }

  class BitSink {
    var putbuf: nat
    var putlen: nat
    var out: seq<byte>
    ghost var pending: seq<bool>

    /** All bits put so far. */
    ghost function Sent(): seq<bool>
      reads this
    {
      BytesBits(out) + pending
    }

    ghost predicate Valid()
      reads this
    {
      putlen == |pending| < 8 && ToBits(putbuf, 16) == Pad(pending, 16)
    }

    constructor ()
      ensures Valid() && Sent() == []
    {
      putbuf, putlen, out, pending := 0, 0, [], [];
      new;
      ToBitsZero(16);
    }

    /** Puts the l bits at the top of the 16-bit code c. */
    method Putcode(l: nat, c: nat, ghost bits: seq<bool>)
      requires Valid() && l == |bits| <= 16
      requires c < 0x1_0000 && ToBits(c, 16) == Pad(bits, 16)
      modifies this
      ensures Valid() && Sent() == old(Sent()) + bits
    {
      hide ToBits, Or, Halve, Shl, BytesBits, Pad;
      ghost var all, before := pending + bits, BytesBits(out);
      OrAppends(putbuf, pending, c, bits);
      putbuf := Or(putbuf, Halve(c, putlen));
      putlen := putlen + l;
      WindowBytes(putbuf, all);
      if putlen >= 8 {
        PutByte(putbuf / 256);
        putlen := putlen - 8;
        if putlen >= 8 {
          PutByte(putbuf);
          putlen := putlen - 8;
          CodeRemainder(c, bits, |old(pending)|);
          putbuf := Shl(c, l - putlen) % U32;
          pending := all[16..];
          TwoBytesOut(before, old(pending), bits);
        } else {
          ByteRemainder(putbuf, all);
          putbuf := Shl(putbuf, 8) % U32;
          pending := all[8..];
          OneByteOut(before, old(pending), bits);
        }
      } else {
        pending := all;
        assert before + old(pending) + bits == before + all;
      }
    }

    /** putc: the low byte of v. */
    method PutByte(v: nat)
      modifies this`out
      ensures BytesBits(out) == BytesBits(old(out)) + ToBits(v % 256, 8)
    {
      BytesBitsAppend(out, v % 256);
      out := out + [v % 256];
    }

    /** Writes the last bits, filled up with zeros. */
    method EncodeEnd()
      requires Valid()
      modifies this`out
      ensures BytesBits(out) == old(Sent()) + Zeros((8 - putlen) % 8)
    {
      hide ToBits, BytesBits;
      if putlen > 0 {
        assert ToBits(putbuf / 256 % 256, 8) == pending + Zeros(8 - putlen) by {
          WindowTop(putbuf, pending);
        }
        PutByte(putbuf / 256);
        assert BytesBits(old(out)) + pending + Zeros(8 - putlen) == BytesBits(old(out)) + (pending + Zeros(8 - putlen));
      } else {
        assert Sent() + Zeros(0) == BytesBits(out);
      }
    }
  }

  lemma WindowTop(putbuf: nat, pending: seq<bool>)
    requires |pending| < 8 && ToBits(putbuf, 16) == Pad(pending, 16)
    ensures ToBits(putbuf / 256 % 256, 8) == pending + Zeros(8 - |pending|)
  {
    hide ToBits;
    assert Pad(pending, 16) == Pad(pending + Zeros(8 - |pending|), 16);
    WindowBytes(putbuf, pending + Zeros(8 - |pending|));
  }

  lemma OneByteOut(x: seq<bool>, pending: seq<bool>, bits: seq<bool>)
    requires |pending| + |bits| >= 8
    ensures var all := pending + bits; x + all[..8] + all[8..] == x + pending + bits
  {
  }

  lemma TwoBytesOut(x: seq<bool>, pending: seq<bool>, bits: seq<bool>)
    requires |pending| + |bits| >= 16
    ensures var all := pending + bits; x + all[..8] + all[8..16] + all[16..] == x + pending + bits
  {
    var all := pending + bits;
    assert all[8..] == all[8..16] + all[16..];
    OneByteOut(x, pending, bits);
  }

  // -------------------------------------------------------------------- reading

  /** The stream holds exactly `rest`, and after that nothing but zeros. */
  ghost predicate Serves(stream: seq<bool>, rest: seq<bool>)
  {
    |rest| <= |stream| && stream == rest + Zeros(|stream| - |rest|)
  }

  /** or-ing a byte in below the bits in hand appends it. */
  lemma OrAppendsByte(getbuf: nat, ahead: seq<bool>, v: byte)
    requires |ahead| <= 8 && ToBits(getbuf, 16) == Pad(ahead, 16)
    ensures ToBits(Or(getbuf, Shl(v, 8 - |ahead|)), 16) == Pad(ahead + ToBits(v, 8), 16)
  {
    hide ToBits, Or, Shl;
    var m := 8 - |ahead|;
    ShlBits(v, m, 16);
    OrBits(getbuf, Shl(v, m), 16);
    assert ToBits(v, 16) == Zeros(8) + ToBits(v, 8) by {
      HighAndLow(v, 8);
      ToBitsZero(8);
      assert v / 256 == 0;
    }
  }

  lemma TakeBits(getbuf: nat, ahead: seq<bool>, m: nat)
    requires m <= |ahead| <= 16 && ToBits(getbuf, 16) == Pad(ahead, 16)
    ensures ToBits(Shl(getbuf, m) % U32, 16) == Pad(ahead[m..], 16)
  {
    hide ToBits, Shl;
    Wrap32(Shl(getbuf, m));
    ShlBits(getbuf, m, 16);
  }

  lemma TopBit(x: nat)
    ensures ToBits(x, 16)[0] == (x / 0x8000 % 2 == 1)
  {
    hide Pow2;
    ToBitsDigit(x, 16, 0);
    NextPow2(15);
    Pow2Sixteen();
  }

  function Tail(bits: seq<bool>, n: nat): (r: seq<bool>)
  {
    if n <= |bits| then bits[n..] else []
  }

  /** Taking bits off the stream takes them off the message, and then off the zeros. */
  lemma ServesTake(stream: seq<bool>, rest: seq<bool>, n: nat)
    requires Serves(stream, rest) && n <= |stream|
    ensures stream[..n] == Pad(rest, n)
    ensures Serves(stream[n..], Tail(rest, n))
  {
    if n > |rest| {
      assert stream[n..] == Zeros(|stream| - n);
    } else {
      assert stream[n..] == rest[n..] + Zeros(|stream| - |rest|);
    }
  }

  lemma ServesZeros(stream: seq<bool>, rest: seq<bool>, n: nat)
    requires Serves(stream, rest)
    ensures Serves(stream + Zeros(n), rest)
  {
    hide Zeros;
    var k := |stream| - |rest|;
    assert Zeros(k) + Zeros(n) == Zeros(k + n);
    assert stream + Zeros(n) == rest + (Zeros(k) + Zeros(n));
  }

  lemma NothingInHand(bits: seq<bool>)
    ensures ToBits(0, 16) == Pad([], 16) && Serves([] + bits, bits)
  {
    hide ToBits;
    ToBitsZero(16);
    assert [] + bits == bits + Zeros(0);
  }

  class BitSource {
    const src: seq<byte>
    var pos: nat
    var getbuf: nat
    var getlen: nat
    ghost var ahead: seq<bool>  // the bits in hand
    ghost var rest: seq<bool>   // what remains to be read, up to trailing zeros

    ghost predicate Valid()
      reads this
    {
      && pos <= |src|
      && getlen == |ahead| <= 16
      && ToBits(getbuf, 16) == Pad(ahead, 16)
      && Serves(ahead + BytesBits(src[pos..]), rest)
    }

    constructor (src: seq<byte>)
      ensures Valid() && rest == BytesBits(src) && this.src == src
    {
      hide ToBits, BytesBits, Pad, Serves;
      this.src := src;
      pos, getbuf, getlen, ahead := 0, 0, 0, [];
      rest := BytesBits(src);
      new;
      NothingInHand(BytesBits(src));
      assert src[0..] == src;
    }

    /** Fetches bytes until more than eight bits are in hand; past the end come zeros. */
    method Refill()
      requires Valid()
      modifies this`pos, this`getbuf, this`getlen, this`ahead
      ensures Valid() && getlen > 8
    {
      hide ToBits, BytesBits, Or, Shl, Serves, Pad;
      while getlen <= 8
        invariant Valid()
        decreases 16 - getlen
      {
        var v: byte := 0;
        ghost var stream := ahead + BytesBits(src[pos..]);
        if pos < |src| {
          v := src[pos];
          FirstByte(src, pos);
          pos := pos + 1;
          assert ahead + ToBits(v, 8) + BytesBits(src[pos..]) == stream;
        } else {
          NoBytes(src);
          ToBitsZero(8);
          ServesZeros(stream, rest, 8);
          assert ahead + ToBits(v, 8) + BytesBits(src[pos..]) == stream + Zeros(8);
        }
        OrAppendsByte(getbuf, ahead, v);
        getbuf := Or(getbuf, Shl(v, 8 - getlen));
        getlen := getlen + 8;
        ahead := ahead + ToBits(v, 8);
      }
    }

    method GetBit() returns (bit: bool)
      requires Valid()
      modifies this
      ensures Valid()
      ensures [bit] == Pad(old(rest), 1) && rest == Tail(old(rest), 1)
    {
      hide ToBits, BytesBits, Shl, Serves, Tail;
      Refill();
      ghost var stream := ahead + BytesBits(src[pos..]);
      ServesTake(stream, rest, 1);
      TopBit(getbuf);
      TakeBits(getbuf, ahead, 1);
      bit := getbuf / 0x8000 % 2 == 1;
      assert [bit] == stream[..1];
      getbuf := Shl(getbuf, 1) % U32;
      getlen := getlen - 1;
      assert ahead[1..] + BytesBits(src[pos..]) == stream[1..];
      ahead, rest := ahead[1..], Tail(rest, 1);
    }

    method GetByte() returns (v: byte)
      requires Valid()
      modifies this
      ensures Valid()
      ensures ToBits(v, 8) == Pad(old(rest), 8) && rest == Tail(old(rest), 8)
    {
      hide ToBits, BytesBits, Shl, Serves, Tail;
      Refill();
      ghost var stream := ahead + BytesBits(src[pos..]);
      ServesTake(stream, rest, 8);
      WindowBytes(getbuf, ahead);
      TakeBits(getbuf, ahead, 8);
      v := getbuf / 256 % 256;
      assert ahead[..8] == stream[..8];
      getbuf := Shl(getbuf, 8) % U32;
      getlen := getlen - 8;
      assert ahead[8..] + BytesBits(src[pos..]) == stream[8..];
      ahead, rest := ahead[8..], Tail(rest, 8);
    }
  }

  lemma FirstByte(src: seq<byte>, pos: nat)
    requires pos < |src|
    ensures BytesBits(src[pos..]) == ToBits(src[pos], 8) + BytesBits(src[pos + 1..])
  {
    assert src[pos..][1..] == src[pos + 1..];
  }

  lemma NoBytes(src: seq<byte>)
    ensures BytesBits(src[|src|..]) == []
  {
  }
}
