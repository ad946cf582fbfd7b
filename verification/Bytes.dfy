/** Bytes, powers of two, and the two positional notations the coders use:
    bits most significant first, and words stored little-endian. */
module Bytes {

  type byte = x: int | 0 <= x < 256

  const U32: int := 0x1_0000_0000

  /** C's `unsigned int`. */
  type u32 = x: int | 0 <= x < 0x1_0000_0000

  datatype Option<+T> = None | Some(value: T)

  function Pow2(n: nat): (r: nat)
    ensures r >= 1
  {
    if n == 0 then 1 else 2 * Pow2(n - 1)
  }

  /** Bits read as a number, most significant bit first. */
  function Value(bits: seq<bool>): (v: nat)
    ensures v < Pow2(|bits|)
  {
    if bits == [] then 0
    else 2 * Value(bits[..|bits| - 1]) + (if bits[|bits| - 1] then 1 else 0)
  }

  lemma ValueAppend(bits: seq<bool>, bit: bool)
    ensures Value(bits + [bit]) == 2 * Value(bits) + (if bit then 1 else 0)
  {
    assert (bits + [bit])[..|bits|] == bits;
  }

  /** The n low bits of v, most significant bit first. */
  function ToBits(v: nat, n: nat): (bits: seq<bool>)
    ensures |bits| == n
  {
    if n == 0 then [] else ToBits(v / 2, n - 1) + [v % 2 == 1]
  }

  lemma {:induction false} ToBitsOfValue(bits: seq<bool>)
    ensures ToBits(Value(bits), |bits|) == bits
  {
    if bits != [] {
      ToBitsOfValue(bits[..|bits| - 1]);
    }
  }

  /** Bit i of the notation is the digit of weight 2^(n-1-i). */
  lemma {:induction false} ToBitsDigit(v: nat, n: nat, i: nat)
    requires i < n
    ensures ToBits(v, n)[i] == ((v / Pow2(n - 1 - i)) % 2 == 1)
  {
    if i < n - 1 {
      ToBitsDigit(v / 2, n - 1, i);
      HalveThenDivide(v, Pow2(n - 2 - i));
    }
  }

  lemma HalveThenDivide(v: nat, d: nat)
    requires d >= 1
    ensures v / 2 / d == v / (2 * d)
  {
    var q, r := v / (2 * d), v % (2 * d);
    assert v == 2 * (d * q) + r;
    assert v / 2 == d * q + r / 2;
    assert r / 2 < d;
    QuotientUnique(v / 2, d, q, r / 2);
  }

  lemma DivideThenHalve(v: nat, d: nat)
    requires d >= 1
    ensures v / d / 2 == v / (2 * d)
  {
    var q, r := v / d, v % d;
    assert v == d * q + r;
    var h, o := q / 2, q % 2;
    assert d * q == d * (2 * h + o) == 2 * d * h + d * o;
    assert d * o == if o == 0 then 0 else d;
    QuotientUnique(v, 2 * d, h, d * o + r);
  }

  lemma MulAtLeast(d: int, x: int)
    requires d > 0 && x >= 1
    ensures d * x >= d
  {
  }

  lemma QuotientUnique(v: int, d: int, q: int, r: int)
    requires d > 0 && 0 <= r < d && v == d * q + r
    ensures v / d == q && v % d == r
  {
    var q', r' := v / d, v % d;
    assert v == d * q' + r';
    assert d * (q - q') == d * q - d * q';
    if q > q' {
      MulAtLeast(d, q - q');
      assert false;
    } else if q < q' {
      MulAtLeast(d, q' - q);
      assert false;
    }
  }

  function Zeros(n: nat): (z: seq<bool>)
    ensures |z| == n && forall i :: 0 <= i < n ==> !z[i]
  {
    if n == 0 then [] else Zeros(n - 1) + [false]
  }

  /** The first n bits, filled up with zeros when there are fewer. */
  function Pad(bits: seq<bool>, n: nat): (r: seq<bool>)
    ensures |r| == n
    ensures forall i :: 0 <= i < n ==> r[i] == (i < |bits| && bits[i])
  {
    if |bits| >= n then bits[..n] else bits + Zeros(n - |bits|)
  }

  /** The n low bytes of v, least significant byte first. */
  function LeBytes(v: nat, n: nat): (bytes: seq<byte>)
    ensures |bytes| == n
  {
    if n == 0 then [] else [v % 256] + LeBytes(v / 256, n - 1)
  }

  function LeValue(bytes: seq<byte>): (v: nat)
  {
    if bytes == [] then 0 else bytes[0] + 256 * LeValue(bytes[1..])
  }

  lemma NextPow2(n: nat)
    ensures Pow2(n + 1) == 2 * Pow2(n)
  {
  }

  lemma Pow2Byte(n: nat)
    ensures Pow2(n + 8) == 256 * Pow2(n)
  {
    hide Pow2;
    NextPow2(n);
    NextPow2(n + 1);
    NextPow2(n + 2);
    NextPow2(n + 3);
    NextPow2(n + 4);
    NextPow2(n + 5);
    NextPow2(n + 6);
    NextPow2(n + 7);
  }

  lemma {:induction false} LeValueOfLeBytes(v: nat, n: nat)
    requires v < Pow2(8 * n)
    ensures LeValue(LeBytes(v, n)) == v
  {
    if n > 0 {
      Pow2Byte(8 * n - 8);
      LeValueOfLeBytes(v / 256, n - 1);
      assert LeBytes(v, n)[1..] == LeBytes(v / 256, n - 1);
    }
  }

  /** Four bytes hold any 32-bit size. */
  lemma SizeReadsBack(n: nat)
    requires n < U32
    ensures LeValue(LeBytes(n, 4)) == n
  {
    hide LeBytes, LeValue;
    Pow2Byte(0);
    Pow2Byte(8);
    Pow2Byte(16);
    Pow2Byte(24);
    LeValueOfLeBytes(n, 4);
  }

  /** v shifted right by k bytes. */
  function ShiftBytes(v: nat, k: nat): (r: nat)
  {
    if k == 0 then v else ShiftBytes(v / 256, k - 1)
  }

  /** a halved n times: a >> n. */
  function Halve(a: nat, n: nat): nat
  {
    if n == 0 then a else Halve(a / 2, n - 1)
  }

  lemma HalveFour(a: nat, n: nat)
    ensures Halve(a, n + 4) == Halve(a / 16, n)
  {
    assert Halve(a, n + 4) == Halve(a / 2, n + 3) == Halve(a / 4, n + 2);
    assert Halve(a / 4, n + 2) == Halve(a / 8, n + 1) == Halve(a / 16, n);
  }

  lemma HalveByte(a: nat)
    ensures Halve(a, 8) == a / 256
  {
    HalveFour(a, 4);
    HalveFour(a / 16, 0);
  }

  /** All parts, one after the other. */
  function Concat(parts: seq<seq<byte>>): (all: seq<byte>)
  {
    if parts == [] then [] else Concat(parts[..|parts| - 1]) + parts[|parts| - 1]
  }

  lemma LastDigit(v: nat, n: nat)
    requires n > 0
    ensures ToBits(v, n) == ToBits(v / 2, n - 1) + [v % 2 == 1]
  {
  }

  lemma EmptyDigits(v: nat)
    ensures ToBits(v, 0) == []
  {
  }

  lemma ModHalves(x: nat, d: nat)
    requires d >= 1
    ensures x % (2 * d) / 2 == x / 2 % d && x % (2 * d) % 2 == x % 2
  {
    var q, r := x / (2 * d), x % (2 * d);
    assert x == 2 * (d * q) + r;
    QuotientUnique(x / 2, d, q, r / 2);
  }

  /** The low digits of a number. */
  lemma {:induction false} ValueOfToBits(v: nat, n: nat)
    ensures Value(ToBits(v, n)) == v % Pow2(n)
  {
    if n > 0 {
      hide Pow2, Value, ToBits;
      ValueOfToBits(v / 2, n - 1);
      LastDigit(v, n);
      ValueAppend(ToBits(v / 2, n - 1), v % 2 == 1);
      NextPow2(n - 1);
      ModHalves(v, Pow2(n - 1));
    }
  }

  lemma Regroup(a: seq<byte>, b: seq<byte>, c: seq<byte>)
    ensures a + b + c == a + (b + c) && (a + b + c)[|a|..] == b + c
  {
  }
}
