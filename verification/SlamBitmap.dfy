/** The bitmap in which a SLAM client notes what it has received: eight packets to a byte. */
module SlamBitmap {
  import opened Bytes

  /** (x >> j) & 1 */
  predicate BitOf(x: nat, j: nat)
  {
    if j == 0 then x % 2 == 1 else BitOf(x / 2, j - 1)
  }

  /** x with bit j set or cleared. */
  function WithBit(x: nat, j: nat, v: bool): (r: nat)
  {
    if j == 0 then x - x % 2 + (if v then 1 else 0) else 2 * WithBit(x / 2, j - 1, v) + x % 2
  }

  lemma {:induction false} WithBitAt(x: nat, j: nat, v: bool, i: nat)
    ensures BitOf(WithBit(x, j, v), i) == if i == j then v else BitOf(x, i)
    decreases j
  {
    hide BitOf, WithBit;
    WithBitParts(x, j, v);
    BitOfParts(WithBit(x, j, v), i);
    BitOfParts(x, i);
    if j > 0 && i > 0 {
      WithBitAt(x / 2, j - 1, v, i - 1);
    }
  }

  lemma BitOfParts(x: nat, i: nat)
    ensures BitOf(x, i) == if i == 0 then x % 2 == 1 else BitOf(x / 2, i - 1)
  {
  }

  lemma WithBitParts(x: nat, j: nat, v: bool)
    ensures WithBit(x, j, v) / 2 == if j == 0 then x / 2 else WithBit(x / 2, j - 1, v)
    ensures WithBit(x, j, v) % 2 == if j > 0 then x % 2 else if v then 1 else 0
  {
  }

  lemma {:induction false} WithBitSmall(x: nat, j: nat, n: nat, v: bool)
    requires x < Pow2(n) && j < n
    ensures WithBit(x, j, v) < Pow2(n)
  {
    NextPow2(n - 1);
    hide Pow2;
    if j > 0 {
      WithBitSmall(x / 2, j - 1, n - 1, v);
      Doubled(x, WithBit(x / 2, j - 1, v), Pow2(n - 1));
    } else {
      Doubled(x, x / 2, Pow2(n - 1));
    }
  }

  lemma Doubled(x: nat, w: nat, half: nat)
    requires x < 2 * half
    ensures x / 2 < half && x - x % 2 == x / 2 * 2
    ensures w < half ==> 2 * w + 1 < 2 * half
  {
  }

  function ByteWithBit(x: byte, j: nat, v: bool): (r: byte)
    requires j < 8
  {
    Pow2Byte(0);
    WithBitSmall(x, j, 8, v);
    WithBit(x, j, v)
  }

  function Bit(b: seq<byte>, n: nat): (v: bool)
    requires n / 8 < |b|
  {
    BitOf(b[n / 8], n % 8)
  }

  function SetBit(b: seq<byte>, n: nat, v: bool): (b': seq<byte>)
    requires n / 8 < |b|
    ensures |b'| == |b|
  {
    b[n / 8 := ByteWithBit(b[n / 8], n % 8, v)]
  }

  /** The first n bits. */
  function View(b: seq<byte>, n: nat): (bits: seq<bool>)
    requires n <= 8 * |b|
    ensures |bits| == n && forall i :: 0 <= i < n ==> bits[i] == Bit(b, i)
  {
    seq(n, i requires 0 <= i < n => Bit(b, i))
  }

  lemma SetBitView(b: seq<byte>, count: nat, n: nat, v: bool)
    requires n < count <= 8 * |b|
    ensures View(SetBit(b, n, v), count) == View(b, count)[n := v]
  {
    hide BitOf, WithBit;
    var b' := SetBit(b, n, v);
    forall i | 0 <= i < count ensures Bit(b', i) == if i == n then v else Bit(b, i) {
      if i / 8 == n / 8 {
        WithBitAt(b[n / 8], n % 8, v, i % 8);
      }
    }
  }

  lemma {:induction false} BitOfZero(j: nat)
    ensures !BitOf(0, j)
  {
    if j > 0 {
      BitOfZero(j - 1);
    }
  }
}
