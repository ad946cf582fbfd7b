/** The Internet checksum, and adding up checksums of pieces (section 2 of RFC 1071). */
module Checksum {
  import opened Bytes

  const ONES: int := 0xFFFF

  /** What the bytes add up to; those at odd positions count 256 fold. */
  function Weight(data: seq<byte>, odd: bool): (w: nat)
    decreases data
  {
    if data == [] then 0 else (if odd then 256 * data[0] else data[0]) + Weight(data[1..], !odd)
  }

  /** The one's complement value of a sum: zero only for zero. */
  function Canon(x: nat): (c: nat)
    ensures c <= ONES && (c == 0 <==> x == 0)
  {
    if x == 0 then 0 else 1 + (x - 1) % ONES
  }

  /** One's complement addition of two 16 bit values. */
  function AddOnes(a: nat, b: nat): (s: nat)
    requires a <= ONES && b <= ONES
    ensures s <= ONES
  {
    if a + b > ONES then a + b - ONES else a + b
  }

  /** The checksum of a piece of data. */
  function ChecksumOf(data: seq<byte>): (c: nat)
    ensures c <= ONES
  {
    ONES - Canon(Weight(data, false))
  }

  /** The checksum of one byte, and of two: the first counts once, the second 256 fold. */
  lemma ChecksumOfFew(x: byte, y: byte)
    ensures ChecksumOf([]) == 0xFFFF && ChecksumOf([x]) == 0xFFFF - x && ChecksumOf([x, y]) == 0xFFFF - (x + 256 * y)
  {
    assert [x][1..] == [] && [x, y][1..] == [y] && [y][1..] == [];
    assert Weight([], true) == 0 && Weight([], false) == 0;
    assert Weight([y], true) == 256 * y;
  }

  lemma CanonUnique(x: nat, c: nat, k: int)
    requires x >= 1 && 1 <= c <= ONES && x == c + ONES * k
    ensures Canon(x) == c
  {
    QuotientUnique(x - 1, ONES, k, c - 1);
  }

  lemma CanonForm(x: nat) returns (k: nat)
    ensures x == Canon(x) + ONES * k
  {
    k := if x == 0 then 0 else (x - 1) / ONES;
  }

  /** Adding canonical values adds what they stand for. */
  lemma AddCanon(x: nat, y: nat)
    ensures AddOnes(Canon(x), Canon(y)) == Canon(x + y)
  {
    hide Canon;
    var i := CanonForm(x);
    var j := CanonForm(y);
    var a, b := Canon(x), Canon(y);
    if x + y > 0 {
      CanonUnique(x + y, AddOnes(a, b), i + j + (if a + b > ONES then 1 else 0));
    }
  }

  lemma CanonSmall(x: nat)
    requires x <= ONES
    ensures Canon(x) == x
  {
  }

  function Swap(v: nat): (r: nat)
    requires v <= ONES
    ensures r <= ONES
  {
    v % 256 * 256 + v / 256
  }

  /** Exchanging the bytes is multiplication by 256. */
  lemma SwapCanon(x: nat)
    ensures Swap(Canon(x)) == Canon(256 * x)
  {
    hide Canon;
    if x > 0 {
      var k := CanonForm(x);
      var v := Canon(x);
      var h, l := v / 256, v % 256;
      assert v == 256 * h + l;
      assert 256 * x == Swap(v) + ONES * (h + 256 * k);
      CanonUnique(256 * x, Swap(v), h + 256 * k);
    }
  }

  /** Starting at an odd position multiplies the weight by 256, up to multiples of 0xFFFF. */
  lemma {:induction false} WeightShifts(data: seq<byte>, odd: bool) returns (k: int)
    ensures 256 * Weight(data, odd) == Weight(data, !odd) + ONES * k
    ensures Weight(data, odd) == 0 <==> Weight(data, !odd) == 0
    decreases data
  {
    if data == [] {
      k := 0;
    } else {
      k := WeightShifts(data[1..], !odd);
      k := k + (if odd then data[0] else 0);
    }
  }

  lemma OddWeight(data: seq<byte>)
    ensures Canon(Weight(data, true)) == Canon(256 * Weight(data, false))
  {
    hide Canon, Weight;
    var k := WeightShifts(data, false);
    var w := Weight(data, true);
    if w > 0 {
      var j := CanonForm(w);
      CanonUnique(256 * Weight(data, false), Canon(w), j + k);
    }
  }

  lemma {:induction false} WeightJoin(a: seq<byte>, b: seq<byte>, odd: bool)
    ensures Weight(a + b, odd) == Weight(a, odd) + Weight(b, odd != (|a| % 2 == 1))
    decreases a
  {
    if a == [] {
      assert a + b == b;
    } else {
      assert (a + b)[1..] == a[1..] + b;
      WeightJoin(a[1..], b, !odd);
    }
  }

  // ------------------------------------------------------------------ the program

  /** ipchksum, byte by byte with the carry wrapped around. */
  method IpChecksum(data: seq<byte>) returns (r: nat)
    ensures r == ChecksumOf(data)
  {
    hide Canon, Weight;
    var sum := 0;
    var i := 0;
    EmptyWeight();
    assert data[..0] == [];
    while i < |data|
      invariant 0 <= i <= |data| && sum == Canon(Weight(data[..i], false)) <= ONES
    {
      var value: nat := data[i];
      if i % 2 == 1 {
        value := value * 256;
      }
      assert data[..i + 1] == data[..i] + [data[i]];
      WeightJoin(data[..i], [data[i]], false);
      OneWeight(data[i], i % 2 == 1);
      AddCanon(Weight(data[..i], false), value);
      CanonSmall(value);
      sum := sum + value;
      if sum > 0xFFFF {
        sum := (sum + sum / 0x1_0000) % 0x1_0000;
      }
      i := i + 1;
    }
    assert data[..i] == data;
    r := 0xFFFF - sum;
  }

  lemma EmptyWeight()
    ensures Weight([], false) == 0 && Canon(0) == 0
  {
  }

  lemma OneWeight(x: byte, odd: bool)
    ensures Weight([x], odd) == if odd then 256 * x else x
  {
    assert [x][1..] == [];
  }

  /** add_ipchksums: straight arithmetic on two checksums, the second one of data that
      begins at the given offset. */
  function AddChecksums(offset: nat, sum: nat, new_: nat): (r: nat)
    requires sum <= ONES && new_ <= ONES
    ensures r <= ONES
  {
    var a, b := ONES - sum, ONES - new_;
    ONES - AddOnes(a, if offset % 2 == 1 then Swap(b) else b)
  }

  /** The checksum of a whole from those of its parts, exactly, odd lengths included. */
  lemma ChecksumOfJoin(a: seq<byte>, b: seq<byte>)
    ensures AddChecksums(|a|, ChecksumOf(a), ChecksumOf(b)) == ChecksumOf(a + b)
  {
    hide Canon, Weight, Swap, AddOnes;
    WeightJoin(a, b, false);
    if |a| % 2 == 1 {
      SwapCanon(Weight(b, false));
      OddWeight(b);
      AddCanon(Weight(a, false), Weight(b, true));
    } else {
      AddCanon(Weight(a, false), Weight(b, false));
    }
  }

  /** A checksum of 0xFFFF means that there is nothing but zeros; 0 stands for any other
      multiple of 0xFFFF. */
  lemma {:induction false} ChecksumOfZeros(data: seq<byte>)
    ensures ChecksumOf(data) == ONES <==> forall i :: 0 <= i < |data| ==> data[i] == 0
  {
    ZeroWeight(data, false);
  }

  lemma {:induction false} ZeroWeight(data: seq<byte>, odd: bool)
    ensures Weight(data, odd) == 0 <==> forall i :: 0 <= i < |data| ==> data[i] == 0
    decreases data
  {
    if data != [] {
      ZeroWeight(data[1..], !odd);
      assert data == [data[0]] + data[1..];
    }
  }
}
