/** The data the match finder keeps: a ring buffer with a mirrored start, hash
    chains through its slots, and the hash functions. Everything here is stated
    about text positions; a slot is a position modulo the size of the ring. */
module Nrv2bWindow {
  import opened Bytes
  import opened RingBuffer

  const HSIZE: nat := 16384
  const NIL2: int := 0xffff_ffff

  // ------------------------------------------------------------------- hashing

  function Xor(a: nat, b: nat): (r: nat)
  {
    if a == 0 && b == 0 then 0
    else 2 * Xor(a / 2, b / 2) + (if a % 2 == b % 2 then 0 else 1)
  }

  function Scramble(x: nat): (h: nat)
    ensures h < HSIZE
  {
    (0x9f5f * x) % 0x1_0000_0000 / 32 % HSIZE
  }

  /** HEAD3, in 32-bit arithmetic. */
  function Hash3(b0: byte, b1: byte, b2: byte): (h: nat)
    ensures h < HSIZE
  {
    Scramble(Xor(32 * Xor(32 * b0, b1), b2))
  }

  /** HEAD2: the two bytes do not overlap, so the exclusive or is a sum. */
  function Hash2(b0: byte, b1: byte): (h: nat)
    ensures h < 0x1_0000
  {
    b0 + 256 * b1
  }

  lemma {:induction false} XorCancel(a: nat, b: nat, c: nat)
    requires Xor(a, b) == Xor(a, c)
    ensures b == c
    decreases a + b + c
  {
    if a > 0 || b > 0 || c > 0 {
      XorParity(a, b);
      XorParity(a, c);
      XorCancel(a / 2, b / 2, c / 2);
    }
  }

  lemma XorParity(a: nat, b: nat)
    ensures Xor(a, b) / 2 == Xor(a / 2, b / 2)
    ensures Xor(a, b) % 2 == if a % 2 == b % 2 then 0 else 1
  {
  }

  /** Exclusive or with a byte leaves everything above the byte alone. */
  lemma XorHigh(a: nat, b: byte)
    ensures Xor(a, b) / 256 == a / 256
  {
    XorHalves(a, b, 8);
    HalveByte(a);
    HalveByte(b);
    HalveByte(Xor(a, b));
    XorZero(a / 256);
  }

  lemma {:induction false} XorHalves(a: nat, b: nat, n: nat)
    ensures Halve(Xor(a, b), n) == Xor(Halve(a, n), Halve(b, n))
  {
    if n > 0 {
      XorParity(a, b);
      XorHalves(a / 2, b / 2, n - 1);
    }
  }

  lemma {:induction false} XorZero(a: nat)
    ensures Xor(a, 0) == a
  {
    if a > 0 {
      XorZero(a / 2);
    }
  }

  /** Multiples of the hash factor by less than a byte stay away from multiples of
      2^19; the nearest is at a distance of 1894. */
  lemma FactorSpreads(d: int, m: int, e: int)
    requires 0 < d < 256 && -32 < e < 32
    ensures 0x9f5f * d != 0x80000 * m + e
  {
    var a, b := d / 13, d % 13;
    assert d == 13 * a + b && 0 <= a <= 19;
    var w := 6099 * a + 40799 * b;
    assert 0x9f5f * d == 0x80000 * a + w;
    // w stays clear of 0, of 0x80000, and of everything behind
    if b <= 9 {
      assert 32 <= w <= 0x80000 - 32;
    } else if b == 10 {
      assert 32 <= w <= 0x80000 - 32;
    } else if b == 11 {
      assert if a <= 12 then 32 <= w <= 0x80000 - 32 else 0x80000 + 32 <= w <= 0x100000 - 32;
    } else {
      assert if a <= 5 then 32 <= w <= 0x80000 - 32 else 0x80000 + 32 <= w <= 0x100000 - 32;
    }
    NotNearMultiple(w, m - a, e);
  }

  lemma NotNearMultiple(w: int, k: int, e: int)
    requires -32 < e < 32 && (32 <= w <= 0x80000 - 32 || 0x80000 + 32 <= w <= 0x100000 - 32)
    ensures w != 0x80000 * k + e
  {
  }

  /** The hash is made of bits 5 to 18 of the product, whether or not it overflowed. */
  lemma HashDigits(x: nat) returns (m: nat, r: nat)
    ensures 0x9f5f * x == 0x80000 * m + 32 * Scramble(x) + r && r < 32
  {
    var p := 0x9f5f * x;
    var u, v := p / 0x1_0000_0000, p % 0x1_0000_0000;
    var q := v / 32;
    m, r := 0x2000 * u + q / HSIZE, v % 32;
    assert p == 0x1_0000_0000 * u + v;
    assert v == 32 * q + r;
    assert q == HSIZE * (q / HSIZE) + q % HSIZE;
  }

  lemma ScrambleSeparates(x: nat, x': nat)
    requires x <= x' < x + 256
    requires Scramble(x) == Scramble(x')
    ensures x == x'
  {
    hide Scramble;
    var m, r := HashDigits(x);
    var m', r' := HashDigits(x');
    if x < x' {
      FactorSpreads(x' - x, m' - m, r' - r);
    }
  }

  /** Once two bytes agree, equal hashes mean that the third byte agrees too. */
  lemma Hash3ThirdByte(b0: byte, b1: byte, b2: byte, c2: byte)
    requires Hash3(b0, b1, b2) == Hash3(b0, b1, c2)
    ensures b2 == c2
  {
    hide Scramble, Xor;
    var y := 32 * Xor(32 * b0, b1);
    var x, x' := Xor(y, b2), Xor(y, c2);
    XorHigh(y, b2);
    XorHigh(y, c2);
    if x <= x' {
      ScrambleSeparates(x, x');
    } else {
      ScrambleSeparates(x', x);
    }
    XorCancel(y, b2, c2);
  }

  // -------------------------------------------------------------------- chains

  /** How many of the positions lo .. hi-1 have key k. */
  function Count(keys: seq<int>, lo: nat, hi: nat, k: int): (n: nat)
    requires hi <= |keys|
  {
    if hi <= lo then 0 else Count(keys, lo, hi - 1, k) + (if keys[hi - 1] == k then 1 else 0)
  }

  /** The last of the positions lo .. hi-1 that has key k, or -1. */
  function Latest(keys: seq<int>, lo: nat, hi: nat, k: int): (p: int)
    requires hi <= |keys|
    ensures p == -1 || (lo <= p < hi && keys[p] == k)
    ensures p == -1 <==> Count(keys, lo, hi, k) == 0
    ensures p >= 0 ==> Count(keys, lo, p, k) == Count(keys, lo, hi, k) - 1
  {
    if hi <= lo then -1 else if keys[hi - 1] == k then hi - 1 else Latest(keys, lo, hi - 1, k)
  }

  lemma {:induction false} KeysPrefix(keys: seq<int>, x: int, lo: nat, hi: nat, k: int)
    requires hi <= |keys|
    ensures Count(keys + [x], lo, hi, k) == Count(keys, lo, hi, k)
    ensures Latest(keys + [x], lo, hi, k) == Latest(keys, lo, hi, k)
    decreases hi
  {
    if hi > lo {
      KeysPrefix(keys, x, lo, hi - 1, k);
    }
  }

  lemma {:induction false} DropFirst(keys: seq<int>, lo: nat, hi: nat, k: int)
    requires lo < hi <= |keys|
    ensures Count(keys, lo, hi, k) == Count(keys, lo + 1, hi, k) + (if keys[lo] == k then 1 else 0)
    ensures Latest(keys, lo + 1, hi, k) == if Latest(keys, lo, hi, k) == lo then -1 else Latest(keys, lo, hi, k)
    decreases hi
  {
    if hi > lo + 1 {
      DropFirst(keys, lo, hi - 1, k);
    }
  }

  lemma {:induction false} LatestGap(keys: seq<int>, lo: nat, hi: nat, k: int, q: nat)
    requires hi <= |keys| && lo <= q < hi && Latest(keys, lo, hi, k) < q
    ensures keys[q] != k
    decreases hi
  {
    if q < hi - 1 {
      LatestGap(keys, lo, hi - 1, k, q);
    }
  }

  lemma {:induction false} CountJoin(keys: seq<int>, a: nat, b: nat, c: nat, k: int)
    requires a <= b <= c <= |keys|
    ensures Count(keys, a, c, k) == Count(keys, a, b, k) + Count(keys, b, c, k)
    decreases c
  {
    if c > b {
      CountJoin(keys, a, b, c - 1, k);
    }
  }

  /** The first position behind p, or lo if p is none. */
  function Behind(p: int, lo: nat): (q: nat)
  {
    if p < 0 then lo else p + 1
  }

  /** Behind the latest there is none. */
  lemma {:induction false} LatestCount(keys: seq<int>, lo: nat, hi: nat, k: int)
    requires lo <= hi <= |keys|
    ensures lo <= Behind(Latest(keys, lo, hi, k), lo) <= hi
    ensures Count(keys, Behind(Latest(keys, lo, hi, k), lo), hi, k) == 0
    decreases hi
  {
    if hi > lo && keys[hi - 1] != k {
      LatestCount(keys, lo, hi - 1, k);
    }
  }

  /** One link back along a chain: one more position counted. */
  lemma StepBack(keys: seq<int>, lo: nat, p: nat, hi: nat, k: int)
    requires lo <= p < hi <= |keys| && keys[p] == k
    ensures var q := Behind(Latest(keys, lo, p, k), lo); q <= hi && Count(keys, q, hi, k) == Count(keys, p + 1, hi, k) + 1
  {
    hide Latest;
    var q := Behind(Latest(keys, lo, p, k), lo);
    LatestCount(keys, lo, p, k);
    CountJoin(keys, q, p, hi, k);
    CountJoin(keys, p, p + 1, hi, k);
    assert Count(keys, p, p + 1, k) == 1;
  }

  /** Positions further back count more. */
  lemma {:induction false} CountFrom(keys: seq<int>, q: nat, p: nat, hi: nat, k: int)
    requires q <= p <= hi <= |keys|
    ensures Count(keys, q, hi, k) >= Count(keys, p, hi, k)
    ensures q < p && keys[q] == k ==> Count(keys, q, hi, k) > Count(keys, p, hi, k)
    decreases p - q
  {
    if q < p {
      DropFirst(keys, q, hi, k);
      CountFrom(keys, q + 1, p, hi, k);
    }
  }

  /** The chains of head3, succ3 and llen3 over the live positions lo .. |keys|-1:
      llen3 counts the live positions of each key, head3 leads to the newest one,
      and succ3 leads from each to the next older one. */
  ghost predicate Chained(head: seq<int>, succ: seq<int>, llen: seq<int>, keys: seq<int>, lo: nat, size: nat)
  {
    && size > 0 && |succ| >= size && |head| == |llen| == HSIZE && lo <= |keys|
    && (forall p :: 0 <= p < |keys| ==> 0 <= keys[p] < HSIZE)
    && Counted(llen, keys, lo)
    && Headed(head, keys, lo, size)
    && Linked(succ, keys, lo, size)
  }

  ghost predicate Counted(llen: seq<int>, keys: seq<int>, lo: nat)
  {
    forall k :: 0 <= k < |llen| ==> llen[k] == Count(keys, lo, |keys|, k)
  }

  ghost predicate Headed(head: seq<int>, keys: seq<int>, lo: nat, size: nat)
    requires size > 0
  {
    forall k :: 0 <= k < |head| && Latest(keys, lo, |keys|, k) >= 0
      ==> head[k] == Slot(Latest(keys, lo, |keys|, k), size)
  }

  ghost predicate Linked(succ: seq<int>, keys: seq<int>, lo: nat, size: nat)
    requires 0 < size <= |succ|
  {
    forall p :: lo <= p < |keys| && Latest(keys, lo, p, keys[p]) >= 0
      ==> succ[Slot(p, size)] == Slot(Latest(keys, lo, p, keys[p]), size)
  }

  /** The first n slots met from slot s on. */
  function Walk(succ: seq<int>, s: int, n: nat): (slots: seq<int>)
    decreases n
  {
    if n == 0 then []
    else if 0 <= s < |succ| then [s] + Walk(succ, succ[s], n - 1)
    else [s]
  }

  /** The live positions with key k, newest first, as slots. */
  function LiveSlots(keys: seq<int>, lo: nat, hi: nat, k: int, size: nat): (slots: seq<int>)
    requires hi <= |keys| && size > 0
  {
    if hi <= lo then []
    else if keys[hi - 1] == k then [Slot(hi - 1, size)] + LiveSlots(keys, lo, hi - 1, k, size)
    else LiveSlots(keys, lo, hi - 1, k, size)
  }

  /** The llen3[k] newest links of the chain for k are exactly the live positions with that
      hash, newest first. */
  lemma ChainIsLive(head: seq<int>, succ: seq<int>, llen: seq<int>, keys: seq<int>, lo: nat, size: nat, k: int)
    requires Chained(head, succ, llen, keys, lo, size) && 0 <= k < HSIZE
    ensures llen[k] >= 0 && Walk(succ, head[k], llen[k]) == LiveSlots(keys, lo, |keys|, k, size)
  {
    hide Walk, LiveSlots, Latest, Count;
    var p := Latest(keys, lo, |keys|, k);
    if p < 0 {
      NoneLive(keys, lo, |keys|, k, size);
      EmptyWalk(succ, head[k]);
    } else {
      WalkIsLive(succ, keys, lo, |keys|, k, size);
    }
  }

  lemma EmptyWalk(succ: seq<int>, s: int)
    ensures Walk(succ, s, 0) == []
  {
  }

  lemma {:induction false} NoneLive(keys: seq<int>, lo: nat, hi: nat, k: int, size: nat)
    requires hi <= |keys| && size > 0 && Latest(keys, lo, hi, k) < 0
    ensures LiveSlots(keys, lo, hi, k, size) == []
    decreases hi
  {
    if hi > lo {
      NoneLive(keys, lo, hi - 1, k, size);
    }
  }

  lemma {:induction false} WalkIsLive(succ: seq<int>, keys: seq<int>, lo: nat, hi: nat, k: int, size: nat)
    requires 0 < size <= |succ| && Linked(succ, keys, lo, size) && hi <= |keys| && Latest(keys, lo, hi, k) >= 0
    ensures Walk(succ, Slot(Latest(keys, lo, hi, k), size), Count(keys, lo, hi, k)) == LiveSlots(keys, lo, hi, k, size)
    decreases hi
  {
    hide Walk, Slot, LiveSlots, Latest, Count, Linked;
    LiveStep(keys, lo, hi, k, size);
    if keys[hi - 1] != k {
      WalkIsLive(succ, keys, lo, hi - 1, k, size);
    } else {
      WalkStep(succ, Slot(hi - 1, size), Count(keys, lo, hi, k));
      if Latest(keys, lo, hi - 1, k) >= 0 {
        LinkOf(succ, keys, lo, size, hi - 1);
        WalkIsLive(succ, keys, lo, hi - 1, k, size);
      } else {
        NoneLive(keys, lo, hi - 1, k, size);
        EmptyWalk(succ, succ[Slot(hi - 1, size)]);
      }
    }
  }

  lemma LinkOf(succ: seq<int>, keys: seq<int>, lo: nat, size: nat, p: nat)
    requires 0 < size <= |succ| && Linked(succ, keys, lo, size) && lo <= p < |keys| && Latest(keys, lo, p, keys[p]) >= 0
    ensures succ[Slot(p, size)] == Slot(Latest(keys, lo, p, keys[p]), size)
  {
    hide Latest, Slot, Count;
  }

  lemma LiveStep(keys: seq<int>, lo: nat, hi: nat, k: int, size: nat)
    requires hi <= |keys| && size > 0 && Latest(keys, lo, hi, k) >= 0
    ensures lo < hi
    ensures keys[hi - 1] != k ==>
              && Latest(keys, lo, hi, k) == Latest(keys, lo, hi - 1, k) && Count(keys, lo, hi, k) == Count(keys, lo, hi - 1, k)
              && LiveSlots(keys, lo, hi, k, size) == LiveSlots(keys, lo, hi - 1, k, size)
    ensures keys[hi - 1] == k ==>
              && Latest(keys, lo, hi, k) == hi - 1 && Count(keys, lo, hi, k) == Count(keys, lo, hi - 1, k) + 1
              && LiveSlots(keys, lo, hi, k, size) == [Slot(hi - 1, size)] + LiveSlots(keys, lo, hi - 1, k, size)
  {
  }

  lemma WalkStep(succ: seq<int>, s: int, n: nat)
    requires 0 <= s < |succ| && n > 0
    ensures Walk(succ, s, n) == [s] + Walk(succ, succ[s], n - 1)
  {
  }

  lemma ChainInsert(head: seq<int>, succ: seq<int>, llen: seq<int>, keys: seq<int>, lo: nat, size: nat, k: int)
    requires Chained(head, succ, llen, keys, lo, size)
    requires 0 <= k < HSIZE && |keys| - lo < size
    ensures var slot := Slot(|keys|, size);
            Chained(head[k := slot], succ[slot := head[k]], llen[k := llen[k] + 1], keys + [k], lo, size)
  {
    hide Counted, Headed, Linked, Slot;
    CountInsert(llen, keys, lo, k);
    HeadInsert(head, keys, lo, size, k);
    LinkInsert(head, succ, keys, lo, size, k);
  }

  lemma CountInsert(llen: seq<int>, keys: seq<int>, lo: nat, k: int)
    requires Counted(llen, keys, lo) && 0 <= k < |llen| && lo <= |keys|
    ensures Counted(llen[k := llen[k] + 1], keys + [k], lo)
  {
    forall j | 0 <= j < |llen| ensures llen[k := llen[k] + 1][j] == Count(keys + [k], lo, |keys + [k]|, j) {
      KeysPrefix(keys, k, lo, |keys|, j);
    }
  }

  lemma HeadInsert(head: seq<int>, keys: seq<int>, lo: nat, size: nat, k: int)
    requires size > 0 && Headed(head, keys, lo, size) && 0 <= k < |head| && lo <= |keys|
    ensures Headed(head[k := Slot(|keys|, size)], keys + [k], lo, size)
  {
    hide Slot, Count;
    var head', keys' := head[k := Slot(|keys|, size)], keys + [k];
    forall j | 0 <= j < |head| && Latest(keys', lo, |keys'|, j) >= 0
      ensures head'[j] == Slot(Latest(keys', lo, |keys'|, j), size)
    {
      KeysPrefix(keys, k, lo, |keys|, j);
    }
  }

  lemma LinkInsert(head: seq<int>, succ: seq<int>, keys: seq<int>, lo: nat, size: nat, k: int)
    requires 0 < size <= |succ| && |head| == HSIZE && lo <= |keys|
    requires Headed(head, keys, lo, size) && Linked(succ, keys, lo, size)
    requires 0 <= k < HSIZE && |keys| - lo < size
    ensures Linked(succ[Slot(|keys|, size) := head[k]], keys + [k], lo, size)
  {
    var cur, keys' := |keys|, keys + [k];
    hide Latest, Count, Slot;
    forall p | lo <= p <= cur && Latest(keys', lo, p, keys'[p]) >= 0
      ensures succ[Slot(cur, size) := head[k]][Slot(p, size)] == Slot(Latest(keys', lo, p, keys'[p]), size)
    {
      KeysPrefix(keys, k, lo, p, keys'[p]);
      if p < cur {
        SlotDistinct(p, cur, size);
        assert keys'[p] == keys[p];
      }
    }
  }

  /** Dropping the oldest position needs only its count adjusted: links to it are
      never followed again. */
  lemma ChainRemove(head: seq<int>, succ: seq<int>, llen: seq<int>, keys: seq<int>, lo: nat, size: nat)
    requires Chained(head, succ, llen, keys, lo, size) && lo < |keys|
    ensures llen[keys[lo]] > 0
    ensures Chained(head, succ, llen[keys[lo] := llen[keys[lo]] - 1], keys, lo + 1, size)
  {
    hide Counted, Headed, Linked, Slot;
    CountRemove(llen, keys, lo);
    HeadRemove(head, keys, lo, size);
    LinkRemove(succ, keys, lo, size);
  }

  lemma CountRemove(llen: seq<int>, keys: seq<int>, lo: nat)
    requires lo < |keys| && 0 <= keys[lo] < |llen| && Counted(llen, keys, lo)
    ensures llen[keys[lo]] > 0 && Counted(llen[keys[lo] := llen[keys[lo]] - 1], keys, lo + 1)
  {
    hide Count, Latest;
    DropFirst(keys, lo, |keys|, keys[lo]);
    forall j | 0 <= j < |llen| { DropFirst(keys, lo, |keys|, j); }
  }

  lemma HeadRemove(head: seq<int>, keys: seq<int>, lo: nat, size: nat)
    requires size > 0 && lo < |keys| && Headed(head, keys, lo, size)
    ensures Headed(head, keys, lo + 1, size)
  {
    hide Count, Latest, Slot;
    forall j | 0 <= j < |head| { DropFirst(keys, lo, |keys|, j); }
  }

  lemma LinkRemove(succ: seq<int>, keys: seq<int>, lo: nat, size: nat)
    requires 0 < size <= |succ| && lo < |keys| && Linked(succ, keys, lo, size)
    ensures Linked(succ, keys, lo + 1, size)
  {
    hide Count, Latest, Slot;
    forall p | lo + 1 <= p < |keys| { DropFirst(keys, lo, p, keys[p]); }
  }

  /** head2 leads to the newest live position of each two-byte key. */
  ghost predicate Indexed(head2: seq<int>, keys: seq<int>, lo: nat, size: nat)
  {
    && size > 0 && |head2| == 0x1_0000 && lo <= |keys|
    && (forall p :: 0 <= p < |keys| ==> 0 <= keys[p] < 0x1_0000)
    && (forall k :: 0 <= k < 0x1_0000 ==>
          var p := Latest(keys, lo, |keys|, k);
          head2[k] == if p >= 0 then Slot(p, size) else NIL2)
  }

  lemma IndexInsert(head2: seq<int>, keys: seq<int>, lo: nat, size: nat, k: int)
    requires Indexed(head2, keys, lo, size) && 0 <= k < 0x1_0000
    ensures Indexed(head2[k := Slot(|keys|, size)], keys + [k], lo, size)
  {
    var keys' := keys + [k];
    forall j | 0 <= j < 0x1_0000
      ensures var p := Latest(keys', lo, |keys'|, j);
              head2[k := Slot(|keys|, size)][j] == if p >= 0 then Slot(p, size) else NIL2
    {
      KeysPrefix(keys, k, lo, |keys|, j);
    }
  }

  lemma IndexRemove(head2: seq<int>, keys: seq<int>, lo: nat, size: nat)
    requires Indexed(head2, keys, lo, size) && lo < |keys| && |keys| - lo < size < NIL2
    ensures var k := keys[lo];
            Indexed(if head2[k] == Slot(lo, size) then head2[k := NIL2] else head2, keys, lo + 1, size)
  {
    var k := keys[lo];
    var head2' := if head2[k] == Slot(lo, size) then head2[k := NIL2] else head2;
    forall j | 0 <= j < 0x1_0000
      ensures var p := Latest(keys, lo + 1, |keys|, j);
              head2'[j] == if p >= 0 then Slot(p, size) else NIL2
    {
      DropFirst(keys, lo, |keys|, j);
      var q := Latest(keys, lo, |keys|, j);
      if j == k && q > lo {
        SlotDistinct(lo, q, size);
      }
    }
  }
}
