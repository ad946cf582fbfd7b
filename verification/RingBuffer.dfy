/** The sliding window that both compressors keep: text stored modulo a ring size, and
    copying from a distance back. */
module RingBuffer {
  import opened Bytes

  // --------------------------------------------------------------------- slots

  /** Position p modulo the ring size. */
  function Slot(p: nat, size: nat): (r: nat)
    requires size > 0
    ensures r < size
  {
    if p < size then p else Slot(p - size, size)
  }

  lemma {:induction false} SlotAdd(p: nat, i: nat, size: nat)
    requires 0 <= i <= size && size > 0
    ensures Slot(p + i, size) == if Slot(p, size) + i < size then Slot(p, size) + i else Slot(p, size) + i - size
    decreases p
  {
    if p >= size {
      SlotAdd(p - size, i, size);
    } else if p + i >= size {
      assert Slot(p + i - size, size) == p + i - size || i == size;
    }
  }

  lemma SlotDistinct(p: nat, q: nat, size: nat)
    requires p < q < p + size
    ensures Slot(p, size) != Slot(q, size)
  {
    SlotAdd(p, q - p, size);
  }

  /** swd_pos2off recovers the distance from two slots. */
  lemma SlotDistance(p: nat, q: nat, size: nat)
    requires p < q < p + size
    ensures var a, b := Slot(p, size), Slot(q, size); q - p == if b > a then b - a else size - (a - b)
  {
    SlotAdd(p, q - p, size);
  }

  /** Where the window of the last `size` positions before hi begins. */
  function Low(hi: nat, size: nat): (lo: nat)
    ensures lo <= hi && hi - lo <= size
  {
    if hi <= size then 0 else hi - size
  }

  /** x modulo size, also for what comes out at most one ring short of zero. */
  function Mask(x: int, size: nat): (r: nat)
    requires 0 <= x + size < 3 * size
    ensures r < size
  {
    if x < 0 then x + size else if x < size then x else x - size
  }

  lemma NextSlot(p: nat, size: nat)
    requires size > 1
    ensures Mask(Slot(p, size) + 1, size) == Slot(p + 1, size)
  {
    SlotAdd(p, 1, size);
  }

  lemma BackSlot(p: nat, d: nat, size: nat)
    requires 1 <= d <= size && d <= p
    ensures Mask(Slot(p, size) - d, size) == Slot(p - d, size)
  {
    SlotAdd(p - d, d, size);
  }

  // ---------------------------------------------------------------------- ring

  /** The ring holds text[lo..hi]; its first f slots are mirrored behind its end. */
  ghost predicate Ring(b: seq<byte>, text: seq<byte>, lo: nat, hi: nat, size: nat, f: nat)
  {
    && f < size && |b| >= size + f && lo <= hi <= |text| && hi - lo <= size
    && (forall q :: lo <= q < hi ==> b[Slot(q, size)] == text[q])
    && (forall q :: lo <= q < hi && q >= size && Slot(q, size) < f ==> b[size + Slot(q, size)] == text[q])
  }

  /** Reading on from the slot of p, even past the end of the ring, reads the text. */
  lemma RingRead(b: seq<byte>, text: seq<byte>, lo: nat, hi: nat, size: nat, f: nat, p: nat, i: nat)
    requires Ring(b, text, lo, hi, size, f)
    requires lo <= p && p + i < hi && i <= f
    ensures Slot(p, size) + i < |b| && b[Slot(p, size) + i] == text[p + i]
  {
    SlotAdd(p, i, size);
    if Slot(p, size) + i >= size {
      SlotSmall(p, size);
    }
  }

  lemma SlotSmall(p: nat, size: nat)
    requires size > 0
    ensures Slot(p, size) <= p
    ensures p < size ==> Slot(p, size) == p
  {
  }

  /** Writing the next byte gives up the oldest one. */
  lemma RingWrite(b: seq<byte>, b': seq<byte>, text: seq<byte>, lo: nat, hi: nat, size: nat, f: nat, lo': nat)
    requires Ring(b, text, lo, hi, size, f) && hi < |text|
    requires lo <= lo' <= hi && hi + 1 - lo' <= size
    requires var slot := Slot(hi, size);
             var written := b[slot := text[hi]];
             b' == if slot < f then written[size + slot := text[hi]] else written
    ensures Ring(b', text, lo', hi + 1, size, f)
  {
    hide Slot;
    forall q | lo' <= q < hi + 1
      ensures b'[Slot(q, size)] == text[q]
      ensures q >= size && Slot(q, size) < f ==> b'[size + Slot(q, size)] == text[q]
    {
      if q < hi {
        SlotDistinct(q, hi, size);
      }
    }
  }

  ghost predicate Same(text: seq<byte>, p: nat, q: nat, n: nat)
  {
    p + n <= |text| && q + n <= |text| && text[p..p + n] == text[q..q + n]
  }

  lemma RingShrink(b: seq<byte>, text: seq<byte>, lo: nat, hi: nat, size: nat, f: nat, lo': nat)
    requires Ring(b, text, lo, hi, size, f) && lo <= lo' <= hi
    ensures Ring(b, text, lo', hi, size, f)
  {
  }

  lemma SameAt(text: seq<byte>, p: nat, q: nat, n: nat, i: nat)
    requires Same(text, p, q, n) && i < n
    ensures text[p + i] == text[q + i]
  {
    assert text[p + i] == text[p..p + n][i] == text[q..q + n][i];
  }

  lemma SameLess(text: seq<byte>, p: nat, q: nat, n: nat, m: nat)
    requires Same(text, p, q, n) && m <= n
    ensures Same(text, p, q, m)
  {
    assert text[p..p + m] == text[p..p + n][..m];
    assert text[q..q + m] == text[q..q + n][..m];
  }

  lemma SameEnds(text: seq<byte>, p: nat, q: nat, n: nat)
    requires p + n < |text| && q + n < |text| && text[p + n] != text[q + n]
    ensures !Same(text, p, q, n + 1)
  {
    if Same(text, p, q, n + 1) {
      SameAt(text, p, q, n + 1, n);
    }
  }

  lemma SameExtend(text: seq<byte>, p: nat, q: nat, n: nat)
    requires Same(text, p, q, n) && p + n < |text| && q + n < |text| && text[p + n] == text[q + n]
    ensures Same(text, p, q, n + 1)
  {
    assert text[p..p + n + 1] == text[p..p + n] + [text[p + n]];
    assert text[q..q + n + 1] == text[q..q + n] + [text[q + n]];
  }

  // ------------------------------------------------------------------- copying

  /** Byte-by-byte copy, so that an offset shorter than the length repeats itself. */
  function CopyBytes(out: seq<byte>, off: nat, n: nat): (r: seq<byte>)
    requires 1 <= off <= |out|
    ensures |r| == |out| + n
    decreases n
  {
    if n == 0 then out else CopyBytes(out + [out[|out| - off]], off, n - 1)
  }

  lemma CopyNone(out: seq<byte>, off: nat)
    requires 1 <= off <= |out|
    ensures CopyBytes(out, off, 0) == out
  {
  }

  lemma CopyOne(out: seq<byte>, off: nat, n: nat)
    requires 1 <= off <= |out| && n > 0
    ensures CopyBytes(out, off, n) == CopyBytes(out + [out[|out| - off]], off, n - 1)
  {
  }

  /** Copying a true match, even one that overlaps itself, reproduces the text. */
  lemma {:induction false} CopyReproduces(text: seq<byte>, p: nat, off: nat, n: nat)
    requires 1 <= off <= p && Same(text, p - off, p, n)
    ensures CopyBytes(text[..p], off, n) == text[..p + n]
    decreases n
  {
    if n > 0 {
      assert text[p - off] == text[p - off..p - off + n][0] == text[p..p + n][0] == text[p];
      assert text[..p] + [text[p - off]] == text[..p + 1];
      assert text[p + 1 - off..p - off + n] == text[p - off..p - off + n][1..];
      assert text[p + 1..p + n] == text[p..p + n][1..];
      CopyReproduces(text, p + 1, off, n - 1);
    }
  }

  /** The definition of CopyBytes, one step. */
  lemma CopyStep(out: seq<byte>, off: nat, n: nat)
    requires 1 <= off <= |out|
    ensures CopyBytes(out, off, n + 1) == CopyBytes(out + [out[|out| - off]], off, n) && CopyBytes(out, off, 0) == out
  {
  }
}
