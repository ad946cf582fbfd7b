/** Which tokens the NRV2B compressor chooses: the matches it finds, unless a match that
    begins a little later promises more. */
module Nrv2bChoice {
  import opened Bytes
  import opened Nrv2bTokens
  import opened Nrv2bCost
  import opened Nrv2bEncoder
  import opened RingBuffer
  import opened Nrv2bSearch

  /** The match found at pos cannot be coded, or costs more than literals. */
  predicate TooShort(mLen: nat, mOff: nat)
  {
    mLen < 2 || (mLen == 2 && mOff > M2_MAX_OFFSET)
  }

  /** Nothing worth copying was found at x. */
  ghost predicate Plain(text: seq<byte>, x: nat)
  {
    exists len, off :: Found(text, x, len, off) && TooShort(len, off)
  }

  /** By the compressor's own estimate, a match at pos is worth more than one at x, with literals
      in between: each byte it reaches further counts five bits, each literal costs nine. */
  predicate Outweighs(x: nat, len: nat, off: nat, pos: nat, mLen: nat, mOff: nat, last: nat)
  {
    && x < pos && off >= 1 && mOff >= 1 && !TooShort(len, off) && !TooShort(mLen, mOff)
    && 4 * (pos - x) + Estimate(mLen, mOff, last) < Estimate(len, off, last) + 5 * (mLen - len)
  }

  /** What was found at x has been given up for the match at pos. */
  ghost predicate PutOff(text: seq<byte>, x: nat, pos: nat, mLen: nat, mOff: nat, last: nat)
  {
    exists len, off :: Found(text, x, len, off) && Outweighs(x, len, off, pos, mLen, mOff, last)
  }

  /** The positions of a run of literals, with the match found behind it. */
  ghost predicate Pending(text: seq<byte>, from: nat, pos: nat, mLen: nat, mOff: nat, last: nat)
  {
    forall x :: from <= x < pos ==> Plain(text, x) || PutOff(text, x, pos, mLen, mOff, last)
  }

  // ----------------------------------------------------------------- one step on

  lemma PlainHere(text: seq<byte>, x: nat, len: nat, off: nat)
    requires Found(text, x, len, off) && TooShort(len, off)
    ensures Plain(text, x)
  {
  }

  lemma PutOffHere(text: seq<byte>, x: nat, len: nat, off: nat, pos: nat, mLen: nat, mOff: nat, last: nat)
    requires Found(text, x, len, off) && Outweighs(x, len, off, pos, mLen, mOff, last)
    ensures PutOff(text, x, pos, mLen, mOff, last)
  {
  }

  /** Giving up a match for a third one, because the second was given up for it. */
  lemma PutOffAgain(text: seq<byte>, x: nat, pos: nat, mLen: nat, mOff: nat, last: nat, pos': nat, cLen: nat, cOff: nat)
    requires PutOff(text, x, pos, mLen, mOff, last) && Outweighs(pos, mLen, mOff, pos', cLen, cOff, last)
    ensures PutOff(text, x, pos', cLen, cOff, last)
  {
    hide Found, Estimate;
    var len, off :| Found(text, x, len, off) && Outweighs(x, len, off, pos, mLen, mOff, last);
    PutOffHere(text, x, len, off, pos', cLen, cOff, last);
  }

  lemma NotPutOff(text: seq<byte>, x: nat, pos: nat, mLen: nat, mOff: nat, last: nat)
    requires TooShort(mLen, mOff)
    ensures !PutOff(text, x, pos, mLen, mOff, last)
  {
  }

  /** A literal more, since nothing worth copying was found. */
  lemma PendingLiteral(text: seq<byte>, from: nat, pos: nat, mLen: nat, mOff: nat, last: nat, cLen: nat, cOff: nat)
    requires from <= pos && Pending(text, from, pos, mLen, mOff, last) && Found(text, pos, mLen, mOff) && TooShort(mLen, mOff)
    ensures Pending(text, from, pos + 1, cLen, cOff, last)
  {
    hide Found, PutOff, Plain;
    PlainHere(text, pos, mLen, mOff);
    forall x | from <= x < pos + 1 ensures Plain(text, x) {
      NotPutOff(text, x, pos, mLen, mOff, last);
    }
  }

  /** A lazy match is taken. */
  lemma PendingLazy(text: seq<byte>, from: nat, pos: nat, mLen: nat, mOff: nat, last: nat, ahead: nat, cLen: nat, cOff: nat)
    requires from <= pos && Pending(text, from, pos, mLen, mOff, last) && Found(text, pos, mLen, mOff)
    requires Outweighs(pos, mLen, mOff, pos + ahead, cLen, cOff, last)
    requires Pending(text, pos + 1, pos + ahead, cLen, cOff, last)
    ensures Pending(text, from, pos + ahead, cLen, cOff, last)
  {
    hide Found, PutOff, Plain, Outweighs;
    forall x | from <= x < pos + ahead ensures Plain(text, x) || PutOff(text, x, pos + ahead, cLen, cOff, last) {
      if x < pos {
        if !Plain(text, x) {
          PutOffAgain(text, x, pos, mLen, mOff, last, pos + ahead, cLen, cOff);
        }
      } else if x == pos {
        PutOffHere(text, x, mLen, mOff, pos + ahead, cLen, cOff, last);
      }
    }
  }

  /** A match one ahead that did not outweigh the first is itself outweighed by one two ahead
      that does. */
  lemma PendingBetween(text: seq<byte>, pos: nat, mLen: nat, mOff: nat, last: nat, bLen: nat, bOff: nat, cLen: nat, cOff: nat)
    requires Found(text, pos + 1, bLen, bOff) && !Outweighs(pos, mLen, mOff, pos + 1, bLen, bOff, last)
    requires Outweighs(pos, mLen, mOff, pos + 2, cLen, cOff, last)
    ensures Pending(text, pos + 1, pos + 2, cLen, cOff, last)
  {
    hide Found, Estimate, PutOff, Plain;
    if TooShort(bLen, bOff) {
      PlainHere(text, pos + 1, bLen, bOff);
    } else {
      FoundOffset(text, pos + 1, bLen, bOff);
      PutOffHere(text, pos + 1, bLen, bOff, pos + 2, cLen, cOff, last);
    }
  }

  lemma FoundOffset(text: seq<byte>, x: nat, len: nat, off: nat)
    requires Found(text, x, len, off) && !TooShort(len, off)
    ensures off >= 1
  {
  }

  /** A match was looked for at y, and what was found does not outweigh. */
  ghost predicate Tried(text: seq<byte>, p: nat, len: nat, off: nat, y: nat, last: nat)
  {
    exists cLen, cOff :: Found(text, y, cLen, cOff) && !Outweighs(p, len, off, y, cLen, cOff, last)
  }

  /** One and two bytes further on there is nothing better, as far as that was worth a look: not
      for the longest matches, nor when the offset is that of the last match, nor beyond the
      match itself, nor at the end of the text. */
  ghost predicate Settled(text: seq<byte>, p: nat, len: nat, off: nat, last: nat)
  {
    len < 2048 && off != last ==>
      forall y :: p < y <= p + 2 && y < p + len && y - 1 + len < |text| ==> Tried(text, p, len, off, y, last)
  }

  lemma TriedHere(text: seq<byte>, p: nat, len: nat, off: nat, y: nat, last: nat, cLen: nat, cOff: nat)
    requires Found(text, y, cLen, cOff) && !Outweighs(p, len, off, y, cLen, cOff, last)
    ensures Tried(text, p, len, off, y, last)
  {
  }

  // ------------------------------------------------------------------ all tokens

  /** Token i is a copy that was found where it stands, with nothing better behind, or a literal where nothing was worth
      copying or what was has been given up for the copy behind the run. */
  ghost predicate Chosen(ts: seq<Token>, text: seq<byte>, i: nat)
    requires i < |ts|
  {
    match ts[i]
    case Copy(len, off) =>
      Found(text, Extents(ts[..i]), len, off) && !TooShort(len, off) && Settled(text, Extents(ts[..i]), len, off, LastOffset(ts[..i], 1))
    case Literal(_) => Plain(text, Extents(ts[..i])) || exists j: nat :: EndsRun(ts, text, i, j)
  }

  /** From literal i on there are literals up to copy j, for which it was put off. */
  ghost predicate EndsRun(ts: seq<Token>, text: seq<byte>, i: nat, j: nat)
  {
    && i < j < |ts| && ts[j].Copy? && (forall k :: i <= k < j ==> ts[k].Literal?)
    && PutOff(text, Extents(ts[..i]), Extents(ts[..j]), ts[j].len, ts[j].off, LastOffset(ts[..j], 1))
  }

  ghost predicate Diligent(ts: seq<Token>, text: seq<byte>)
  {
    forall i :: 0 <= i < |ts| ==> Chosen(ts, text, i)
  }

  lemma ChosenStill(ts: seq<Token>, us: seq<Token>, text: seq<byte>, i: nat)
    requires i < |ts| && Chosen(ts, text, i)
    ensures Chosen(ts + us, text, i)
  {
    hide Found, PutOff, Plain, LastOffset, Extents, TooShort, Settled;
    assert (ts + us)[..i] == ts[..i];
    if ts[i].Literal? && !Plain(text, Extents(ts[..i])) {
      var j: nat :| EndsRun(ts, text, i, j);
      assert (ts + us)[..j] == ts[..j];
      assert EndsRun(ts + us, text, i, j);
    }
  }

  lemma {:induction false} ExtentsJoin(ts: seq<Token>, us: seq<Token>)
    ensures Extents(ts + us) == Extents(ts) + Extents(us)
  {
    if ts == [] {
      assert ts + us == us;
    } else {
      assert (ts + us)[1..] == ts[1..] + us;
      ExtentsJoin(ts[1..], us);
    }
  }

  lemma {:induction false} ExtentsOfLiterals(bytes: seq<byte>)
    ensures Extents(Literals(bytes)) == |bytes|
  {
    if bytes != [] {
      assert Literals(bytes)[1..] == Literals(bytes[1..]);
      ExtentsOfLiterals(bytes[1..]);
    }
  }

  lemma {:induction false} LastOffsetJoin(ts: seq<Token>, us: seq<Token>, last: nat)
    ensures LastOffset(ts + us, last) == LastOffset(us, LastOffset(ts, last))
  {
    if ts == [] {
      assert ts + us == us;
    } else {
      assert (ts + us)[1..] == ts[1..] + us;
      LastOffsetJoin(ts[1..], us, NextLast(ts[0], last));
    }
  }

  /** Where literal k of a run stands, and the offset that is remembered behind the run. */
  lemma InRun(ts: seq<Token>, bytes: seq<byte>, k: nat)
    requires k <= |bytes|
    ensures Extents(ts + Literals(bytes[..k])) == Extents(ts) + k
    ensures LastOffset(ts + Literals(bytes[..k]), 1) == LastOffset(ts, 1)
  {
    hide LastOffset, Extents, Literals;
    ExtentsJoin(ts, Literals(bytes[..k]));
    ExtentsOfLiterals(bytes[..k]);
    LastOffsetJoin(ts, Literals(bytes[..k]), 1);
    LiteralsKeepLastOffset(bytes[..k], LastOffset(ts, 1));
  }

  /** A run of literals and the copy it was put off for. */
  lemma RunAndCopy(ts: seq<Token>, text: seq<byte>, bytes: seq<byte>, len: nat, off: nat)
    requires Diligent(ts, text) && Found(text, Extents(ts) + |bytes|, len, off) && !TooShort(len, off)
    requires Pending(text, Extents(ts), Extents(ts) + |bytes|, len, off, LastOffset(ts, 1))
    requires Settled(text, Extents(ts) + |bytes|, len, off, LastOffset(ts, 1))
    ensures Diligent(ts + Literals(bytes) + [Copy(len, off)], text)
  {
    hide Found, PutOff, Plain, LastOffset, Extents, TooShort, Settled;
    var run := ts + Literals(bytes);
    var all, j := run + [Copy(len, off)], |run|;
    assert bytes[..|bytes|] == bytes;
    InRun(ts, bytes, |bytes|);
    forall i | 0 <= i < |all| ensures Chosen(all, text, i) {
      if i < |ts| {
        assert ts + (Literals(bytes) + [Copy(len, off)]) == all;
        ChosenStill(ts, Literals(bytes) + [Copy(len, off)], text, i);
      } else {
        var k := i - |ts|;
        assert all[..i] == ts + Literals(bytes[..k]);
        InRun(ts, bytes, k);
        if k < |bytes| && !Plain(text, Extents(ts) + k) {
          assert all[..j] == run;
          assert EndsRun(all, text, i, j);
        }
      }
    }
  }

  /** The last run, behind which there is nothing left. */
  lemma LastRun(ts: seq<Token>, text: seq<byte>, bytes: seq<byte>, mOff: nat)
    requires Diligent(ts, text) && Pending(text, Extents(ts), Extents(ts) + |bytes|, 0, mOff, LastOffset(ts, 1))
    ensures Diligent(ts + Literals(bytes), text)
  {
    hide Found, PutOff, Plain, LastOffset, Extents;
    var all := ts + Literals(bytes);
    forall i | 0 <= i < |all| ensures Chosen(all, text, i) {
      if i < |ts| {
        ChosenStill(ts, Literals(bytes), text, i);
      } else {
        var k := i - |ts|;
        assert all[..i] == ts + Literals(bytes[..k]);
        InRun(ts, bytes, k);
        NotPutOff(text, Extents(ts) + k, Extents(ts) + |bytes|, 0, mOff, LastOffset(ts, 1));
      }
    }
  }

  // --------------------------------------------------------------- what that means

  /** Where nothing is worth copying, the two bytes do not occur in the last 3328 positions, nor
      do the three in the last 4096. */
  lemma PlainIsNew(text: seq<byte>, p: nat, q: nat)
    requires Plain(text, p) && q < p
    ensures p - q <= 3328 ==> !Same(text, q, p, 2)
    ensures p - q <= 4096 ==> !Same(text, q, p, 3)
  {
    hide Same;
    var len, off :| Found(text, p, len, off) && TooShort(len, off);
    if p - q <= 4096 {
      assert !Exceeds(text, q, p, len);
      if Same(text, q, p, 3) {
        SameLess(text, q, p, 3, 2);
      }
    }
  }

  /** A match that was found is the longest of the last 4096 positions, up to 2048 bytes; and where
      none was found, the two bytes do not occur in the last 65536. */
  lemma FoundIsLongest(text: seq<byte>, p: nat, len: nat, off: nat, q: nat, m: nat)
    requires Found(text, p, len, off) && q < p && 2 <= m <= 2048 && Same(text, q, p, m)
    ensures p - q <= 4096 ==> m <= len
    ensures p - q <= 65536 ==> len >= 2
    ensures len >= 2 ==> len <= 2048 && 1 <= off <= 65536 && off <= p && Same(text, p - off, p, len)
  {
    hide Same;
    assert p - q <= 4096 && len < F ==> !Exceeds(text, q, p, len);
    if p - q <= 65536 && len == 1 {
      SameLess(text, q, p, m, 2);
    }
    if p - q <= 4096 && m > len {
      SameLess(text, q, p, m, len + 1);
    }
  }

  lemma {:induction false} BitLengthBelow(v: nat, n: nat)
    requires v < Pow2(n)
    ensures BitLength(v) <= n
  {
    if v > 0 {
      BitLengthBelow(v / 2, n - 1);
    }
  }

  lemma {:induction false} BitLengthSmall(v: nat)
    ensures BitLength(v) <= v
  {
    if v > 0 {
      BitLengthSmall(v / 2);
    }
  }

  lemma OffsetBits(off: nat)
    requires 1 <= off <= N
    ensures BitLength((off - 1) / 256) <= if off <= M2_MAX_OFFSET then 4 else 8
  {
    hide BitLength;
    assert Pow2(4) == 16 && Pow2(8) == 256;
    BitLengthBelow((off - 1) / 256, if off <= M2_MAX_OFFSET then 4 else 8);
  }

  /** Estimates are bounded from both sides. */
  lemma EstimateBound(len: nat, off: nat, last: nat)
    requires off >= 1 && !TooShort(len, off)
    ensures 5 <= Estimate(len, off, last) && (off <= N ==> Estimate(len, off, last) <= 5 * len + 14)
  {
    hide BitLength;
    if off <= N {
      OffsetBits(off);
    }
    var m := len - 2 - (if off > M2_MAX_OFFSET then 1 else 0);
    if m >= 3 {
      BitLengthSmall(m - 3);
    }
  }

  /** Two bytes that occurred within the last 3328 positions, or three within the last 4096, are
      not written out again, except in a run of literals that leads up to a copy; and the run
      is not longer than that copy is worth. */
  lemma RepeatIsCopied(ts: seq<Token>, text: seq<byte>, i: nat, q: nat) returns (j: nat)
    requires Diligent(ts, text) && i < |ts| && ts[i].Literal? && q < Extents(ts[..i])
    requires (Extents(ts[..i]) - q <= 3328 && Same(text, q, Extents(ts[..i]), 2))
             || (Extents(ts[..i]) - q <= 4096 && Same(text, q, Extents(ts[..i]), 3))
    ensures i < j < |ts| && ts[j].Copy? && forall k :: i <= k < j ==> ts[k].Literal?
    ensures 4 * (Extents(ts[..j]) - Extents(ts[..i])) < 5 * ts[j].len + 9
  {
    hide Same, Plain, Extents, LastOffset, Estimate;
    var p := Extents(ts[..i]);
    assert Chosen(ts, text, i);
    if Plain(text, p) {
      PlainIsNew(text, p, q);
    }
    j :| EndsRun(ts, text, i, j);
    var last := LastOffset(ts[..j], 1);
    var len, off :| Found(text, p, len, off) && Outweighs(p, len, off, Extents(ts[..j]), ts[j].len, ts[j].off, last);
    EstimateBound(len, off, last);
    EstimateBound(ts[j].len, ts[j].off, last);
  }
}
