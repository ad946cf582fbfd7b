/** The NRV2B compressor's main loop, and the round trip through both programs. */
module Nrv2bCompress {
  import opened Bytes
  import opened Nrv2bFormat
  import opened Nrv2bTokens
  import opened Nrv2bCost
  import opened Nrv2bEncoder
  import opened Nrv2bDecoder
  import opened RingBuffer
  import opened Nrv2bWindow
  import opened Nrv2bSearch
  import opened Nrv2bChoice

  // ------------------------------------------------------------ token sequences

  lemma {:induction false} ExpandAppend(ts: seq<Token>, us: seq<Token>, out: seq<byte>)
    requires Expandable(ts, out) && Expandable(us, Expand(ts, out))
    ensures Expandable(ts + us, out) && Expand(ts + us, out) == Expand(us, Expand(ts, out))
  {
    if ts == [] {
      assert ts + us == us;
    } else {
      assert (ts + us)[1..] == ts[1..] + us;
      ExpandAppend(ts[1..], us, Apply(ts[0], out));
    }
  }

  lemma {:induction false} ExpandLiterals(bytes: seq<byte>, out: seq<byte>)
    ensures Expandable(Literals(bytes), out) && Expand(Literals(bytes), out) == out + bytes
  {
    if bytes == [] {
      assert out + bytes == out;
    } else {
      assert Literals(bytes)[1..] == Literals(bytes[1..]);
      ExpandLiterals(bytes[1..], out + [bytes[0]]);
      assert out + [bytes[0]] + bytes[1..] == out + bytes;
    }
  }

  /** The tokens written so far spell the first p bytes of the text. */
  ghost predicate Covers(ts: seq<Token>, text: seq<byte>, p: nat)
  {
    && p <= |text| && AllLegal(ts) && WithinWindow(ts)
    && Expandable(ts, []) && Expand(ts, []) == text[..p]
  }

  lemma CoverLiterals(ts: seq<Token>, text: seq<byte>, p: nat, lit: nat)
    requires Covers(ts, text, p) && p + lit <= |text|
    ensures Covers(ts + Literals(text[p..p + lit]), text, p + lit)
  {
    ExpandLiterals(text[p..p + lit], text[..p]);
    ExpandAppend(ts, Literals(text[p..p + lit]), []);
    assert text[..p] + text[p..p + lit] == text[..p + lit];
  }

  lemma CoverCopy(ts: seq<Token>, text: seq<byte>, p: nat, len: nat, off: nat)
    requires Covers(ts, text, p) && Legal(Copy(len, off)) && off <= N
    requires off <= p && Same(text, p - off, p, len)
    ensures Covers(ts + [Copy(len, off)], text, p + len)
  {
    var t := Copy(len, off);
    CopyReproduces(text, p, off, len);
    assert [t][1..] == [];
    assert Expandable([t], text[..p]) && Expand([t], text[..p]) == Apply(t, text[..p]);
    ExpandAppend(ts, [t], []);
  }

  /** Tokens that spell p bytes weigh at most nine bits a byte. */
  lemma CoverWeight(ts: seq<Token>, text: seq<byte>, p: nat)
    requires Covers(ts, text, p)
    ensures AllLegal(ts) && Weight(TokensOps(ts, 1)) <= 9 * p
  {
    TokensBound(ts, 1);
    ExpandLength(ts, []);
  }

  // -------------------------------------------------------------------- emitting

  function Capacity(n: nat): (c: nat)
    ensures 9 * n + 57 + 64 <= 8 * c
  {
    n + n / 8 + 256
  }

  ghost predicate Coded(enc: Encoder, ts: seq<Token>, text: seq<byte>, p: nat)
    reads enc, enc.out
  {
    && enc.Valid() && Covers(ts, text, p)
    && enc.Ops() == TokensOps(ts, 1) && enc.lastOff == LastOffset(ts, 1)
    && enc.out.Length == Capacity(|text|)
  }

  /** Codes text[ii..ii + lit] as literals. */
  method EmitRun(enc: Encoder, text: seq<byte>, ii: nat, lit: nat, ghost ts: seq<Token>) returns (ghost ts': seq<Token>)
    requires Coded(enc, ts, text, ii) && ii + lit <= |text|
    modifies enc, enc.out
    ensures Coded(enc, ts', text, ii + lit) && ts' == ts + Literals(text[ii..ii + lit]) && enc.lastOff == old(enc.lastOff)
  {
    hide Encoder.Valid, Weight, TokensOps, LastOffset, Covers;
    CoverWeight(ts, text, ii);
    enc.CodeRun(text, ii, lit);
    ghost var run := Literals(text[ii..ii + lit]);
    ts' := ts + run;
    TokensOpsJoin(ts, run, 1);
    LiteralsKeepLastOffset(text[ii..ii + lit], LastOffset(ts, 1));
    CoverLiterals(ts, text, ii, lit);
  }

  /** Codes one match. */
  method EmitMatch(enc: Encoder, text: seq<byte>, p: nat, len: nat, off: nat, ghost ts: seq<Token>)
      returns (ghost ts': seq<Token>)
    requires Coded(enc, ts, text, p)
    requires Legal(Copy(len, off)) && off <= N && off <= p && Same(text, p - off, p, len)
    modifies enc, enc.out
    ensures Coded(enc, ts', text, p + len) && ts' == ts + [Copy(len, off)]
  {
    hide Encoder.Valid, Weight, TokensOps, TokenOps, LastOffset, Covers, Same, CopyCost;
    CoverWeight(ts, text, p);
    ghost var t := Copy(len, off);
    CopyWeight(t, enc.lastOff);
    TokenBound(t, enc.lastOff);
    SameFits(text, p - off, p, len);
    enc.CodeMatch(len, off);
    ts' := ts + [t];
    TokensOpsJoin(ts, [t], 1);
    OneToken(t, LastOffset(ts, 1));
    CoverCopy(ts, text, p, len, off);
  }

  lemma SameFits(text: seq<byte>, p: nat, q: nat, n: nat)
    requires Same(text, p, q, n)
    ensures p + n <= |text| && q + n <= |text|
  {
  }

  lemma OneToken(t: Token, last: nat)
    requires Legal(t)
    ensures TokensOps([t], last) == TokenOps(t, last) && LastOffset([t], last) == NextLast(t, last)
  {
    assert [t][1..] == [];
    assert TokensOps([t][1..], NextLast(t, last)) == [];
  }

  /** The end mark, and the last word. */
  method EmitEof(enc: Encoder, text: seq<byte>, ghost ts: seq<Token>)
    requires Coded(enc, ts, text, |text|)
    modifies enc, enc.out
    ensures enc.op <= enc.out.Length
    ensures AllLegal(ts) && enc.out[..enc.op] == Layout(enc.s, StreamOps(ts), 0)
  {
    hide Encoder.Valid, Weight, TokensOps, PrefixOps, LastOffset, Layout, Log2;
    ghost var was, v := enc.Ops(), EOF_PREFIX + 2;
    CoverWeight(ts, text, |text|);
    EofParts();
    enc.PutBit(false);
    WeightAppend(was, [Bit(false)]);
    enc.CodePrefix(EOF_PREFIX);
    WeightAppend(was + [Bit(false)], PrefixOps(v));
    enc.PutByte(0xff);
    Reassociate(was + [Bit(false)], PrefixOps(v), [Raw(0xff)]);
    Reassociate(was, [Bit(false)], PrefixOps(v) + [Raw(0xff)]);
    enc.FlushBits();
  }

  lemma EofParts()
    ensures Weight([Bit(false)]) == 1 && Weight(PrefixOps(EOF_PREFIX + 2)) == 2 * Log2(EOF_PREFIX + 2) == 48
  {
    hide Weight, PrefixOps, Log2;
    WeightOfBit(false);
    PrefixWeight(EOF_PREFIX + 2);
    EofWeight();
    WeightAppend(PrefixOps(EOF_PREFIX + 2), [Raw(0xff)]);
    WeightOfRaw(0xff);
    WeightAppend([Bit(false)], PrefixOps(EOF_PREFIX + 2) + [Raw(0xff)]);
  }

  // ------------------------------------------------------------------- main loop

  /** What the main loop knows about the last search, made at position pos. */
  ghost predicate Searched(mf: MatchFinder, text: seq<byte>, pos: nat, left: nat, mLen: nat, mOff: nat)
    reads mf
  {
    && mf.text == text && mf.n <= N && mf.cur == pos + 1 && pos <= |text|
    && left == (if pos == |text| then 0 else 1 + Look(text, pos + 1))
    && (if pos < |text| then Found(text, pos, mLen, mOff) else mLen == 0)
  }

  /** The bits gained by coding `ahead` literals and a second match instead of a first one,
      counting five bits for each byte the second reaches further. */
  function Gain(mLen: nat, mOff: nat, cLen: nat, cOff: nat, ahead: nat, last: nat): (bits: int)
    requires mOff >= 1 && cOff >= 1
  {
    CopyCost(mLen, mOff, last) + (ahead + cLen - mLen) * 5 - CopyCost(cLen, cOff, last) - ahead * 9
  }

  /** Decides by the estimates l1 and l2 whether the second match is taken. */
  method Pays(l1: int, mLen: nat, mOff: nat, cLen: nat, cOff: nat, ahead: nat, last: nat, ghost pos: nat)
    returns (taken: bool)
    requires mOff >= 1 && last < U32 && (cLen >= 2 ==> cLen < U32 && 1 <= cOff < U32)
    requires !TooShort(mLen, mOff) && l1 == Estimate(mLen, mOff, last) && ahead >= 1
    ensures taken ==> !TooShort(cLen, cOff) && Gain(mLen, mOff, cLen, cOff, ahead, last) > -6
    ensures !taken && !TooShort(cLen, cOff) ==> Gain(mLen, mOff, cLen, cOff, ahead, last) <= 6
    ensures taken <==> Outweighs(pos, mLen, mOff, pos + ahead, cLen, cOff, last)
  {
    hide CopyCost, Estimate;
    EstimateIsClose(mLen, mOff, last);
    taken := false;
    if cLen >= 2 {
      var l2 := LenOfCodedMatch(cLen, cOff, last);
      if !TooShort(cLen, cOff) {
        EstimateIsClose(cLen, cOff, last);
        CostPositive(cLen, cOff, last);
      }
      if l2 >= 0 {
        taken := l1 + (ahead + cLen - mLen) * 5 > l2 + ahead * 9;
      }
    }
  }

  lemma CostPositive(len: nat, off: nat, last: nat)
    requires off >= 1 && !TooShort(len, off)
    ensures CopyCost(len, off, last) >= 1
  {
  }

  /** Looks up to two positions ahead for a match that is cheaper in the long run.
      Returns how far the search went, and whether the match found there is taken: it is if
      it gains, up to the six bits by which estimates may be off. */
  method TryLazy(enc: Encoder, mf: MatchFinder, text: seq<byte>, pos: nat, left0: nat, mLen: nat, mOff: nat)
      returns (ahead: nat, taken: bool, left: nat, cLen: nat, cOff: nat)
    requires mf.Valid() && Searched(mf, text, pos, left0, mLen, mOff) && pos < |text|
    requires !TooShort(mLen, mOff) && mf.maxChain >= REACH
    modifies mf, mf.b, mf.head3, mf.succ3, mf.best3, mf.llen3, mf.head2
    ensures mf.Valid() && ahead < mLen && mf.maxChain >= REACH
    ensures Searched(mf, text, pos + ahead, left, cLen, cOff)
    ensures ahead <= 2 && (taken ==> ahead > 0 && !TooShort(cLen, cOff) && Gain(mLen, mOff, cLen, cOff, ahead, enc.lastOff) > -6)
    ensures !taken && ahead > 0 && !TooShort(cLen, cOff) ==> Gain(mLen, mOff, cLen, cOff, ahead, enc.lastOff) <= 6
    ensures taken ==> Outweighs(pos, mLen, mOff, pos + ahead, cLen, cOff, enc.lastOff)
    ensures taken ==> Pending(text, pos + 1, pos + ahead, cLen, cOff, enc.lastOff)
    ensures !taken ==> Settled(text, pos, mLen, mOff, enc.lastOff)
  {
    hide MatchFinder.Valid, CopyCost, Outweighs, Found, Estimate, Tried;
    FoundIs(text, pos, mLen, mOff);
    ahead, taken, left, cLen, cOff := 0, false, left0, mLen, mOff;
    if mLen >= F || mOff == enc.lastOff {
      return;
    }
    var l1 := LenOfCodedMatch(mLen, mOff, enc.lastOff);
    var maxAhead := 2;
    if mLen - 1 < maxAhead {
      maxAhead := mLen - 1;
    }
    while ahead < maxAhead && left > mLen
      invariant mf.Valid() && 0 <= ahead <= maxAhead && pos + ahead < |text| && mf.maxChain >= REACH
      invariant ahead > 0 ==> !Outweighs(pos, mLen, mOff, pos + ahead, cLen, cOff, enc.lastOff)
      invariant forall y :: pos < y <= pos + ahead ==> Tried(text, pos, mLen, mOff, y, enc.lastOff)
      invariant Searched(mf, text, pos + ahead, left, cLen, cOff) && (cLen >= 2 ==> cOff >= 1)
      invariant ahead > 0 && !TooShort(cLen, cOff) ==> Gain(mLen, mOff, cLen, cOff, ahead, enc.lastOff) <= 6
    {
      ghost var bLen, bOff := cLen, cOff;
      left, cLen, cOff := LookOn(mf, text, pos + ahead, left, mLen, cLen, cOff);
      ahead := ahead + 1;
      taken := Pays(l1, mLen, mOff, cLen, cOff, ahead, enc.lastOff, pos);
      if taken {
        if ahead == 2 {
          PendingBetween(text, pos, mLen, mOff, enc.lastOff, bLen, bOff, cLen, cOff);
        }
        return;
      }
      TriedHere(text, pos, mLen, mOff, pos + ahead, enc.lastOff, cLen, cOff);
    }
  }

  /** Searches one position further on. */
  method LookOn(mf: MatchFinder, text: seq<byte>, pos: nat, left0: nat, mLen: nat, ghost len0: nat, ghost off0: nat)
    returns (left: nat, cLen: nat, cOff: nat)
    requires mf.Valid() && Searched(mf, text, pos, left0, len0, off0) && left0 > mLen && 2 <= mLen < F
    modifies mf, mf.b, mf.head3, mf.succ3, mf.best3, mf.llen3, mf.head2
    ensures mf.Valid() && mf.maxChain >= REACH && pos + 1 < |text|
    ensures Searched(mf, text, pos + 1, left, cLen, cOff) && (cLen >= 2 ==> 1 <= cOff <= N && cLen <= F)
  {
    hide MatchFinder.Valid, Found;
    mf.SetMaxChain(if mLen >= F then 1024 else 4096);
    var at;
    cLen, cOff, left, at := mf.FindMatch(1, 0);
    FoundIs(text, pos + 1, cLen, cOff);
  }

  lemma FoundIs(text: seq<byte>, p: nat, len: nat, off: nat)
    requires Found(text, p, len, off)
    ensures len >= 2 ==> 1 <= off <= N && off <= p && len <= Look(text, p) && Same(text, p - off, p, len)
  {
  }

  /** One round of the main loop: a literal more, a lazy match taken, or a match coded. */
  method Round(enc: Encoder, mf: MatchFinder, text: seq<byte>, ghost ts0: seq<Token>,
               lit0: nat, pos0: nat, left0: nat, mLen0: nat, mOff0: nat)
      returns (ghost ts: seq<Token>, lit: nat, pos: nat, left: nat, mLen: nat, mOff: nat)
    requires enc.out != mf.b
    requires mf.Valid() && Searched(mf, text, pos0, left0, mLen0, mOff0) && left0 > 0
    requires lit0 <= pos0 && Coded(enc, ts0, text, pos0 - lit0)
    requires mf.maxChain >= REACH && Diligent(ts0, text) && Pending(text, pos0 - lit0, pos0, mLen0, mOff0, enc.lastOff)
    modifies enc, enc.out, mf, mf.b, mf.head3, mf.succ3, mf.best3, mf.llen3, mf.head2
    ensures mf.Valid() && Searched(mf, text, pos, left, mLen, mOff)
    ensures pos0 < pos && lit <= pos && Coded(enc, ts, text, pos - lit)
    ensures mf.maxChain >= REACH && Diligent(ts, text) && Pending(text, pos - lit, pos, mLen, mOff, enc.lastOff)
  {
    hide Encoder.Valid, MatchFinder.Valid, Covers, TokensOps, LastOffset, Gain, CopyCost, Found, Outweighs, Pending, Diligent;
    hide Settled;
    FoundIs(text, pos0, mLen0, mOff0);
    ts, lit, pos, left, mLen, mOff := ts0, lit0, pos0, left0, mLen0, mOff0;
    if TooShort(mLen, mOff) {
      lit := lit + 1;
      mf.SetMaxChain(4096);
      mLen, mOff, left, pos := mf.FindMatch(1, 0);
      PendingLiteral(text, pos0 - lit0, pos0, mLen0, mOff0, enc.lastOff, mLen, mOff);
      return;
    }
    var ahead, taken, cLen, cOff;
    ahead, taken, left, cLen, cOff := TryLazy(enc, mf, text, pos, left, mLen, mOff);
    if taken {
      PendingLazy(text, pos - lit, pos, mLen, mOff, enc.lastOff, ahead, cLen, cOff);
      lit, pos, mLen, mOff := lit + ahead, pos + ahead, cLen, cOff;
      return;
    }
    ts := Emit(enc, text, pos, lit, mLen, mOff, ts);
    lit := 0;
    mf.SetMaxChain(4096);
    mLen, mOff, left, pos := mf.FindMatch(mLen, 1 + ahead);
    NothingPending(text, pos, mLen, mOff, enc.lastOff);
  }

  /** Codes the literals before pos, and the match there. */
  method Emit(enc: Encoder, text: seq<byte>, pos: nat, lit: nat, mLen: nat, mOff: nat, ghost ts0: seq<Token>)
    returns (ghost ts: seq<Token>)
    requires lit <= pos && Coded(enc, ts0, text, pos - lit) && Found(text, pos, mLen, mOff) && !TooShort(mLen, mOff)
    requires Diligent(ts0, text) && Pending(text, pos - lit, pos, mLen, mOff, enc.lastOff)
    requires Settled(text, pos, mLen, mOff, enc.lastOff)
    modifies enc, enc.out
    ensures Coded(enc, ts, text, pos + mLen) && Diligent(ts, text)
  {
    hide Encoder.Valid, Covers, TokensOps, LastOffset, Found, Pending, Diligent, Settled;
    FoundIs(text, pos, mLen, mOff);
    CoveredExtent(ts0, text, pos - lit);
    RunAndCopy(ts0, text, text[pos - lit..pos], mLen, mOff);
    ts := EmitRun(enc, text, pos - lit, lit, ts0);
    ts := EmitMatch(enc, text, pos, mLen, mOff, ts);
  }

  lemma CoveredExtent(ts: seq<Token>, text: seq<byte>, p: nat)
    requires Covers(ts, text, p)
    ensures Extents(ts) == p
  {
    ExpandLength(ts, []);
  }

  lemma NothingPending(text: seq<byte>, pos: nat, mLen: nat, mOff: nat, last: nat)
    ensures Pending(text, pos, pos, mLen, mOff, last) && Diligent([], text)
  {
  }

  /** Compresses the text into a buffer of n + n/8 + 256 bytes. */
  method Compress(s: Width, text: seq<byte>) returns (out: array<byte>, outLen: nat, ghost ts: seq<Token>)
    ensures fresh(out) && outLen <= out.Length == Capacity(|text|)
    ensures Covers(ts, text, |text|) && Diligent(ts, text)
    ensures out[..outLen] == Layout(s, StreamOps(ts), 0)
  {
    hide Encoder.Valid, MatchFinder.Valid, Covers, TokensOps, LastOffset, Layout, StreamOps, Found, Pending, Diligent;
    var enc := new Encoder(s, |text| + |text| / 8 + 256);
    var mf := new MatchFinder(text);
    ts := [];
    NothingCovered(text);
    var lit := 0;
    var mLen, mOff, left, pos := mf.FindMatch(0, 0);
    NothingPending(text, pos, mLen, mOff, 1);
    while left > 0
      invariant fresh(enc) && fresh(enc.out) && fresh(mf)
      invariant fresh(mf.b) && fresh(mf.head3) && fresh(mf.succ3) && fresh(mf.best3) && fresh(mf.llen3) && fresh(mf.head2)
      invariant enc.out != mf.b && enc.s == s
      invariant mf.Valid() && Searched(mf, text, pos, left, mLen, mOff)
      invariant lit <= pos && Coded(enc, ts, text, pos - lit)
      invariant mf.maxChain >= REACH && Diligent(ts, text) && Pending(text, pos - lit, pos, mLen, mOff, enc.lastOff)
      decreases |text| - pos
    {
      ts, lit, pos, left, mLen, mOff := Round(enc, mf, text, ts, lit, pos, left, mLen, mOff);
    }
    CoveredExtent(ts, text, pos - lit);
    LastRun(ts, text, text[pos - lit..pos], mOff);
    ts := EmitRun(enc, text, pos - lit, lit, ts);
    EmitEof(enc, text, ts);
    out, outLen := enc.out, enc.op;
  }

  lemma NothingCovered(text: seq<byte>)
    ensures Covers([], text, 0) && TokensOps([], 1) == [] && LastOffset([], 1) == 1
  {
  }

  // ------------------------------------------------------------------ both programs

  /** What decompressing a file yields: nothing if it is cut short, if decoding would overrun
      a buffer, or if it does not end where the input does. The text may be shorter than its
      announced size, but not empty. */
  ghost function FileText(s: Width, file: seq<byte>): (text: Option<seq<byte>>)
  {
    if |file| < 4 then None
    else if LeValue(file[..4]) == 0 then Some([])
    else
      var n := LeValue(file[..4]);
      var src := Source(file, n);
      var r := DecodeFrom(s, src, Start(), 1, [], n);
      if src != [] && r.Done? && r.rest.pos == |src| && r.out != [] then Some(r.out) else None
  }

  /** At most as much of the file is read as fits the buffer for a text of n bytes. */
  function Source(file: seq<byte>, n: nat): (src: seq<byte>)
    requires |file| >= 4
  {
    if |file| - 4 > Capacity(n) then file[4..4 + Capacity(n)] else file[4..]
  }

  lemma EmptyStream(s: Width, limit: nat)
    ensures DecodeFrom(s, [], Start(), 1, [], limit) == Broken
  {
  }

  lemma CoversReadsBack(s: Width, text: seq<byte>, ts: seq<Token>, stream: seq<byte>)
    requires Covers(ts, text, |text|) && stream == Layout(s, StreamOps(ts), 0)
    ensures var r := DecodeFrom(s, stream, Start(), 1, [], |text|);
            r.Done? && r.out == text && r.rest.pos == |stream| && stream != []
  {
    hide Layout, StreamOps, DecodeFrom;
    EmptyStream(s, |text|);
    assert text[..|text|] == text;
    StreamReadsBack(s, ts, |text|);
  }

  method EncodeFile(s: Width, text: seq<byte>) returns (file: seq<byte>)
    requires |text| < U32
    ensures FileText(s, file) == Some(text) && |file| <= 4 + Capacity(|text|)
  {
    hide Layout, StreamOps, DecodeFrom, Covers, LeBytes, LeValue;
    var header := LeBytes(|text|, 4);
    SizeReadsBack(|text|);
    if |text| == 0 {
      assert header[..4] == header;
      return header;
    }
    var out, outLen, ts := Compress(s, text);
    CoversReadsBack(s, text, ts, out[..outLen]);
    file := header + out[..outLen];
    assert file[..4] == header && file[4..] == out[..outLen];
  }

  /** For every file, archive or not, what it yields. */
  method DecodeFile(s: Width, file: seq<byte>) returns (text: Option<seq<byte>>)
    ensures text == FileText(s, file)
  {
    hide DecodeFrom, LeValue;
    if |file| < 4 {
      return None;
    }
    var dstLen := LeValue(file[..4]);
    if dstLen == 0 {
      return Some([]);
    }
    var maxLen := dstLen + dstLen / 8 + 256;
    var src := if |file| - 4 > maxLen then file[4..4 + maxLen] else file[4..];
    if |src| == 0 {
      return None;
    }
    var ok, dst, olen, ilen := Decode(s, src, dstLen);
    if !ok || ilen != |src| || olen == 0 {
      return None;
    }
    return Some(dst[..olen]);
  }

  /** For every text, decompressing what was compressed gives the text back. */
  method RoundTrip(s: Width, text: seq<byte>) returns (result: Option<seq<byte>>)
    requires |text| < U32
    ensures result == Some(text)
  {
    hide FileText;
    var file := EncodeFile(s, text);
    result := DecodeFile(s, file);
  }
}
