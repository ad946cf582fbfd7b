/** The sliding-window match finder of the NRV2B compressor. */
module Nrv2bSearch {
  import opened Bytes
  import opened RingBuffer
  import opened Nrv2bWindow
  import opened Nrv2bCost

  const F: nat := 2048
  const REACH: nat := 4096   // SC_MAX_CHAIN

  /** Bytes in the lookahead buffer when the window has reached position p. */
  function Look(text: seq<byte>, p: nat): (n: nat)
    ensures n <= F && (p < |text| ==> 0 < n && p + n <= |text|)
  {
    if p >= |text| then 0 else if |text| - p < F then |text| - p else F
  }

  /** How far the text has been read into the ring. */
  function Fetched(text: seq<byte>, p: nat): (n: nat)
    ensures n <= |text|
  {
    if p + F < |text| then p + F else |text|
  }

  /** The oldest position still registered, with a window of n positions. */
  function Oldest(p: nat, n: nat): (lo: nat)
    ensures lo <= p
  {
    if p < n then 0 else p - n
  }

  /** The keys recorded for registered positions are the hashes of the text there,
      except at the very end, where the text has no two or three bytes left. */
  ghost predicate KeysTrue(text: seq<byte>, keys3: seq<int>, keys2: seq<int>)
  {
    && (forall p :: 0 <= p < |keys3| && p + 2 < |text| ==> keys3[p] == Hash3(text[p], text[p + 1], text[p + 2]))
    && (forall p :: 0 <= p < |keys2| && p + 1 < |text| ==> keys2[p] == Hash2(text[p], text[p + 1]))
  }

  /** The slots of the current position, of the next one to forget and to fetch. */
  ghost predicate CursorsAt(text: seq<byte>, cur: nat, size: nat, bp: nat, rp: nat, ip: nat)
    requires size > 0
  {
    bp == Slot(cur, size) && rp == Slot(cur + F, size) && ip == Slot(cur + Look(text, 0), size)
  }

  function Next(i: nat, size: nat): (r: nat)
  {
    if i + 1 == size then 0 else i + 1
  }

  lemma CursorsStep(text: seq<byte>, cur: nat, size: nat, bp: nat, rp: nat, ip: nat)
    requires size > 0 && CursorsAt(text, cur, size, bp, rp, ip)
    ensures bp < size && rp < size && ip < size
    ensures CursorsAt(text, cur + 1, size, Next(bp, size), Next(rp, size), Next(ip, size))
  {
    hide Slot;
    SlotAdd(cur, 1, size);
    SlotAdd(cur + F, 1, size);
    SlotAdd(cur + Look(text, 0), 1, size);
  }

  /** The window spans 64K, or the whole of a shorter text. */
  function Window(text: seq<byte>): (n: nat)
    ensures 256 <= n <= N
  {
    if 256 <= |text| < N then |text| else N
  }

  lemma InWindow(text: seq<byte>, p: nat, q: nat)
    requires q < p <= |text| && p <= q + N
    ensures Oldest(p, Window(text)) <= q
  {
  }

  /** Positions q and p agree in more than len bytes. */
  ghost predicate Exceeds(text: seq<byte>, q: nat, p: nat, len: nat)
  {
    Same(text, q, p, len + 1)
  }

  /** Of the 4096 positions before p, none agrees with p in more than len bytes, unless that is
      all a match may have. */
  ghost predicate Longest(text: seq<byte>, p: nat, oldest: nat, len: int)
  {
    len >= F || (len >= 0 && forall q :: oldest <= q < p && p - REACH <= q ==> !Exceeds(text, q, p, len))
  }

  /** Between q and p no position begins with the two bytes at p. */
  ghost predicate Nearest(text: seq<byte>, q: int, p: nat)
  {
    forall r :: q < r < p && r >= 0 ==> !Same(text, r, p, 2)
  }

  /** What a search at position p comes up with. A length of one means that the two bytes at p
      do not occur in the window; else there is a true match, as long as it can be, that no
      match from the last 4096 positions exceeds, and a match of two bytes is the nearest. */
  ghost predicate Found(text: seq<byte>, p: nat, len: nat, off: nat)
  {
    && p < |text| && 1 <= len && Longest(text, p, 0, len)
    && (len == 1 ==> Nearest(text, p - N - 1, p))
    && (len >= 2 ==> 1 <= off <= N && off <= p && len <= Look(text, p) && Same(text, p - off, p, len))
    && (len == 2 ==> Nearest(text, p - off, p))
    && (len >= 3 ==> len == Look(text, p) || !Same(text, p - off, p, len + 1))
  }

  /** What best3 holds for position q: the length of its longest match, or more than any. */
  ghost predicate BestOf(best: seq<int>, text: seq<byte>, n: nat, q: nat, size: nat)
    requires 0 < size <= |best|
  {
    best[Slot(q, size)] > F || Longest(text, q, Oldest(q, n), best[Slot(q, size)])
  }

  ghost predicate BestKnown(best: seq<int>, text: seq<byte>, n: nat, lo: nat, hi: nat, size: nat)
    requires 0 < size <= |best|
  {
    forall q :: lo <= q < hi ==> BestOf(best, text, n, q, size)
  }

  lemma BestFewer(best: seq<int>, text: seq<byte>, n: nat, lo: nat, lo': nat, hi: nat, size: nat)
    requires 0 < size <= |best| && BestKnown(best, text, n, lo, hi, size) && lo <= lo'
    ensures BestKnown(best, text, n, lo', hi, size)
  {
  }

  lemma BestInsert(best: seq<int>, text: seq<byte>, n: nat, lo: nat, hi: nat, size: nat, v: int)
    requires 0 < size <= |best| && BestKnown(best, text, n, lo, hi, size) && lo <= hi < lo + size
    requires v > F || Longest(text, hi, Oldest(hi, n), v)
    ensures BestKnown(best[Slot(hi, size) := v], text, n, lo, hi + 1, size)
  {
    hide Slot, Longest;
    var best' := best[Slot(hi, size) := v];
    forall q | lo <= q < hi + 1 ensures BestOf(best', text, n, q, size) {
      if q < hi {
        SlotDistinct(q, hi, size);
        assert BestOf(best, text, n, q, size);
      }
    }
  }

  /** Positions that agree with a third one agree with each other. */
  lemma SameAcross(text: seq<byte>, a: nat, b: nat, p: nat, n: nat)
    requires Same(text, a, p, n) && Same(text, b, p, n)
    ensures Same(text, a, b, n)
  {
  }

  /** Why the chain need not be walked on: an older position that agrees with p in more than len
      bytes agrees with q in len bytes, which is more than anything found at q. */
  lemma EarlyExit(best: seq<int>, text: seq<byte>, n: nat, q: nat, size: nat, p: nat, len: nat, a: nat)
    requires 0 < size <= |best| && BestOf(best, text, n, q, size) && len > best[Slot(q, size)] && len <= F
    requires Oldest(p, n) <= a < q < p <= a + REACH && Same(text, q, p, len)
    ensures !Same(text, a, p, len + 1)
  {
    hide Slot;
    if Same(text, a, p, len + 1) {
      SameLess(text, a, p, len + 1, len);
      SameAcross(text, a, q, p, len);
      var m := best[Slot(q, size)];
      assert 0 <= m < F && !Exceeds(text, a, q, m);
      SameLess(text, a, q, len, m + 1);
    }
  }

  class MatchFinder {
    const text: seq<byte>
    const n: nat
    const size: nat            // b_size
    const b: array<byte>
    const head3: array<int>
    const succ3: array<int>
    const best3: array<int>
    const llen3: array<int>
    const head2: array<int>
    var inPos: nat             // c->ip, as an index into the input
    var ip: nat
    var bp: nat
    var rp: nat
    var look: nat
    var nodeCount: nat
    var maxChain: nat
    var mLen: nat
    var mPos: nat
    var mOff: nat
    var bChar: int
    ghost var cur: nat         // the text position of bp
    ghost var lo: nat          // the oldest registered position
    ghost var keys3: seq<int>  // the keys under which positions were registered
    ghost var keys2: seq<int>
    ghost var mAt: nat         // the text position of mPos

    ghost predicate Shape()
    {
      && n == Window(text) && size == n + F
      && b.Length == N + F + F && succ3.Length == N + F && best3.Length == N + F
      && head3.Length == HSIZE && llen3.Length == HSIZE && head2.Length == 0x1_0000
      && head3 != succ3 && head3 != best3 && head3 != llen3 && head3 != head2
      && succ3 != best3 && succ3 != llen3 && succ3 != head2
      && best3 != llen3 && best3 != head2 && llen3 != head2
    }

    ghost predicate Base()
      reads this, b, head3, succ3, llen3, head2
    {
      && Shape() && CursorsAt(text, cur, size, bp, rp, ip)
      && inPos == Fetched(text, cur) && look == Look(text, cur)
      && Ring(b[..], text, Oldest(cur, n), Fetched(text, cur), size, F)
      && Chained(head3[..], succ3[..], llen3[..], keys3, lo, size)
      && Indexed(head2[..], keys2, lo, size)
      && KeysTrue(text, keys3, keys2)
    }

    /** Between steps: all positions before cur have been registered. */
    ghost predicate Valid()
      reads this, b, head3, succ3, best3, llen3, head2
    {
      && Base()
      && lo == Oldest(cur, n) && nodeCount == n - (cur - lo)
      && |keys3| == |keys2| == cur
      && BestKnown(best3[..], text, n, lo, cur, size)
    }

    /** Position cur has been registered too, but bp has not moved on yet. */
    ghost predicate Registered()
      reads this, b, head3, succ3, best3, llen3, head2
    {
      && Base()
      && lo == Oldest(cur + 1, n) && nodeCount == n - (cur + 1 - lo)
      && |keys3| == |keys2| == cur + 1
      && BestKnown(best3[..], text, n, lo, cur + 1, size)
    }

    constructor (text: seq<byte>)
      ensures Valid() && cur == 0 && this.text == text && n <= N
      ensures fresh(b) && fresh(head3) && fresh(succ3) && fresh(best3) && fresh(llen3) && fresh(head2)
      ensures mLen == 0 && maxChain == 4096
    {
      hide Ring, Chained, Indexed, Slot, KeysTrue;
      this.text := text;
      var n: nat := if 256 <= |text| < N then |text| else N;
      this.n := n;
      size := n + F;
      var first := if |text| > F then F else |text|;
      var buffer := FirstBytes(text, first);
      var noCounts := Filled(HSIZE, 0);
      var noHeads := Filled(0x1_0000, NIL2);
      b, llen3, head2 := buffer, noCounts, noHeads;
      head3 := new int[HSIZE];
      succ3 := new int[N + F];
      best3 := new int[N + F];
      look, inPos, ip := first, first, first;
      bp, rp := 0, F;
      nodeCount := n;
      maxChain := 4096;
      mLen, mPos, mOff, bChar := 0, 0, 0, 0;
      cur, lo, keys3, keys2, mAt := 0, 0, [], [], 0;
      new;
      SlotSmall(0, size);
      SlotSmall(F, size);
      SlotSmall(first, size);
      FreshWindow(b[..], text, first, size, F);
      FreshChains(head3[..], succ3[..], llen3[..], head2[..], size);
      assert Shape();
      assert BestKnown(best3[..], text, n, 0, 0, size);
    }

    /** Fetches one byte of text into the ring and its mirror, or notices the end. */
    method FetchByte()
      requires Base() && cur <= |text|
      modifies this`inPos, this`look, b
      ensures Ring(b[..], text, Oldest(cur + 1, n), Fetched(text, cur + 1), size, F)
      ensures inPos == Fetched(text, cur + 1) && look == Look(text, cur + 1)
    {
      hide Ring, Chained, Indexed, Slot, KeysTrue;
      ghost var before := b[..];
      if inPos >= |text| {
        if look > 0 {
          look := look - 1;
        }
        RingShrink(b[..], text, Oldest(cur, n), Fetched(text, cur), size, F, Oldest(cur + 1, n));
      } else {
        var c := text[inPos];
        inPos := inPos + 1;
        b[ip] := c;
        if ip < F {
          b[size + ip] := c;
        }
        ghost var written := before[ip := c];
        assert b[..] == if ip < F then written[size + ip := c] else written;
        RingWrite(before, b[..], text, Oldest(cur, n), Fetched(text, cur), size, F, Oldest(cur + 1, n));
      }
    }

    method GetByte()
      requires Registered() && cur <= |text|
      modifies this`inPos, this`ip, this`bp, this`rp, this`look, this`cur, b
      ensures Valid() && cur == old(cur) + 1
    {
      hide Ring, Chained, Indexed, Slot, KeysTrue, CursorsAt, Look, Fetched;
      FetchByte();
      CursorsStep(text, cur, size, bp, rp, ip);
      ip := Next(ip, size);
      bp := Next(bp, size);
      rp := Next(rp, size);
      cur := cur + 1;
    }

    function Key3(node: nat): (k: nat)
      requires node + 2 < b.Length
      reads b
      ensures k < HSIZE
    {
      Hash3(b[node], b[node + 1], b[node + 2])
    }

    function Key2(node: nat): (k: nat)
      requires node + 1 < b.Length
      reads b
      ensures k < 0x1_0000
    {
      Hash2(b[node], b[node + 1])
    }

    /** While three bytes of text are there, the keys read off the ring are those of the text. */
    lemma KeysOfText(p: nat)
      requires Base() && Oldest(cur, n) <= p <= cur
      ensures p + 2 < Fetched(text, cur) ==> Key3(Slot(p, size)) == Hash3(text[p], text[p + 1], text[p + 2])
      ensures p + 1 < Fetched(text, cur) ==> Key2(Slot(p, size)) == Hash2(text[p], text[p + 1])
    {
      hide Ring, Chained, Indexed, KeysTrue, CursorsAt, Slot, Hash3, Hash2;
      var hi := Fetched(text, cur);
      if p + 1 < hi {
        RingRead(b[..], text, Oldest(cur, n), hi, size, F, p, 0);
        RingRead(b[..], text, Oldest(cur, n), hi, size, F, p, 1);
      }
      if p + 2 < hi {
        RingRead(b[..], text, Oldest(cur, n), hi, size, F, p, 2);
      }
    }

    /** Forgets the position that is about to be overwritten, once n are registered. */
    method RemoveNode()
      requires Base() && cur <= |text|
      requires lo == Oldest(cur, n) && nodeCount == n - (cur - lo)
      requires cur <= |keys3| <= cur + 1 && |keys2| == cur
      modifies this`nodeCount, this`lo, llen3, head2
      ensures Base()
      ensures lo == Oldest(cur + 1, n) && nodeCount == n - (cur + 1 - lo)
    {
      hide Ring, Chained, Indexed, KeysTrue, Slot, Hash3, Hash2, Look, Fetched;
      if nodeCount == 0 {
        OldestIsRp();
        ghost var llen, heads := llen3[..], head2[..];
        ChainRemove(head3[..], succ3[..], llen, keys3, lo, size);
        var key := Key3(rp);
        llen3[key] := llen3[key] - 1;
        assert llen3[..] == llen[keys3[lo] := llen[keys3[lo]] - 1];
        IndexRemove(heads, keys2, lo, size);
        key := Key2(rp);
        if head2[key] == rp {
          head2[key] := NIL2;
        }
        assert head2[..] == if heads[keys2[lo]] == Slot(lo, size) then heads[keys2[lo] := NIL2] else heads;
        lo := lo + 1;
      } else {
        nodeCount := nodeCount - 1;
      }
    }

    lemma OldestIsRp()
      requires Base() && cur <= |text|
      requires lo == Oldest(cur, n) && nodeCount == n - (cur - lo) && nodeCount == 0
      requires cur <= |keys3| <= cur + 1 && |keys2| == cur
      ensures lo < cur && rp == Slot(lo, size) && rp < size
      ensures Key3(rp) == keys3[lo] && Key2(rp) == keys2[lo]
    {
      hide Ring, Chained, Indexed, Slot, Hash3, Hash2;
      SlotAdd(lo, size, size);
      assert cur + F == lo + size;
      KeysOfText(lo);
    }

    /** Adds bp to its hash chain; returns the head and length the chain had. */
    method Link3() returns (node: int, cnt: int, ghost key: int)
      requires Base() && |keys3| == cur && cur - lo <= n
      modifies this`keys3, head3, succ3, llen3
      ensures Base() && keys3 == old(keys3) + [key]
      ensures cur + 2 < |text| ==> key == Hash3(text[cur], text[cur + 1], text[cur + 2])
      ensures cnt == Count(keys3, lo, cur, key)
      ensures cnt > 0 ==> node == Slot(Latest(keys3, lo, cur, key), size)
    {
      hide Ring, Indexed, Slot, Hash3, Look, Counted, Headed, Linked;
      ghost var heads, succs, llens := head3[..], succ3[..], llen3[..];
      var k := Key3(bp);
      key := k;
      KeysOfText(cur);
      ChainInsert(heads, succs, llens, keys3, lo, size, k);
      ChainFront(heads, succs, llens, keys3, lo, size, k);
      node := head3[k];
      succ3[bp] := node;
      cnt := llen3[k];
      llen3[k] := cnt + 1;
      head3[k] := bp;
      assert head3[..] == heads[k := bp];
      assert succ3[..] == succs[bp := heads[k]];
      assert llen3[..] == llens[k := llens[k] + 1];
      keys3 := keys3 + [k];
    }

    /** Makes bp the newest position of its two-byte key. */
    method Link2()
      requires Base() && |keys2| == cur
      modifies this`keys2, head2
      ensures Base() && |keys2| == cur + 1
    {
      hide Ring, Chained, Slot, Hash2, Look, Indexed;
      ghost var heads := head2[..];
      var k := Key2(bp);
      KeysOfText(cur);
      IndexInsert(heads, keys2, lo, size, k);
      head2[k] := bp;
      assert head2[..] == heads[k := bp];
      keys2 := keys2 + [k];
    }

    /** Registers the next `count` positions without searching. */
    method Accept(count: nat)
      requires Valid() && cur + count <= |text|
      modifies this`inPos, this`ip, this`bp, this`rp, this`look, this`nodeCount, this`cur, this`lo, this`keys3, this`keys2,
               b, head3, succ3, best3, llen3, head2
      ensures Valid() && cur == old(cur) + count
    {
      hide Ring, Chained, Indexed, KeysTrue, Hash3, Count, Latest, Slot;
      var left := count;
      while left > 0
        invariant 0 <= left <= count && Valid() && cur == old(cur) + (count - left)
      {
        ghost var best := best3[..];
        RemoveNode();
        var node, cnt, key := Link3();
        BestInsert(best, text, n, lo, cur, size, F + 1);
        best3[bp] := F + 1;
        assert best3[..] == best[Slot(cur, size) := F + 1];
        Link2();
        GetByte();
        left := left - 1;
      }
    }

    lemma ReadAt(p: nat, i: nat)
      requires Base() && Oldest(cur, n) <= p <= cur < |text| && i < look && p + i < cur + look
      ensures Slot(p, size) + i < b.Length && b[Slot(p, size) + i] == text[p + i]
    {
      hide Ring, Chained, Indexed, KeysTrue, Slot;
      RingRead(b[..], text, Oldest(cur, n), Fetched(text, cur), size, F, p, i);
    }

    /** Compares on from the fourth byte. That the third byte agrees is known only
        from the hash. */
    method MatchLength(node: nat, ghost p: nat) returns (i: nat)
      requires Base() && lo == Oldest(cur, n) && lo <= p < cur && node == Slot(p, size)
      requires look >= 3
      requires text[p] == text[cur] && text[p + 1] == text[cur + 1]
      requires Hash3(text[p], text[p + 1], text[p + 2]) == Hash3(text[cur], text[cur + 1], text[cur + 2])
      ensures 3 <= i <= look && Same(text, p, cur, i) && (i < look ==> !Same(text, p, cur, i + 1))
    {
      hide Ring, Chained, Indexed, KeysTrue, Slot, Hash3;
      Hash3ThirdByte(text[p], text[p + 1], text[p + 2], text[cur + 2]);
      i := 3;
      assert text[p..p + 3] == text[cur..cur + 3];
      while true
        invariant 3 <= i <= look && Same(text, p, cur, i)
        decreases look - i
      {
        if i >= look {
          break;
        }
        ReadAt(p, i);
        ReadAt(cur, i);
        if b[bp + i] != b[node + i] {
          SameEnds(text, p, cur, i);
          break;
        }
        SameExtend(text, p, cur, i);
        i := i + 1;
      }
    }

    /** mLen and mPos describe an earlier occurrence of the text at cur. */
    ghost predicate HasMatch()
      reads this
      requires size > 0
    {
      && 2 <= mLen <= look
      && Oldest(cur, n) <= mAt < cur
      && mPos == Slot(mAt, size)
      && Same(text, mAt, cur, mLen)
    }

    /** The chain from `node` on holds at least cnt registered positions with the key of cur. */
    ghost predicate OnChain(node: int, cnt: int, p: int, key: int)
      reads this
      requires size > 0
    {
      cnt > 0 ==> && lo <= p < cur < |keys3| && keys3[p] == key
                  && node == Slot(p, size)
                  && Count(keys3, lo, p + 1, key) >= cnt
    }

    lemma ChainStep(node: int, cnt: int, p: int, key: int)
      requires Base() && OnChain(node, cnt, p, key) && cnt > 0
      ensures 0 <= node < succ3.Length
      ensures OnChain(succ3[node], cnt - 1, Latest(keys3, lo, p, key), key)
    {
      hide Ring, Indexed, KeysTrue, Slot, CursorsAt, Counted, Headed;
    }

    /** The byte tests that admit a candidate. */
    predicate Candidate(node: nat, scanEnd: byte)
      reads this, b
      requires mLen >= 1 && node + mLen < b.Length && bp + mLen < b.Length
    {
      && b[node + mLen - 1] == scanEnd
      && b[node + mLen] == b[bp + mLen]
      && b[node] == b[bp]
      && b[node + 1] == b[bp + 1]
    }

    lemma CandidateAgrees(p: nat, scanEnd: byte)
      requires Base() && lo == Oldest(cur, n) && lo <= p < cur < |keys3|
      requires look >= 3 && 2 <= mLen < look && keys3[p] == keys3[cur]
      ensures Slot(p, size) + mLen < b.Length && bp + mLen < b.Length
      ensures Candidate(Slot(p, size), scanEnd) ==> text[p] == text[cur] && text[p + 1] == text[cur + 1]
      ensures Hash3(text[p], text[p + 1], text[p + 2]) == Hash3(text[cur], text[cur + 1], text[cur + 2])
    {
      hide Ring, Indexed, Chained, Slot, Hash3;
      ReadAt(p, 0); ReadAt(p, 1); ReadAt(p, mLen);
      ReadAt(cur, 0); ReadAt(cur, 1); ReadAt(cur, mLen);
    }

    /** A position that fails the byte tests does not match longer. */
    lemma CandidateMissed(p: nat, scanEnd: byte)
      requires Base() && lo == Oldest(cur, n) && lo <= p < cur < |keys3|
      requires look >= 3 && 2 <= mLen < look && Same(text, p, cur, mLen + 1) && cur + mLen < |text| && scanEnd == text[cur + mLen - 1]
      requires Slot(p, size) + mLen < b.Length && bp + mLen < b.Length
      ensures Candidate(Slot(p, size), scanEnd)
    {
      hide Ring, Indexed, Chained, Slot, Hash3, KeysTrue, Same;
      AgreeAt(p, 0);
      AgreeAt(p, 1);
      AgreeAt(p, mLen - 1);
      AgreeAt(p, mLen);
      ReadAt(cur, mLen - 1);
    }

    lemma AgreeAt(p: nat, i: nat)
      requires Base() && lo == Oldest(cur, n) && lo <= p < cur && i <= mLen < look && Same(text, p, cur, mLen + 1)
      ensures Slot(p, size) + i < b.Length && bp + i < b.Length && b[Slot(p, size) + i] == b[bp + i]
    {
      hide Ring, Indexed, Chained, Slot, Hash3, KeysTrue, Same;
      ReadAt(p, i);
      ReadAt(cur, i);
      SameAt(text, p, cur, mLen + 1, i);
    }

    /** Compares the text at node with that at cur, if it can match in more than mLen bytes. */
    method Examine(node: nat, scanEnd: byte, ghost p: nat) returns (i: nat)
      requires Base() && lo == Oldest(cur, n) && lo <= p < cur < |keys3| && node == Slot(p, size)
      requires look >= 3 && 2 <= mLen < look && keys3[p] == keys3[cur] && scanEnd == text[cur + mLen - 1]
      ensures i <= look && (i > mLen ==> Same(text, p, cur, i) && (i < look ==> !Same(text, p, cur, i + 1)))
      ensures i <= mLen ==> !Same(text, p, cur, mLen + 1)
    {
      hide Ring, Chained, Indexed, KeysTrue, Slot, Hash3, Same, Candidate;
      CandidateAgrees(p, scanEnd);
      i := 0;
      if Candidate(node, scanEnd) {
        i := MatchLength(node, p);
        if i <= mLen && Same(text, p, cur, mLen + 1) {
          SameLess(text, p, cur, mLen + 1, i + 1);
        }
      } else if Same(text, p, cur, mLen + 1) {
        CandidateMissed(p, scanEnd);
      }
    }

    /** No position with the hash of cur from q on matches in more than len bytes. */
    ghost predicate NoneLonger(q: int, len: nat)
      reads this`lo, this`cur, this`keys3
      requires cur < |keys3|
    {
      forall p :: lo <= p < cur && q < p && keys3[p] == keys3[cur] ==> !Same(text, p, cur, len + 1)
    }

    lemma NoneLongerStep(q: int, len: nat, len': nat)
      requires 0 <= lo <= q < cur < |keys3| && keys3[q] == keys3[cur] && len <= len'
      requires NoneLonger(q, len) && !Same(text, q, cur, len' + 1)
      ensures NoneLonger(Latest(keys3, lo, q, keys3[cur]), len')
    {
      hide Latest, Count;
      var q' := Latest(keys3, lo, q, keys3[cur]);
      forall p | lo <= p < cur && q' < p && keys3[p] == keys3[cur] ensures !Same(text, p, cur, len' + 1) {
        if p < q {
          LatestGap(keys3, lo, q, keys3[cur], p);
        } else if p > q && Same(text, p, cur, len' + 1) {
          SameLess(text, p, cur, len' + 1, len + 1);
        }
      }
    }

    lemma StartLonger(len: nat)
      requires 0 <= lo <= cur < |keys3|
      ensures NoneLonger(Latest(keys3, lo, cur, keys3[cur]), len)
      ensures Count(keys3, Behind(Latest(keys3, lo, cur, keys3[cur]), lo), cur, keys3[cur]) == 0
    {
      hide Latest, Count, Same;
      LatestCount(keys3, lo, cur, keys3[cur]);
      var q := Latest(keys3, lo, cur, keys3[cur]);
      forall p | lo <= p < cur && q < p ensures keys3[p] != keys3[cur] {
        LatestGap(keys3, lo, cur, keys3[cur], p);
      }
    }

    lemma EndLonger(p: int, len: nat, cnt: int)
      requires 0 <= lo <= cur < |keys3| && -1 <= p < cur && NoneLonger(p, len)
      requires Count(keys3, Behind(p, lo), cur, keys3[cur]) == cnt
      ensures forall q :: lo <= q < cur && keys3[q] == keys3[cur] && Count(keys3, q, cur, keys3[cur]) <= cnt ==>
                !Same(text, q, cur, len + 1)
    {
      hide Count, Same;
      forall q | lo <= q < cur && keys3[q] == keys3[cur] && Count(keys3, q, cur, keys3[cur]) <= cnt
        ensures !Same(text, q, cur, len + 1)
      {
        if q <= p {
          CountFrom(keys3, q, p + 1, cur, keys3[cur]);
        }
      }
    }

    /** Takes the match at node if it is longer; says whether to stop there. */
    method TryNode(node: nat, scanEnd0: byte, ghost p: nat) returns (stop: bool, scanEnd: byte)
      requires Base() && lo == Oldest(cur, n) && |keys3| == cur + 1 && look >= 3 && HasMatch() && mLen < look
      requires lo <= p < cur && node == Slot(p, size) && keys3[p] == keys3[cur] && scanEnd0 == text[cur + mLen - 1]
      requires NoneLonger(p, mLen) && BestKnown(best3[..], text, n, lo, cur, size)
      modifies this`mLen, this`mPos, this`mAt
      ensures HasMatch() && mLen >= old(mLen)
      ensures if mLen == old(mLen) then mAt == old(mAt) else mLen == look || !Same(text, mAt, cur, mLen + 1)
      ensures stop ==> mLen > old(mLen) && Longest(text, cur, lo, mLen)
      ensures !stop ==> mLen < look && scanEnd == text[cur + mLen - 1]
      ensures !stop ==> NoneLonger(Latest(keys3, lo, p, keys3[cur]), mLen)
    {
      hide Ring, Chained, Indexed, KeysTrue, Slot, Hash3, Same, Count, Latest, NoneLonger, BestKnown, Longest;
      stop, scanEnd := false, scanEnd0;
      ghost var before := mLen;
      var i := Examine(node, scanEnd, p);
      if i > mLen {
        mLen, mPos, mAt := i, node, p;
        if mLen == look || mLen >= F || mLen > best3[node] {
          GoodEnough(p, before);
          return true, scanEnd;
        }
        ReadAt(cur, mLen - 1);
        scanEnd := b[bp + mLen - 1];
      }
      NoneLongerStep(p, before, mLen);
    }

    /** Walks the hash chain for a longer match. It stops at a match that is longer than any
        found at its own place, and misses nothing by that. */
    method Search(node0: int, cnt0: int)
      requires Base() && lo == Oldest(cur, n) && |keys3| == cur + 1
      requires look >= 3 && HasMatch() && mLen < look
      requires 0 <= cnt0 <= Count(keys3, lo, cur, keys3[cur])
      requires cnt0 > 0 ==> node0 == Slot(Latest(keys3, lo, cur, keys3[cur]), size)
      requires BestKnown(best3[..], text, n, lo, cur, size) && (cnt0 >= REACH || cnt0 == Count(keys3, lo, cur, keys3[cur]))
      modifies this`mLen, this`mPos, this`mAt
      ensures HasMatch() && mLen >= old(mLen) && Longest(text, cur, lo, mLen)
      ensures if mLen == old(mLen) then mAt == old(mAt) else mLen == look || !Same(text, mAt, cur, mLen + 1)
    {
      hide Ring, Chained, Indexed, KeysTrue, Slot, Hash3, Same, Count, Latest, NoneLonger, BestKnown, Longest;
      ghost var key := keys3[cur];
      var node, cnt := node0, cnt0;
      ghost var p := Latest(keys3, lo, cur, key);
      StartOnChain(node, cnt, key);
      StartLonger(mLen);
      ReadAt(cur, mLen - 1);
      var scanEnd := b[bp + mLen - 1];
      while cnt > 0
        invariant 0 <= cnt <= cnt0 && OnChain(node, cnt, p, key)
        invariant HasMatch() && old(mLen) <= mLen < look && scanEnd == text[cur + mLen - 1]
        invariant -1 <= p < cur && NoneLonger(p, mLen) && Count(keys3, Behind(p, lo), cur, key) == cnt0 - cnt
        invariant if mLen == old(mLen) then mAt == old(mAt) else !Same(text, mAt, cur, mLen + 1)
      {
        ChainStep(node, cnt, p, key);
        var stop;
        stop, scanEnd := TryNode(node, scanEnd, p);
        if stop {
          return;
        }
        StepBack(keys3, lo, p, cur, key);
        cnt := cnt - 1;
        p := Latest(keys3, lo, p, key);
        node := succ3[node];
      }
      EndLonger(p, mLen, cnt0);
      NothingMissed(mLen, cnt0);
    }

    /** Only positions with the hash of cur can agree with it in three bytes. */
    lemma SameKey(q: nat, len: nat)
      requires Base() && |keys3| == cur + 1 && q < cur && len >= 3 && Same(text, q, cur, len)
      ensures keys3[q] == keys3[cur]
    {
      hide Ring, Chained, Indexed, Slot, Hash3;
      SameAt(text, q, cur, len, 0);
      SameAt(text, q, cur, len, 1);
      SameAt(text, q, cur, len, 2);
    }

    lemma NothingMissed(len: nat, cnt: int)
      requires Base() && |keys3| == cur + 1 && 0 <= lo <= cur && len >= 2
      requires cnt >= REACH || cnt == Count(keys3, lo, cur, keys3[cur])
      requires forall q :: lo <= q < cur && keys3[q] == keys3[cur] && Count(keys3, q, cur, keys3[cur]) <= cnt ==>
                 !Same(text, q, cur, len + 1)
      ensures Longest(text, cur, lo, len)
    {
      hide Ring, Chained, Indexed, KeysTrue, Slot, Hash3, Same, Count;
      forall q | lo <= q < cur && cur - REACH <= q ensures !Exceeds(text, q, cur, len) {
        if Same(text, q, cur, len + 1) {
          SameKey(q, len + 1);
          CountAtMost(keys3, q, cur, keys3[cur]);
          CountFrom(keys3, lo, q, cur, keys3[cur]);
        }
      }
    }

    /** The three reasons to stop at position p, where the match is longer than before. */
    lemma GoodEnough(p: nat, before: nat)
      requires Base() && |keys3| == cur + 1 && lo == Oldest(cur, n) && lo <= p < cur && before < mLen <= look
      requires NoneLonger(p, before) && BestKnown(best3[..], text, n, lo, cur, size) && before >= 2
      requires Same(text, p, cur, mLen) && (mLen < look ==> !Same(text, p, cur, mLen + 1))
      requires mLen == look || mLen >= F || mLen > best3[Slot(p, size)]
      ensures Longest(text, cur, lo, mLen)
    {
      hide Ring, Chained, Indexed, KeysTrue, Slot, Hash3, Same, BestOf;
      forall q | lo <= q < cur && cur - REACH <= q && mLen < F ensures !Exceeds(text, q, cur, mLen) {
        if Same(text, q, cur, mLen + 1) {
          SameFitsIn(text, q, cur, mLen + 1);
          SameKey(q, mLen + 1);
          if q > p {
            SameLess(text, q, cur, mLen + 1, before + 1);
          } else if q < p {
            assert BestOf(best3[..], text, n, p, size);
            EarlyExit(best3[..], text, n, p, size, cur, mLen, q);
          }
        }
      }
    }

    lemma StartOnChain(node: int, cnt: int, key: int)
      requires Base() && |keys3| == cur + 1
      requires cnt <= Count(keys3, lo, cur, key)
      requires cnt > 0 ==> node == Slot(Latest(keys3, lo, cur, key), size)
      ensures OnChain(node, cnt, Latest(keys3, lo, cur, key), key)
    {
      hide Ring, Chained, Indexed, KeysTrue, Slot, CursorsAt;
    }

    /** No position in the window begins with the two bytes at cur. */
    ghost predicate NoPair()
      reads this`cur
    {
      forall p :: Oldest(cur, n) <= p < cur ==> !Same(text, p, cur, 2)
    }

    lemma NoSuchPair(k: int)
      requires Base() && lo == Oldest(cur, n) && |keys2| == cur && look >= 2 && k == Key2(bp)
      requires Latest(keys2, lo, cur, k) < 0
      ensures NoPair()
    {
      hide Ring, Chained, Indexed, Slot, Hash3, Latest;
      KeysOfText(cur);
      forall p | lo <= p < cur ensures !Same(text, p, cur, 2) {
        LatestGap(keys2, lo, cur, k, p);
        if Same(text, p, cur, 2) {
          SameAt(text, p, cur, 2, 0);
          SameAt(text, p, cur, 2, 1);
        }
      }
    }

    /** Looks the next two bytes up directly. */
    method Search2() returns (found: bool)
      requires Base() && lo == Oldest(cur, n) && |keys2| == cur
      requires look >= 2 && mLen == 1
      modifies this`mLen, this`mPos, this`mAt
      ensures found ==> HasMatch() && mLen == 2 && Nearest(text, mAt, cur)
      ensures !found ==> mLen == 1 && NoPair()
    {
      hide Ring, Chained, Slot, Hash3, KeysTrue, Look, Latest;
      var k := Key2(bp);
      var node := head2[k];
      ghost var p := Latest(keys2, lo, cur, k);
      if node == NIL2 {
        NoSuchPair(k);
        return false;
      }
      SamePair(p, k);
      mLen, mPos, mAt := 2, node, p;
      NearestPair(p, k);
      return true;
    }

    lemma NearestPair(p: nat, k: int)
      requires Base() && lo == Oldest(cur, n) && |keys2| == cur && look >= 2 && k == Key2(bp)
      requires lo <= p < cur && p == Latest(keys2, lo, cur, k)
      ensures Nearest(text, p, cur)
    {
      hide Ring, Chained, Indexed, Slot, Hash3, Latest;
      KeysOfText(cur);
      forall q | p < q < cur ensures !Same(text, q, cur, 2) {
        LatestGap(keys2, lo, cur, k, q);
        if Same(text, q, cur, 2) {
          SameAt(text, q, cur, 2, 0);
          SameAt(text, q, cur, 2, 1);
        }
      }
    }

    lemma SamePair(p: nat, k: int)
      requires Base() && lo <= p < cur == |keys2| && look >= 2 && k == Key2(bp) == keys2[p]
      ensures Same(text, p, cur, 2)
    {
      hide Ring, Chained, Indexed, Slot, Hash3;
      KeysOfText(cur);
      assert Hash2(text[p], text[p + 1]) == Hash2(text[cur], text[cur + 1]);
      assert text[p..p + 2] == [text[p], text[p + 1]];
      assert text[cur..cur + 2] == [text[cur], text[cur + 1]];
    }

    /** Two-byte lookup first; the chain is worth walking only if that succeeds. */
    method SearchBoth(node: int, cnt: int)
      requires Base() && lo == Oldest(cur, n) && |keys3| == cur + 1 && |keys2| == cur
      requires mLen == 1 && look >= 2
      requires 0 <= cnt <= Count(keys3, lo, cur, keys3[cur])
      requires cnt > 0 ==> node == Slot(Latest(keys3, lo, cur, keys3[cur]), size)
      requires BestKnown(best3[..], text, n, lo, cur, size) && (cnt >= REACH || cnt == Count(keys3, lo, cur, keys3[cur]))
      modifies this`mLen, this`mPos, this`mOff, this`mAt
      ensures Found(text, cur, mLen, mOff) && Longest(text, cur, lo, mLen)
    {
      hide Ring, Chained, Indexed, KeysTrue, Slot, Hash3, Count, Latest, Same, BestKnown, Longest, Nearest;
      var found := Search2();
      if found {
        if look >= 3 {
          Search(node, cnt);
        } else {
          ShortLook(text, cur, lo, 2);
        }
        SlotDistance(mAt, cur, size);
        mOff := if bp > mPos then bp - mPos else size - (mPos - bp);
      } else {
        PairlessLongest(text, cur, lo);
      }
      WholeReach(text, cur, lo, mLen);
    }

    /** Finds a match for the text at cur, and registers cur. */
    method FindBest()
      requires Valid() && cur <= |text| && mLen == 1 && maxChain >= REACH
      modifies this`mLen, this`mPos, this`mOff, this`mAt, this`bChar, this`nodeCount, this`lo, this`keys3, this`keys2,
               head3, succ3, best3, llen3, head2
      ensures Registered()
      ensures bChar < 0 <==> cur == |text|
      ensures cur < |text| ==> Found(text, cur, mLen, mOff)
    {
      hide Ring, Chained, Indexed, KeysTrue, Slot, Hash3, Count, Latest, Same, BestKnown, Found;
      var node, cnt, key := Link3();
      if cnt > maxChain && maxChain > 0 {
        cnt := maxChain;
      }
      SearchHere(node, cnt);
      ghost var before := lo;
      RemoveNode();
      BestFewer(best3[..], text, n, before, lo, cur + 1, size);
      Link2();
    }

    /** Searches, unless there is not enough lookahead. */
    method SearchHere(node: int, cnt: int)
      requires Base() && lo == Oldest(cur, n) && |keys3| == cur + 1 && |keys2| == cur && cur <= |text| && mLen == 1
      requires 0 <= cnt <= Count(keys3, lo, cur, keys3[cur])
      requires cnt > 0 ==> node == Slot(Latest(keys3, lo, cur, keys3[cur]), size)
      requires BestKnown(best3[..], text, n, lo, cur, size) && (cnt >= REACH || cnt == Count(keys3, lo, cur, keys3[cur]))
      modifies this`mLen, this`mPos, this`mOff, this`mAt, this`bChar, best3
      ensures Base() && BestKnown(best3[..], text, n, lo, cur + 1, size)
      ensures bChar < 0 <==> cur == |text|
      ensures cur < |text| ==> Found(text, cur, mLen, mOff)
    {
      hide Ring, Chained, Indexed, KeysTrue, Slot, Hash3, Count, Latest, Same, BestKnown, Found, Longest;
      ghost var best := best3[..];
      bChar := b[bp];
      if mLen >= look {
        if look == 0 {
          bChar := -1;
        }
        mOff := 0;
        if cur < |text| {
          LastByte(text, cur);
        }
        BestInsert(best, text, n, lo, cur, size, F + 1);
        best3[bp] := F + 1;
        assert best3[..] == best[Slot(cur, size) := F + 1];
      } else {
        SearchBoth(node, cnt);
        BestInsert(best, text, n, lo, cur, size, mLen);
        best3[bp] := mLen;
        assert best3[..] == best[Slot(cur, size) := mLen];
      }
    }

    method SetMaxChain(chain: nat)
      requires Valid()
      modifies this`maxChain
      ensures Valid() && maxChain == chain
    {
      maxChain := chain;
    }

    /** After a token of thisLen bytes of which `skip` have been searched already,
        registers the rest and searches at the position that follows. Returns what
        the compressor keeps: match length and offset, lookahead, and position. */
    method FindMatch(thisLen: nat, skip: nat) returns (len: nat, off: nat, left: nat, pos: nat)
      requires Valid() && cur <= |text| && maxChain >= REACH
      requires skip > 0 ==> skip <= thisLen && cur + (thisLen - skip) <= |text|
      modifies this, b, head3, succ3, best3, llen3, head2
      ensures Valid()
      ensures var at := old(cur) + (if skip > 0 then thisLen - skip else 0);
              && cur == at + 1 && pos == at
              && left == (if at == |text| then 0 else 1 + Look(text, at + 1))
              && (at == |text| ==> len == 0)
              && (at < |text| ==> Found(text, at, len, off))
      ensures maxChain == old(maxChain)
    {
      hide Ring, Chained, Indexed, KeysTrue, Slot, Hash3, Same, BestKnown, Found;
      if skip > 0 {
        Accept(thisLen - skip);
      }
      mLen := 1;
      FindBest();
      len, off := mLen, mOff;
      GetByte();
      if bChar < 0 {
        left := 0;
        len := 0;
      } else {
        left := look + 1;
      }
      pos := inPos - left;
    }
  }

  /** Nothing agrees in more bytes than there are. */
  lemma ShortLook(text: seq<byte>, p: nat, oldest: nat, len: nat)
    requires p + len >= |text|
    ensures Longest(text, p, oldest, len)
  {
  }

  lemma PairlessLongest(text: seq<byte>, p: nat, lo: nat)
    requires lo == Oldest(p, Window(text)) && p <= |text| && forall q :: lo <= q < p ==> !Same(text, q, p, 2)
    ensures Longest(text, p, lo, 1) && Nearest(text, p - N - 1, p)
  {
    hide Same;
    forall r | p - N - 1 < r < p && r >= 0 ensures !Same(text, r, p, 2) {
      InWindow(text, p, r);
    }
  }

  /** The window reaches further back than the search. */
  lemma WholeReach(text: seq<byte>, p: nat, lo: nat, len: nat)
    requires lo == Oldest(p, Window(text)) && p <= |text| && Longest(text, p, lo, len)
    ensures Longest(text, p, 0, len)
  {
    hide Same;
    forall q | 0 <= q < p && p - REACH <= q && len < F ensures !Exceeds(text, q, p, len) {
      InWindow(text, p, q);
    }
  }

  lemma LastByte(text: seq<byte>, p: nat)
    requires p + 1 == |text|
    ensures Found(text, p, 1, 0)
  {
  }

  lemma SameFitsIn(text: seq<byte>, q: nat, p: nat, n: nat)
    requires Same(text, q, p, n)
    ensures p + n <= |text|
  {
  }

  lemma {:induction false} CountAtMost(keys: seq<int>, q: nat, hi: nat, k: int)
    requires q <= hi <= |keys|
    ensures Count(keys, q, hi, k) <= hi - q
    decreases hi
  {
    if q < hi {
      CountAtMost(keys, q, hi - 1, k);
    }
  }

  lemma ChainFront(head: seq<int>, succ: seq<int>, llen: seq<int>, keys: seq<int>, lo: nat, size: nat, k: int)
    requires Chained(head, succ, llen, keys, lo, size) && 0 <= k < HSIZE
    ensures var keys' := keys + [k];
            && llen[k] == Count(keys', lo, |keys|, k)
            && (llen[k] > 0 ==> head[k] == Slot(Latest(keys', lo, |keys|, k), size))
  {
    KeysPrefix(keys, k, lo, |keys|, k);
  }

  method Filled(n: nat, v: int) returns (a: array<int>)
    ensures fresh(a) && a.Length == n && forall i :: 0 <= i < n ==> a[i] == v
  {
    a := new int[n];
    for i := 0 to n
      invariant forall j :: 0 <= j < i ==> a[j] == v
    {
      a[i] := v;
    }
  }

  method FirstBytes(text: seq<byte>, first: nat) returns (b: array<byte>)
    requires first <= |text| && first <= F
    ensures fresh(b) && b.Length == N + F + F
    ensures forall i :: 0 <= i < first ==> b[i] == text[i]
  {
    b := new byte[N + F + F];
    for i := 0 to first
      invariant forall j :: 0 <= j < i ==> b[j] == text[j]
    {
      b[i] := text[i];
    }
  }

  lemma FreshWindow(b: seq<byte>, text: seq<byte>, first: nat, size: nat, f: nat)
    requires 0 < f < size && |b| >= size + f && first <= |text| && first <= f
    requires forall i :: 0 <= i < first ==> b[i] == text[i]
    ensures Ring(b, text, 0, first, size, f)
  {
  }

  lemma FreshChains(head: seq<int>, succ: seq<int>, llen: seq<int>, head2: seq<int>, size: nat)
    requires size > 0 && |succ| >= size && |head| == |llen| == HSIZE && |head2| == 0x1_0000
    requires forall k :: 0 <= k < HSIZE ==> llen[k] == 0
    requires forall k :: 0 <= k < 0x1_0000 ==> head2[k] == NIL2
    ensures Chained(head, succ, llen, [], 0, size) && Indexed(head2, [], 0, size)
    ensures forall text :: KeysTrue(text, [], [])
  {
  }
}
