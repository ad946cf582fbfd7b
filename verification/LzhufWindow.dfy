/** The dictionary as the window slides over the text: the byte that enters changes no
    registered string, and what InsertNode reports is true of the text. Positions are
    counted from the start of the blanks; the buffer holds them modulo N. */
module LzhufWindow {
  import opened Bytes
  import opened RingBuffer
  import opened LzhufForest
  import opened LzhufOrder
  import opened LzhufDictionary

  /** No position of the lookahead after r is registered. */
  ghost predicate Clear(b: seq<byte>, forest: seq<Tree>, r: nat, n: nat)
    requires Buffer(b) && |forest| == 256
  {
    forall q: nat :: r < q < r + n ==> !Registered(b, forest, Slot(q, N))
  }

  /** q is a position of the text proper that the window at r still reaches. */
  predicate Recent(q: nat, r: nat)
  {
    N - F <= q <= r && r - q <= N - F
  }

  ghost predicate Superseded(b: seq<byte>, q: nat, r: nat)
    requires Buffer(b)
  {
    exists q': nat :: q < q' <= r && Key(b, Slot(q', N)) == Key(b, Slot(q, N))
  }

  /** Of the positions up to r with the same string, the last one is registered, as long
      as the window at w reaches it. */
  ghost predicate Newest(b: seq<byte>, forest: seq<Tree>, r: nat, w: nat)
    requires Buffer(b) && |forest| == 256
  {
    forall q: nat :: q <= r && Recent(q, w) && !Superseded(b, q, r) ==> Registered(b, forest, Slot(q, N))
  }

  /** Text up to hi is in the ring, r is the position to be coded next. */
  ghost predicate Loaded(b: seq<byte>, v: seq<byte>, r: nat, hi: nat)
  {
    && Buffer(b) && hi <= |v| && Ring(b, v, Low(hi, N), hi, N, F - 1)
    && N - F <= r <= hi <= r + F && (hi < |v| ==> hi == r + F)
  }

  // -------------------------------------------------------------- writing a byte

  /** The buffer after c was written at s and, near the start, again behind the end. */
  function Written(b: seq<byte>, s: nat, c: byte): (b': seq<byte>)
    requires Buffer(b) && s < N
    ensures Buffer(b')
  {
    if s < F - 1 then b[s := c][s + N := c] else b[s := c]
  }

  lemma KeyKept(b: seq<byte>, s: nat, c: byte, x: nat)
    requires Buffer(b) && s < N && x < N && !(x <= s < x + F) && !(x <= s + N < x + F)
    ensures Key(Written(b, s, c), x) == Key(b, x) && Written(b, s, c)[x] == b[x]
  {
  }

  /** The strings at positions at least F before s, and less than a ring, do not contain s. */
  lemma FarKey(b: seq<byte>, p: nat, q: nat, c: byte)
    requires Buffer(b) && q + F <= p < q + N
    ensures Key(Written(b, Slot(p, N), c), Slot(q, N)) == Key(b, Slot(q, N))
    ensures Written(b, Slot(p, N), c)[Slot(q, N)] == b[Slot(q, N)]
  {
    hide Key, Written;
    SlotAdd(q, p - q, N);
    KeyKept(b, Slot(p, N), c, Slot(q, N));
  }

  /** A string that contains s begins in the lookahead or at s. */
  lemma NearSlot(r: nat, x: nat)
    requires x < N
    requires forall q :: r < q <= r + F ==> x != Slot(q, N)
    ensures var s := Slot(r + F, N); !(x <= s < x + F) && !(x <= s + N < x + F)
  {
    var s := Slot(r + F, N);
    if x <= s < x + F {
      SlotAdd(r + F - (s - x), s - x, N);
    } else if x <= s + N < x + F {
      SlotAdd(r + F - (s + N - x), s + N - x, N);
    }
  }

  lemma TextWritten(k: Links, b: seq<byte>, forest: seq<Tree>, r: nat, c: byte)
    requires Grown(k, b, forest) && Clear(b, forest, r, F + 1)
    ensures Grown(k, Written(b, Slot(r + F, N), c), forest)
    ensures forall p :: 0 <= p < N ==> (Registered(Written(b, Slot(r + F, N), c), forest, p) <==> Registered(b, forest, p))
  {
    hide Spells, Proper, Ordered, Key, Slot, Written;
    var s := Slot(r + F, N);
    var b' := Written(b, s, c);
    forall ch: byte, x | x in Members(forest[ch]) ensures x < N && Key(b', x) == Key(b, x) && b'[x] == b[x] && b[x] == ch {
      assert TreeAt(k, b, forest[ch], ch);
      assert Registered(b, forest, x);
      NearSlot(r, x);
      KeyKept(b, s, c, x);
    }
    forall ch: byte ensures TreeAt(k, b', forest[ch], ch) {
      assert TreeAt(k, b, forest[ch], ch);
      OrderFrame(b, b', forest[ch]);
    }
  }

  // ------------------------------------------------------------- sliding by one

  /** The forest after DeleteNode(p). */
  ghost function Forgotten(b: seq<byte>, forest: seq<Tree>, p: nat): (f: seq<Tree>)
    requires Buffer(b) && |forest| == 256 && p < N
    ensures |f| == 256
  {
    if Registered(b, forest, p) then forest[b[p] := Remove(forest[b[p]], p)] else forest
  }

  /** DeleteNode takes out p alone. */
  lemma ForgottenMembers(k: Links, b: seq<byte>, forest: seq<Tree>, p: nat)
    requires Grown(k, b, forest) && p < N
    ensures forall x :: 0 <= x < N ==> (Registered(b, Forgotten(b, forest, p), x) <==> Registered(b, forest, x) && x != p)
  {
    hide Spells, LzhufForest.Proper, Ordered, Remove, Key;
    var t := forest[b[p]];
    assert TreeAt(k, b, t, b[p]);
    if Registered(b, forest, p) {
      RemoveOrdered(b, t, p);
    }
  }

  /** InsertNode puts in p, and takes out only a position with the same string. */
  lemma InsertedMembers(k: Links, b: seq<byte>, forest: seq<Tree>, p: nat)
    requires Grown(k, b, forest) && p < N
    ensures var forest' := forest[b[p] := Insert(b, forest[b[p]], p)];
            && Registered(b, forest', p)
            && forall x :: 0 <= x < N && x != p ==>
                 && (Registered(b, forest', x) ==> Registered(b, forest, x))
                 && (Registered(b, forest, x) && Key(b, x) != Key(b, p) ==> Registered(b, forest', x))
  {
    hide Spells, LzhufForest.Proper, Ordered, Insert, Key;
    var t := forest[b[p]];
    assert TreeAt(k, b, t, b[p]);
    InsertOrdered(b, t, p);
  }

  /** The state when r + 1 is about to be inserted. */
  ghost predicate Opened(b: seq<byte>, forest: seq<Tree>, r: nat)
    requires Buffer(b) && |forest| == 256
  {
    Clear(b, forest, r, F + 1) && Newest(b, forest, r, r + 1)
  }

  lemma OldestForgotten(k: Links, b: seq<byte>, forest: seq<Tree>, r: nat)
    requires Grown(k, b, forest) && Clear(b, forest, r, F) && Newest(b, forest, r, r) && r + F >= N
    ensures Opened(b, Forgotten(b, forest, Slot(r + F, N)), r)
  {
    hide Registered, Key, Slot, Superseded;
    var s := Slot(r + F, N);
    ForgottenMembers(k, b, forest, s);
    forall q: nat | q <= r && Recent(q, r + 1) && !Superseded(b, q, r)
      ensures Registered(b, Forgotten(b, forest, s), Slot(q, N))
    {
      SlotDistinct(q, r + F, N);
    }
  }

  lemma ByteEntered(k: Links, b: seq<byte>, forest: seq<Tree>, r: nat, c: byte)
    requires Grown(k, b, forest) && Opened(b, forest, r)
    ensures Opened(Written(b, Slot(r + F, N), c), forest, r)
  {
    hide Registered, Key, Slot, Written;
    var b' := Written(b, Slot(r + F, N), c);
    TextWritten(k, b, forest, r, c);
    forall q: nat | q <= r && Recent(q, r + 1) && !Superseded(b', q, r)
      ensures Registered(b', forest, Slot(q, N))
    {
      FarKey(b, r + F, q, c);
      forall q': nat | q < q' <= r ensures Key(b, Slot(q', N)) != Key(b, Slot(q, N)) {
        FarKey(b, r + F, q', c);
      }
    }
  }

  lemma NextInserted(k: Links, b: seq<byte>, forest: seq<Tree>, r: nat)
    requires Grown(k, b, forest) && Opened(b, forest, r)
    ensures var p := Slot(r + 1, N);
            var forest' := forest[b[p] := Insert(b, forest[b[p]], p)];
            Clear(b, forest', r + 1, F) && Newest(b, forest', r + 1, r + 1)
  {
    hide Registered, Key, Slot, Insert;
    var p := Slot(r + 1, N);
    var forest' := forest[b[p] := Insert(b, forest[b[p]], p)];
    InsertedMembers(k, b, forest, p);
    forall q: nat | r + 1 < q < r + 1 + F ensures !Registered(b, forest', Slot(q, N)) {
      SlotDistinct(r + 1, q, N);
    }
    forall q: nat | Recent(q, r + 1) && !Superseded(b, q, r + 1) ensures Registered(b, forest', Slot(q, N)) {
      if q <= r {
        assert !Superseded(b, q, r);
        assert Key(b, Slot(r + 1, N)) != Key(b, Slot(q, N));
      }
    }
  }

  // -------------------------------------------------------------------- matches

  /** A match that may be used: the text pos + 1 back goes on like the text at r, and no
      recent position matches better. */
  ghost predicate Usable(v: seq<byte>, r: nat, hi: nat, len: nat, pos: int)
  {
    && r <= hi <= |v|
    && (len == 0 || (THRESHOLD < len <= F && 0 <= pos < N - F && pos + 1 <= r && Agree(v, r, hi, r - pos - 1, len)))
    && forall q: nat :: Recent(q, r) && q < r ==> AtMost(v, r, hi, q, if len > THRESHOLD then len else THRESHOLD)
  }

  /** Text from q agrees with text from r for n bytes, or up to hi. */
  ghost predicate Agree(v: seq<byte>, r: nat, hi: nat, q: nat, n: nat)
    requires q <= r <= hi <= |v|
  {
    forall j :: r <= j < r + n && j < hi ==> v[j] == v[j - r + q]
  }

  /** Within the lookahead, text from q agrees with text from r for at most n bytes. */
  ghost predicate AtMost(v: seq<byte>, r: nat, hi: nat, q: nat, n: nat)
    requires q <= r <= hi <= |v|
  {
    forall m :: n < m <= F && r + m <= hi ==> !Agree(v, r, hi, q, m)
  }

  /** Where x, pos + 1 back in the ring, lies in the text. */
  lemma PlaceOfMatch(b: seq<byte>, forest: seq<Tree>, r: nat, x: nat)
    requires Buffer(b) && |forest| == 256 && r + F >= N && x < N && x != Slot(r, N)
    requires Registered(b, forest, x) && Clear(b, forest, r, F)
    ensures 1 <= Distance(Slot(r, N), x) <= N - F && Slot(r - Distance(Slot(r, N), x), N) == x
  {
    hide Registered;
    var rs := Slot(r, N);
    var d := if x < rs then rs - x else rs - x + N;
    RingDistance(rs, x);
    if d > N - F {
      SlotAdd(r, N - d, N);
    } else {
      BackSlot(r, d, N);
    }
  }

  lemma RingDistance(a: nat, x: nat)
    requires a < N && x < N && x != a
    ensures Distance(a, x) == if x < a then a - x else a - x + N
  {
  }

  /** What is in the ring at r and at q, byte by byte. */
  lemma KeysAreText(b: seq<byte>, v: seq<byte>, r: nat, hi: nat, q: nat, i: nat)
    requires Loaded(b, v, r, hi) && q <= r && r - q <= N - F && i < F && r + i < hi
    ensures Key(b, Slot(r, N))[i] == v[r + i] && Key(b, Slot(q, N))[i] == v[q + i]
  {
    RingRead(b, v, Low(hi, N), hi, N, F - 1, r, i);
    RingRead(b, v, Low(hi, N), hi, N, F - 1, q, i);
  }

  lemma MatchIsText(k: Links, b: seq<byte>, forest: seq<Tree>, v: seq<byte>, r: nat, hi: nat, len: nat, pos: int)
    requires Grown(k, b, forest) && Loaded(b, v, r, hi) && Clear(b, forest, r, F) && len > 0
    requires Best(b, Slot(r, N), Members(forest[b[Slot(r, N)]]), len, pos)
    ensures THRESHOLD < len <= F && 0 <= pos < N - F && pos + 1 <= r && Agree(v, r, hi, r - pos - 1, len)
  {
    hide Key, Slot, Ring, Distance, Spells, LzhufForest.Proper, Ordered, Common;
    var rs := Slot(r, N);
    var x :| x in Members(forest[b[rs]]) && MatchAt(b, rs, x, len, pos);
    assert TreeAt(k, b, forest[b[rs]], b[rs]);
    assert Registered(b, forest, x);
    PlaceOfMatch(b, forest, r, x);
    var q := r - pos - 1;
    forall j | r <= j < r + len && j < hi ensures v[j] == v[j - r + q] {
      KeysAreText(b, v, r, hi, q, j - r);
    }
  }

  /** Every recent string is registered, if not under q itself then under a later position. */
  lemma {:induction false} Representative(b: seq<byte>, forest: seq<Tree>, r: nat, w: nat, q: nat) returns (x: nat)
    requires Buffer(b) && |forest| == 256 && Newest(b, forest, r, w) && q <= r <= w && Recent(q, w)
    ensures x < N && Registered(b, forest, x) && Key(b, x) == Key(b, Slot(q, N))
    decreases r - q
  {
    hide Registered, Key, Slot;
    if Superseded(b, q, r) {
      var q': nat :| q < q' <= r && Key(b, Slot(q', N)) == Key(b, Slot(q, N));
      x := Representative(b, forest, r, w, q');
    } else {
      x := Slot(q, N);
    }
  }

  lemma CommonAtLeast(a: seq<byte>, b: seq<byte>, n: nat)
    requires n <= |a| == |b| && forall i :: 0 <= i < n ==> a[i] == b[i]
    ensures Common(a, b) >= n
  {
    hide Common;
  }

  lemma NoneBetter(k: Links, b: seq<byte>, forest: seq<Tree>, v: seq<byte>, r: nat, hi: nat, len: nat, pos: int,
                   q: nat, m: nat)
    requires Grown(k, b, forest) && Loaded(b, v, r, hi) && r > 0 && Newest(b, forest, r - 1, r)
    requires Best(b, Slot(r, N), Members(forest[b[Slot(r, N)]]), len, pos)
    requires q < r && Recent(q, r) && m <= F && r + m <= hi && Agree(v, r, hi, q, m)
    ensures m <= THRESHOLD || m <= len
  {
    hide Slot, Ring, Distance, Spells, LzhufForest.Proper, Ordered, Common, Newest, Key, TreeAt;
    if m > 0 {
      var rs := Slot(r, N);
      var x := Representative(b, forest, r - 1, r, q);
      forall i | 0 <= i < m ensures Key(b, rs)[i] == Key(b, x)[i] {
        KeysAreText(b, v, r, hi, q, i);
        assert v[r + i] == v[r + i - r + q];
      }
      KeyHead(b, x);
      KeyHead(b, rs);
      CommonAtLeast(Key(b, rs), Key(b, x), m);
      assert NoBetter(b, rs, x, len);
    }
  }

  lemma KeyHead(b: seq<byte>, x: nat)
    requires Buffer(b) && x < N
    ensures Key(b, x)[0] == b[x]
  {
  }

  /** What InsertNode reports when r is inserted. */
  lemma Reported(k: Links, b: seq<byte>, forest: seq<Tree>, v: seq<byte>, r: nat, hi: nat, len: nat, pos: int)
    requires Grown(k, b, forest) && Loaded(b, v, r, hi) && r > 0 && Clear(b, forest, r, F) && Newest(b, forest, r - 1, r)
    requires Best(b, Slot(r, N), Members(forest[b[Slot(r, N)]]), len, pos)
    ensures Usable(v, r, hi, len, pos)
  {
    hide Slot, Ring, Best, Registered, Clear, Newest, Grown, Agree;
    if len > 0 {
      MatchIsText(k, b, forest, v, r, hi, len, pos);
    }
    forall q: nat, m: nat | Recent(q, r) && q < r && (if len > THRESHOLD then len else THRESHOLD) < m <= F && r + m <= hi
      ensures !Agree(v, r, hi, q, m)
    {
      if Agree(v, r, hi, q, m) {
        NoneBetter(k, b, forest, v, r, hi, len, pos, q, m);
      }
    }
  }

  // ------------------------------------------------------------------ the window

  ghost predicate Sliding(dict: Dictionary, v: seq<byte>, r: nat, hi: nat)
    reads dict, dict.text, dict.lson, dict.rson, dict.dad
  {
    && dict.Valid() && Loaded(dict.text[..], v, r, hi)
    && Clear(dict.text[..], dict.forest, r, F) && Newest(dict.text[..], dict.forest, r, r)
  }

  /** What a step of the window leaves: a window one further on and, as long as there is
      lookahead, a usable match. */
  ghost predicate Ready(dict: Dictionary, v: seq<byte>, r: nat, hi: nat)
    reads dict, dict.text, dict.lson, dict.rson, dict.dad
  {
    Sliding(dict, v, r, hi) && Usable(v, r, hi, dict.matchLength, dict.matchPosition)
  }

  lemma LoadedMore(b: seq<byte>, v: seq<byte>, r: nat, hi: nat)
    requires Loaded(b, v, r, hi) && hi < |v|
    ensures Loaded(Written(b, Slot(r + F, N), v[hi]), v, r + 1, hi + 1)
  {
    hide Slot, Ring;
    RingWrite(b, Written(b, Slot(hi, N), v[hi]), v, Low(hi, N), hi, N, F - 1, Low(hi + 1, N));
  }

  method Write(dict: Dictionary, s: nat, c: byte)
    requires Buffer(dict.text[..]) && s < N
    modifies dict.text
    ensures dict.text[..] == Written(old(dict.text[..]), s, c)
  {
    dict.text[s] := c;
    if s < F - 1 {
      dict.text[s + N] := c;
    }
    assert dict.text[..] == Written(old(dict.text[..]), s, c);
  }

  method InsertNext(dict: Dictionary, r: nat, ghost v: seq<byte>, ghost p: nat, ghost hi: nat)
    requires dict.Valid() && Opened(dict.text[..], dict.forest, p)
    requires Loaded(dict.text[..], v, p + 1, hi) && r == Slot(p + 1, N)
    modifies dict, dict.lson, dict.rson, dict.dad
    ensures Ready(dict, v, p + 1, hi)
  {
    hide Slot, Ring, Registered, Newest, TreeAt, Insert, Usable, Best, Loaded;
    ghost var b, k, forest := dict.text[..], dict.Snapshot(), dict.forest;
    NextInserted(k, b, forest, p);
    dict.InsertNode(r);
    Reported(k, b, forest, v, p + 1, hi, dict.matchLength, dict.matchPosition);
  }

  /** A byte comes in: it takes the place of the oldest, and the next position is inserted. */
  method Feed(dict: Dictionary, s: nat, r: nat, c: byte, ghost v: seq<byte>, ghost p: nat, ghost hi: nat)
      returns (s': nat, r': nat)
    requires Sliding(dict, v, p, hi) && s == Slot(p + F, N) && r == Slot(p, N)
    requires hi < |v| && c == v[hi]
    modifies dict, dict.text, dict.lson, dict.rson, dict.dad
    ensures Ready(dict, v, p + 1, hi + 1) && s' == Slot(p + 1 + F, N) && r' == Slot(p + 1, N)
  {
    hide Slot, Ring, Registered, Clear, Newest, TreeAt, Remove, Insert, Written, Usable, Best;
    ghost var b, k := dict.text[..], dict.Snapshot();
    OldestForgotten(k, b, dict.forest, p);
    dict.DeleteNode(s);
    k := dict.Snapshot();
    TextWritten(k, b, dict.forest, p, c);
    ByteEntered(k, b, dict.forest, p, c);
    LoadedMore(b, v, p, hi);
    Write(dict, s, c);
    NextSlot(p, N);
    NextSlot(p + F, N);
    s', r' := Mask(s + 1, N), Mask(r + 1, N);
    InsertNext(dict, r', v, p, hi + 1);
  }

  /** No byte comes in: the window moves on over what it has. */
  method Drain(dict: Dictionary, s: nat, r: nat, len: nat, ghost v: seq<byte>, ghost p: nat, ghost hi: nat)
      returns (s': nat, r': nat, len': nat)
    requires Sliding(dict, v, p, hi) && s == Slot(p + F, N) && r == Slot(p, N)
    requires hi == |v| && len == hi - p > 0
    modifies dict, dict.lson, dict.rson, dict.dad
    ensures s' == Slot(p + 1 + F, N) && r' == Slot(p + 1, N) && len' == len - 1
    ensures len' > 0 ==> Ready(dict, v, p + 1, hi)
  {
    hide Slot, Ring, Registered, Clear, Newest, TreeAt, Remove, Usable;
    OldestForgotten(dict.Snapshot(), dict.text[..], dict.forest, p);
    dict.DeleteNode(s);
    NextSlot(p, N);
    NextSlot(p + F, N);
    s', r', len' := Mask(s + 1, N), Mask(r + 1, N), len - 1;
    if len' > 0 {
      InsertNext(dict, r', v, p, hi);
    }
  }

  /** Blanks and the first bytes of the input, with nothing registered yet. */
  method Fill(dict: Dictionary, input: seq<byte>) returns (len: nat)
    requires dict.Valid() && dict.forest == NoTrees()
    modifies dict.text
    ensures dict.Valid()
    ensures len == if |input| < F then |input| else F
    ensures Loaded(dict.text[..], Blank(N - F) + input, N - F, N - F + len)
  {
    hide Blank, Spells;
    ghost var v := Blank(N - F) + input;
    var r := N - F;
    for i := 0 to r
      invariant forall j :: 0 <= j < i ==> dict.text[j] == 0x20
    {
      dict.text[i] := 0x20;
    }
    len := 0;
    while len < F && len < |input|
      invariant 0 <= len <= F && len <= |input|
      invariant forall j :: 0 <= j < r + len ==> dict.text[j] == v[j]
    {
      dict.text[r + len] := input[len];
      len := len + 1;
    }
    FirstLap(dict.text[..], v, r + len);
    EmptyGrownStill(dict.Snapshot(), old(dict.text[..]), dict.text[..]);
  }

  lemma EmptyGrownStill(k: Links, b: seq<byte>, b': seq<byte>)
    requires Grown(k, b, NoTrees()) && Buffer(b')
    ensures Grown(k, b', NoTrees())
  {
    forall ch: byte ensures TreeAt(k, b', NoTrees()[ch], ch) {
      assert TreeAt(k, b, NoTrees()[ch], ch);
    }
    forall p | 0 <= p < N ensures k.dad[p] == NIL {
      assert !Registered(b, NoTrees(), p);
    }
  }

  lemma FirstLap(b: seq<byte>, v: seq<byte>, hi: nat)
    requires Buffer(b) && hi <= N && hi <= |v| && forall j :: 0 <= j < hi ==> b[j] == v[j]
    ensures Ring(b, v, Low(hi, N), hi, N, F - 1)
  {
  }

  /** The state before the first byte is coded. */
  method Prime(input: seq<byte>) returns (dict: Dictionary, len: nat)
    requires |input| > 0
    ensures fresh(dict) && fresh(dict.text) && fresh(dict.lson) && fresh(dict.rson) && fresh(dict.dad)
    ensures len == if |input| < F then |input| else F
    ensures Ready(dict, Blank(N - F) + input, N - F, N - F + len)
  {
    hide Slot, Ring, TreeAt, Insert, Usable, Best, Blank, Loaded, Key;
    dict := new Dictionary();
    len := Fill(dict, input);
    var r := N - F;
    ghost var b := dict.text[..];
    for i := 1 to F + 1
      invariant dict.Valid() && dict.text[..] == b
      invariant fresh(dict) && fresh(dict.text) && fresh(dict.lson) && fresh(dict.rson) && fresh(dict.dad)
      invariant forall x :: 0 <= x < N && Registered(b, dict.forest, x) ==> r - i < x < r
    {
      InsertedMembers(dict.Snapshot(), b, dict.forest, r - i);
      dict.InsertNode(r - i);
    }
    AboutToStart(b, dict.forest);
    InsertNext(dict, r, Blank(N - F) + input, r - 1, r + len);
  }

  lemma AboutToStart(b: seq<byte>, forest: seq<Tree>)
    requires Buffer(b) && |forest| == 256
    requires forall x :: 0 <= x < N && Registered(b, forest, x) ==> x < N - F
    ensures Opened(b, forest, N - F - 1) && Slot(N - F, N) == N - F
  {
  }
}
