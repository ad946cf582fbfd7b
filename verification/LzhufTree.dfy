/** The adaptive Huffman tree of LZHUF, kept in three arrays: nodes are numbered
    in order of frequency, siblings are an even number and the next odd one. */
module LzhufTree {

  const N_CHAR: nat := 314
  const T: nat := 627            // size of the table: 2 * N_CHAR - 1
  const R: nat := 626            // the root
  const MAX_FREQ: nat := 0x8000

  /** The contents of freq, prnt and son. A son of T or more is a leaf for code son - T,
      and prnt[code + T] is the node of that leaf. */
  datatype Tree = Tree(freq: seq<int>, prnt: seq<int>, son: seq<int>)

  predicate Shape(t: Tree)
  {
    |t.freq| == T + 1 && |t.prnt| == T + N_CHAR && |t.son| == T
  }

  function PairOf(i: int): int
  {
    i - i % 2
  }

  ghost predicate Sorted(freq: seq<int>)
    requires |freq| == T + 1
  {
    && (forall i, j :: 0 <= i <= j <= T ==> freq[i] <= freq[j])
    && freq[0] >= 1 && freq[T] == 0xffff
  }

  /** Every node is a leaf, or has a pair of lower-numbered sons that know their parent. */
  ghost predicate Downward(t: Tree)
    requires Shape(t)
  {
    forall j :: 0 <= j < T ==> SonsOf(t, j, t.son[j])
  }

  ghost predicate SonsOf(t: Tree, j: int, s: int)
    requires Shape(t)
  {
    if s >= T then s < T + N_CHAR && t.prnt[s] == j
    else 0 <= s && s % 2 == 0 && s + 1 < j < T && t.prnt[s] == j && t.prnt[s + 1] == j
  }

  /** Every node but the root, and every code, is a son of its parent. */
  ghost predicate Upward(t: Tree)
    requires Shape(t)
  {
    && (forall i :: 0 <= i < R ==> 0 <= t.prnt[i] < T && t.son[t.prnt[i]] == PairOf(i))
    && (forall i :: T <= i < T + N_CHAR ==> 0 <= t.prnt[i] < T && t.son[t.prnt[i]] == i)
    && t.prnt[R] == 0
  }

  /** Each inner node weighs as much as its sons; at `hole` it is one behind. */
  ghost predicate Sums(t: Tree, hole: int)
    requires Shape(t)
  {
    forall j :: 0 <= j < T && 0 <= t.son[j] < T - 1 ==>
      t.freq[t.son[j]] + t.freq[t.son[j] + 1] == t.freq[j] + (if j == hole then 1 else 0)
  }

  /** The sibling property, except that the increment of a subtree has only reached `hole`. */
  ghost predicate Rising(t: Tree, hole: int)
  {
    Shape(t) && Sorted(t.freq) && Downward(t) && Upward(t) && Sums(t, hole)
  }

  /** The sibling property. */
  ghost predicate Sibling(t: Tree)
  {
    Rising(t, -1)
  }

  // ------------------------------------------------------------------ one step

  /** The last node at or after l whose frequency is below k. */
  function LastBelow(freq: seq<int>, l: nat, k: int): (r: nat)
    requires |freq| == T + 1 && l < T
    ensures l <= r < T
    ensures forall i :: l < i <= r ==> freq[i] < k
    ensures r + 1 < T ==> freq[r + 1] >= k
    decreases T - l
  {
    if l + 1 < T && freq[l + 1] < k then LastBelow(freq, l + 1, k) else l
  }

  function Reparent(prnt: seq<int>, s: int, p: int): (r: seq<int>)
    requires |prnt| == T + N_CHAR && 0 <= s < T + N_CHAR && s != T - 1
    ensures |r| == |prnt|
  {
    if s < T then prnt[s := p][s + 1 := p] else prnt[s := p]
  }

  predicate Exchangeable(t: Tree, c: int, l: int)
  {
    && Shape(t) && 0 <= c < T && 0 <= l < T
    && 0 <= t.son[c] < T + N_CHAR && t.son[c] != T - 1
    && 0 <= t.son[l] < T + N_CHAR && t.son[l] != T - 1
  }

  /** Nodes c and l trade subtrees, and the one now at l is counted once more. */
  function Exchange(t: Tree, c: int, l: int): (r: Tree)
    requires Exchangeable(t, c, l)
    ensures Shape(r)
  {
    var i, j := t.son[c], t.son[l];
    Tree(t.freq[c := t.freq[l]][l := t.freq[c] + 1],
         Reparent(Reparent(t.prnt, i, l), j, c),
         t.son[l := i][c := j])
  }

  /** The climb of `update` from node c to the root. */
  function Climb(t: Tree, c: int): (r: Tree)
    decreases T - c
  {
    if !(Shape(t) && 0 <= c < T) then t else
    var l := LastBelow(t.freq, c, t.freq[c] + 1);
    if !Exchangeable(t, c, l) then t else
    var t' := Exchange(t, c, l);
    var p := t'.prnt[l];
    if p <= l then t' else Climb(t', p)
  }

  /** `update` below the frequency limit. */
  function Update(t: Tree, code: nat): (r: Tree)
  {
    if Shape(t) && code < N_CHAR then Climb(t, t.prnt[code + T]) else t
  }

  // ------------------------------------------------- a step keeps the property

  /** The nodes c .. l weigh the same, and all later ones more. */
  lemma EqualRun(t: Tree, c: int, l: int)
    requires Shape(t) && Sorted(t.freq) && 0 <= c < T && t.freq[c] < 0xffff
    requires l == LastBelow(t.freq, c, t.freq[c] + 1)
    ensures forall i :: c <= i <= l ==> t.freq[i] == t.freq[c]
    ensures forall i :: l < i <= T ==> t.freq[i] > t.freq[c]
  {
    forall i | l < i <= T ensures t.freq[i] > t.freq[c] {
      if l + 1 < T {
        assert t.freq[l + 1] <= t.freq[i];
      }
    }
  }

  /** The parent of a node is numbered higher and, unless the increment is just
      passing through it, weighs more. */
  lemma ParentIsLater(t: Tree, hole: int, i: int)
    requires Rising(t, hole) && 0 <= i < R
    ensures i < t.prnt[i] < T
    ensures t.prnt[i] != hole ==> t.freq[t.prnt[i]] > t.freq[i]
  {
    var p := t.prnt[i];
    assert t.son[p] == PairOf(i);
    assert t.freq[0] <= t.freq[PairOf(i)] && t.freq[0] <= t.freq[PairOf(i) + 1];
  }

  /** The node exchanged with c is never an ancestor of c, nor the root unless c is. */
  lemma NotAnAncestor(t: Tree, c: int, l: int)
    requires Rising(t, c) && 0 <= c < T && t.freq[c] < 0xffff
    requires l == LastBelow(t.freq, c, t.freq[c] + 1)
    ensures c < R ==> l < t.prnt[c] < T
    ensures l == R ==> c == R
    ensures c != l && t.son[l] < T ==> t.son[l] + 1 < c
  {
    EqualRun(t, c, l);
    if c < R {
      ParentIsLater(t, c, c);
    }
    if c != l && t.son[l] < T {
      var j := t.son[l];
      assert t.freq[0] <= t.freq[j];
      assert t.freq[j + 1] < t.freq[c];
    }
  }

  lemma SortedAfter(t: Tree, c: int, l: int)
    requires Shape(t) && Sorted(t.freq) && 0 <= c < T && t.freq[c] < 0xffff
    requires l == LastBelow(t.freq, c, t.freq[c] + 1)
    ensures t.freq[c := t.freq[l]][l := t.freq[c] + 1] == t.freq[l := t.freq[l] + 1]
    ensures Sorted(t.freq[l := t.freq[l] + 1])
  {
    hide LastBelow, Sorted;
    EqualRun(t, c, l);
    assert t.freq[l] == t.freq[c];
    SameUpdate(t.freq, c, l);
    SortedBump(t.freq, l);
  }

  lemma SameUpdate(freq: seq<int>, c: int, l: int)
    requires 0 <= c < |freq| && 0 <= l < |freq| && freq[l] == freq[c]
    ensures freq[c := freq[l]][l := freq[c] + 1] == freq[l := freq[l] + 1]
  {
  }

  lemma SortedBump(freq: seq<int>, l: int)
    requires |freq| == T + 1 && Sorted(freq) && 0 <= l < T && forall i :: l < i <= T ==> freq[i] > freq[l]
    ensures Sorted(freq[l := freq[l] + 1])
  {
    var freq' := freq[l := freq[l] + 1];
    forall i, j | 0 <= i <= j <= T ensures freq'[i] <= freq'[j] {
      assert freq[i] <= freq[j];
    }
  }

  /** x is s, or the other of a pair of sons at s. */
  predicate InFamily(s: int, x: int)
  {
    x == s || (s < T && x == s + 1)
  }

  lemma ExchangeAt(t: Tree, c: int, l: int)
    requires Exchangeable(t, c, l) && c != l
    ensures forall m :: 0 <= m < T ==>
              Exchange(t, c, l).son[m] == if m == c then t.son[l] else if m == l then t.son[c] else t.son[m]
    ensures forall x :: 0 <= x < T + N_CHAR ==>
              Exchange(t, c, l).prnt[x] == if InFamily(t.son[l], x) then c else if InFamily(t.son[c], x) then l else t.prnt[x]
  {
  }

  lemma DownwardAfter(t: Tree, c: int, l: int)
    requires Shape(t) && Downward(t) && 0 <= c < l < T
    requires t.son[l] < T ==> t.son[l] + 1 < c
    ensures Exchangeable(t, c, l) && Downward(Exchange(t, c, l))
  {
    assert SonsOf(t, c, t.son[c]) && SonsOf(t, l, t.son[l]);
    hide Exchange;
    ExchangeAt(t, c, l);
    var t' := Exchange(t, c, l);
    forall m | 0 <= m < T ensures SonsOf(t', m, t'.son[m]) {
      assert SonsOf(t, m, t.son[m]);
    }
  }

  lemma UpwardAfter(t: Tree, c: int, l: int)
    requires Shape(t) && Downward(t) && Upward(t) && 0 <= c < l < R
    requires t.son[l] < T ==> t.son[l] + 1 < c
    ensures Exchangeable(t, c, l) && Upward(Exchange(t, c, l))
  {
    assert SonsOf(t, c, t.son[c]) && SonsOf(t, l, t.son[l]);
    hide Exchange, Downward;
    ExchangeAt(t, c, l);
    UpwardNode(t, Exchange(t, c, l), c, l);
    UpwardLeaf(t, Exchange(t, c, l), c, l);
  }

  /** t' is t with the subtrees of c and l traded. */
  ghost predicate Traded(t: Tree, t': Tree, c: int, l: int)
  {
    && Shape(t) && Shape(t') && Upward(t) && 0 <= c < l < R && SonsOf(t, c, t.son[c]) && SonsOf(t, l, t.son[l])
    && (forall m :: 0 <= m < T ==> t'.son[m] == if m == c then t.son[l] else if m == l then t.son[c] else t.son[m])
    && forall x :: 0 <= x < T + N_CHAR ==>
         t'.prnt[x] == if InFamily(t.son[l], x) then c else if InFamily(t.son[c], x) then l else t.prnt[x]
  }

  lemma UpwardNode(t: Tree, t': Tree, c: int, l: int)
    requires Traded(t, t', c, l) && (t.son[l] < T ==> t.son[l] + 1 < c)
    ensures forall i :: 0 <= i < R ==> 0 <= t'.prnt[i] < T && t'.son[t'.prnt[i]] == PairOf(i)
    ensures t'.prnt[R] == 0
  {
  }

  lemma UpwardLeaf(t: Tree, t': Tree, c: int, l: int)
    requires Traded(t, t', c, l)
    ensures forall i :: T <= i < T + N_CHAR ==> 0 <= t'.prnt[i] < T && t'.son[t'.prnt[i]] == i
  {
  }

  lemma SumsAfter(t: Tree, t': Tree, c: int, l: int)
    requires Rising(t, c) && 0 <= c <= l < T
    requires Shape(t') && t'.freq == t.freq[l := t.freq[l] + 1] && t.freq[l] == t.freq[c]
    requires forall m :: 0 <= m < T ==>
               t'.son[m] == if m == c then t.son[l] else if m == l then t.son[c] else t.son[m]
    requires t.son[l] < T && c != l ==> t.son[l] + 1 < c
    ensures Sums(t', if l == R then -1 else t.prnt[l])
  {
    hide Sorted, Downward, Upward, SonsOf;
    forall m | 0 <= m < T && 0 <= t'.son[m] < T - 1
      ensures t'.freq[t'.son[m]] + t'.freq[t'.son[m] + 1]
           == t'.freq[m] + (if l < R && m == t.prnt[l] then 1 else 0)
    {
      var origin := if m == c then l else if m == l then c else m;
      FamilyOf(t, c, origin, l);
      FamilyOf(t, c, c, l);
      FamilyOf(t, c, l, l);
    }
  }

  /** Node l is among the sons of m exactly if m is its parent. */
  lemma FamilyOf(t: Tree, hole: int, m: int, l: int)
    requires Rising(t, hole) && 0 <= m < T && 0 <= l < T
    ensures 0 <= t.son[m] < T + N_CHAR && t.son[m] != T - 1
    ensures t.son[m] < T ==> t.son[m] + 1 < m
    ensures l < R && t.son[m] < T ==> (InFamily(t.son[m], l) <==> m == t.prnt[l])
    ensures l == R && t.son[m] < T ==> !InFamily(t.son[m], l)
    ensures l < R ==> l < t.prnt[l] < T
  {
    hide Sorted, Sums;
    assert SonsOf(t, m, t.son[m]);
    if l < R {
      ParentIsLater(t, hole, l);
    }
  }

  lemma ExchangeSelf(t: Tree, c: int)
    requires Shape(t) && Downward(t) && 0 <= c < T
    ensures Exchangeable(t, c, c)
    ensures Exchange(t, c, c) == t.(freq := t.freq[c := t.freq[c] + 1])
  {
    assert SonsOf(t, c, t.son[c]);
  }

  lemma OnlyLinks(t: Tree, t': Tree)
    requires Shape(t) && Shape(t') && t'.son == t.son && t'.prnt == t.prnt
    ensures Downward(t) ==> Downward(t')
    ensures Upward(t) ==> Upward(t')
  {
    if Downward(t) {
      forall j | 0 <= j < T ensures SonsOf(t', j, t'.son[j]) {
        assert SonsOf(t, j, t.son[j]);
      }
    }
  }

  lemma ParentUnmoved(t: Tree, c: int, l: int)
    requires Rising(t, c) && 0 <= c <= l < T
    ensures Exchangeable(t, c, l) && Exchange(t, c, l).prnt[l] == t.prnt[l]
    ensures if l == R then t.prnt[l] == 0 else l < t.prnt[l] < T
  {
    hide Sorted, Sums;
    assert SonsOf(t, c, t.son[c]) && SonsOf(t, l, t.son[l]);
    if l < R {
      ParentIsLater(t, c, l);
    }
  }

  lemma ExchangeFreq(t: Tree, c: int, l: int)
    requires Exchangeable(t, c, l)
    ensures Exchange(t, c, l).freq == t.freq[c := t.freq[l]][l := t.freq[c] + 1]
  {
  }

  /** One round of the climb moves the increment from c to the parent of the node that took it. */
  lemma StepKeeps(t: Tree, c: int, l: int)
    requires Rising(t, c) && 0 <= c < T && t.freq[c] + 1 < 0xffff
    requires l == LastBelow(t.freq, c, t.freq[c] + 1)
    ensures Exchangeable(t, c, l)
    ensures Exchange(t, c, l).prnt[l] == t.prnt[l]
    ensures l == R ==> c == R && t.prnt[l] == 0 && Sibling(Exchange(t, c, l))
    ensures l < R ==> l < t.prnt[l] < T && Rising(Exchange(t, c, l), t.prnt[l])
  {
    hide Sorted, Downward, Upward, Sums, LastBelow, Exchange;
    SortedAfter(t, c, l);
    EqualRun(t, c, l);
    NotAnAncestor(t, c, l);
    ParentUnmoved(t, c, l);
    ExchangeFreq(t, c, l);
    if c == l {
      ExchangeSelf(t, c);
      OnlyLinks(t, Exchange(t, c, c));
      SumsAfter(t, Exchange(t, c, c), c, c);
    } else {
      DownwardAfter(t, c, l);
      UpwardAfter(t, c, l);
      ExchangeAt(t, c, l);
      SumsAfter(t, Exchange(t, c, l), c, l);
    }
  }

  // ------------------------------------------------------- the whole update

  /** How often a code has been counted. */
  ghost function LeafFreq(t: Tree, code: nat): int
    requires Shape(t) && Upward(t) && code < N_CHAR
  {
    t.freq[t.prnt[code + T]]
  }

  lemma StepLeaf(t: Tree, c: int, l: int, code: nat)
    requires Rising(t, c) && 0 <= c <= l < T && code < N_CHAR
    requires Exchangeable(t, c, l) && t.freq[c] == t.freq[l]
    requires Upward(Exchange(t, c, l))
    ensures LeafFreq(Exchange(t, c, l), code) == LeafFreq(t, code) + (if t.son[c] == code + T then 1 else 0)
  {
    hide Sorted, Sums;
    assert SonsOf(t, c, t.son[c]) && SonsOf(t, l, t.son[l]);
  }

  lemma {:induction false} ClimbKeeps(t: Tree, c: int, code: nat)
    requires Rising(t, c) && 0 <= c < T && t.freq[R] + 1 < 0xffff && code < N_CHAR
    ensures Sibling(Climb(t, c))
    ensures Climb(t, c).freq[R] == t.freq[R] + 1
    ensures LeafFreq(Climb(t, c), code) == LeafFreq(t, code) + (if t.son[c] == code + T then 1 else 0)
    decreases T - c
  {
    hide Downward, Upward, Sums, LastBelow, Exchange;
    var l := LastBelow(t.freq, c, t.freq[c] + 1);
    assert t.freq[c] <= t.freq[R];
    StepKeeps(t, c, l);
    EqualRun(t, c, l);
    StepLeaf(t, c, l, code);
    ExchangeFreq(t, c, l);
    SortedAfter(t, c, l);
    if l < R {
      var p := t.prnt[l];
      InnerNode(Exchange(t, c, l), p, l);
      ClimbKeeps(Exchange(t, c, l), p, code);
    }
  }

  lemma InnerNode(t: Tree, p: int, l: int)
    requires Rising(t, p) && 0 <= l < R && p == t.prnt[l]
    ensures 0 <= p < T && t.son[p] < T
  {
    hide Sorted, Sums, Downward;
  }

  lemma LeafStart(t: Tree, code: nat)
    requires Sibling(t) && code < N_CHAR
    ensures 0 <= t.prnt[code + T] < T && t.son[t.prnt[code + T]] == code + T
    ensures Rising(t, t.prnt[code + T])
  {
    hide Sorted, Downward;
  }

  /** An update keeps the sibling property, counts its code once more and no other. */
  lemma UpdateKeeps(t: Tree, code: nat, other: nat)
    requires Sibling(t) && t.freq[R] < MAX_FREQ && code < N_CHAR && other < N_CHAR
    ensures Sibling(Update(t, code))
    ensures Update(t, code).freq[R] == t.freq[R] + 1
    ensures LeafFreq(Update(t, code), other) == LeafFreq(t, other) + (if other == code then 1 else 0)
  {
    hide Sorted, Downward, Upward, Sums, Climb;
    LeafStart(t, code);
    ClimbKeeps(t, t.prnt[code + T], other);
  }

  // ---------------------------------------------------------- the initial tree

  /** Every code counted once; node N_CHAR + k joins the nodes 2k and 2k + 1. */
  function InitialFreq(i: nat): (f: nat)
    ensures f >= 1
  {
    if i < N_CHAR then 1
    else if i >= T then 0xffff
    else InitialFreq(2 * (i - N_CHAR)) + InitialFreq(2 * (i - N_CHAR) + 1)
  }

  function InitialSon(i: nat): (s: nat)
  {
    if i < N_CHAR then i + T else 2 * (i - N_CHAR)
  }

  function InitialParent(i: nat): (p: nat)
  {
    if i < R then N_CHAR + i / 2 else if i == R then 0 else i - T
  }

  function InitialTree(): (t: Tree)
    ensures Shape(t)
    ensures forall i :: 0 <= i <= T ==> t.freq[i] == InitialFreq(i)
    ensures forall i :: 0 <= i < T ==> t.son[i] == InitialSon(i)
    ensures forall i :: 0 <= i < T + N_CHAR ==> t.prnt[i] == InitialParent(i)
  {
    Tree(seq(T + 1, i requires 0 <= i <= T => InitialFreq(i)),
         seq(T + N_CHAR, i requires 0 <= i < T + N_CHAR => InitialParent(i)),
         seq(T, i requires 0 <= i < T => InitialSon(i)))
  }

  lemma {:induction false} InitialFreqGrows(i: nat)
    requires i + 1 < T
    ensures InitialFreq(i) <= InitialFreq(i + 1)
    decreases i
  {
    if i >= N_CHAR {
      var k := 2 * (i - N_CHAR);
      InitialFreqGrows(k);
      InitialFreqGrows(k + 1);
      InitialFreqGrows(k + 2);
    }
  }

  lemma {:induction false} InitialFreqSorted(i: nat, j: nat)
    requires i <= j < T
    ensures InitialFreq(i) <= InitialFreq(j)
    decreases j
  {
    if i < j {
      InitialFreqSorted(i, j - 1);
      InitialFreqGrows(j - 1);
    }
  }

  function FreqSum(lo: nat, hi: nat): (s: nat)
    decreases hi - lo
  {
    if lo >= hi then 0 else InitialFreq(lo) + FreqSum(lo + 1, hi)
  }

  lemma {:induction false} FreqSumLast(lo: nat, hi: nat)
    requires lo <= hi
    ensures FreqSum(lo, hi + 1) == FreqSum(lo, hi) + InitialFreq(hi)
    decreases hi - lo
  {
    if lo < hi {
      FreqSumLast(lo + 1, hi);
    }
  }

  /** Joining two nodes keeps the total of the nodes that have no parent yet. */
  lemma {:induction false} TotalKept(k: nat)
    requires k < N_CHAR
    ensures FreqSum(2 * k, N_CHAR + k) == N_CHAR
  {
    if k == 0 {
      LeavesTotal(0);
    } else {
      TotalKept(k - 1);
      FreqSumLast(2 * k - 2, N_CHAR + k - 1);
      assert FreqSum(2 * k - 2, N_CHAR + k) == InitialFreq(2 * k - 2) + FreqSum(2 * k - 1, N_CHAR + k);
    }
  }

  lemma {:induction false} LeavesTotal(i: nat)
    requires i <= N_CHAR
    ensures FreqSum(i, N_CHAR) == N_CHAR - i
    decreases N_CHAR - i
  {
    if i < N_CHAR {
      LeavesTotal(i + 1);
    }
  }

  /** StartHuff establishes the sibling property, with every code counted once. */
  lemma InitialSibling()
    ensures Sibling(InitialTree()) && InitialTree().freq[R] == N_CHAR
  {
    hide InitialFreq;
    var t := InitialTree();
    assert Sorted(t.freq) by {
      InitialSentinel();
      forall i, j | 0 <= i <= j <= T ensures t.freq[i] <= t.freq[j] {
        if j < T {
          InitialFreqSorted(i, j);
        } else if i < T {
          InitialFreqSorted(i, R);
          InitialRoot();
        }
      }
    }
    assert Sums(t, -1) by {
      forall j | 0 <= j < T && 0 <= t.son[j] < T - 1
        ensures t.freq[t.son[j]] + t.freq[t.son[j] + 1] == t.freq[j]
      {
        InitialJoin(j);
      }
    }
    InitialRoot();
  }

  lemma InitialJoin(j: nat)
    requires N_CHAR <= j < T
    ensures InitialFreq(j) == InitialFreq(2 * (j - N_CHAR)) + InitialFreq(2 * (j - N_CHAR) + 1)
  {
  }

  lemma InitialSentinel()
    ensures InitialFreq(0) == 1 && InitialFreq(T) == 0xffff
  {
  }

  lemma InitialRoot()
    ensures InitialFreq(R) == N_CHAR
  {
    hide InitialFreq;
    TotalKept(N_CHAR - 1);
    assert FreqSum(R, R + 1) == InitialFreq(R) + FreqSum(R + 1, R + 1);
  }
}
