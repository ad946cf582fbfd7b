/** The Huffman tree in its arrays: StartHuff and update. */
module LzhufHuffman {
  import opened LzhufTree

  /** Where the scan of `update` stops does not depend on the entry of c itself. */
  lemma {:induction false} LastBelowIgnores(freq: seq<int>, c: nat, x: int, l: nat, k: int)
    requires |freq| == T + 1 && c <= l < T
    ensures LastBelow(freq[c := x], l, k) == LastBelow(freq, l, k)
    decreases T - l
  {
    if l + 1 < T && freq[l + 1] < k {
      LastBelowIgnores(freq, c, x, l + 1, k);
    }
  }

  class Huffman {
    const freq: array<int>
    const prnt: array<int>
    const son: array<int>

    ghost function Snapshot(): Tree
      reads freq, prnt, son
    {
      Tree(freq[..], prnt[..], son[..])
    }

    ghost predicate Separate()
    {
      freq != prnt && freq != son && prnt != son
    }

    ghost predicate Valid()
      reads freq, prnt, son
    {
      Separate() && Sibling(Snapshot())
    }

    /** StartHuff. */
    constructor ()
      ensures Valid() && Snapshot() == InitialTree()
      ensures fresh(freq) && fresh(prnt) && fresh(son)
    {
      hide InitialFreq, Sorted, Downward, Upward, Sums;
      var freq' := new int[T + 1];
      var prnt' := new int[T + N_CHAR];
      var son' := new int[T];
      Leaves(freq', prnt', son');
      Joins(freq', prnt', son');
      freq, prnt, son := freq', prnt', son';
      freq'[T] := 0xffff;
      prnt'[R] := 0;
      InitialSentinel();
      new;
      InitialSibling();
      assert freq[..] == InitialTree().freq;
      assert prnt[..] == InitialTree().prnt;
      assert son[..] == InitialTree().son;
    }

    static method Leaves(freq: array<int>, prnt: array<int>, son: array<int>)
      requires freq.Length == T + 1 && prnt.Length == T + N_CHAR && son.Length == T
      requires freq != prnt && freq != son && prnt != son
      modifies freq, prnt, son
      ensures forall j :: 0 <= j < N_CHAR ==> freq[j] == InitialFreq(j) && son[j] == InitialSon(j)
      ensures forall j :: T <= j < T + N_CHAR ==> prnt[j] == InitialParent(j)
    {
      for i := 0 to N_CHAR
        invariant forall j :: 0 <= j < i ==> freq[j] == InitialFreq(j) && son[j] == InitialSon(j)
        invariant forall j :: T <= j < T + i ==> prnt[j] == InitialParent(j)
      {
        freq[i] := 1;
        son[i] := i + T;
        prnt[i + T] := i;
      }
    }

    static method Joins(freq: array<int>, prnt: array<int>, son: array<int>)
      requires freq.Length == T + 1 && prnt.Length == T + N_CHAR && son.Length == T
      requires freq != prnt && freq != son && prnt != son
      requires forall j :: 0 <= j < N_CHAR ==> freq[j] == InitialFreq(j) && son[j] == InitialSon(j)
      requires forall j :: T <= j < T + N_CHAR ==> prnt[j] == InitialParent(j)
      modifies freq, prnt, son
      ensures forall j :: 0 <= j < T ==> freq[j] == InitialFreq(j) && son[j] == InitialSon(j)
      ensures forall j :: 0 <= j < T + N_CHAR && j != R ==> prnt[j] == InitialParent(j)
    {
      hide InitialFreq;
      var i, j := 0, N_CHAR;
      while j <= R
        invariant N_CHAR <= j <= T && i == 2 * (j - N_CHAR)
        invariant forall m :: 0 <= m < j ==> freq[m] == InitialFreq(m) && son[m] == InitialSon(m)
        invariant forall m :: 0 <= m < i || T <= m < T + N_CHAR ==> prnt[m] == InitialParent(m)
      {
        InitialJoin(j);
        freq[j] := freq[i] + freq[i + 1];
        son[j] := i;
        prnt[i] := j;
        prnt[i + 1] := j;
        i, j := i + 2, j + 1;
      }
    }

    /** Finds the node to exchange with: the last one with a frequency below k. */
    method Scan(c: nat, k: int) returns (l: nat)
      requires freq.Length == T + 1 && c < T && k <= freq[T]
      ensures l == LastBelow(freq[..], c, k)
    {
      l := c + 1;
      if k > freq[l] {
        while k > freq[l + 1]
          invariant c < l < T && k > freq[l]
          invariant LastBelow(freq[..], c, k) == LastBelow(freq[..], l, k)
          decreases T - l
        {
          l := l + 1;
        }
      } else {
        l := c;
      }
    }

    /** One round of the climb. */
    method Step(c: nat) returns (l: nat)
      requires Separate() && Rising(Snapshot(), c) && c < T && freq[c] + 1 < 0xffff
      modifies freq, prnt, son
      ensures l == LastBelow(old(freq[..]), c, old(freq[c]) + 1)
      ensures Exchangeable(old(Snapshot()), c, l)
      ensures Snapshot() == Exchange(old(Snapshot()), c, l)
    {
      hide Sorted, Downward, Upward, Sums, LastBelow, Exchange, Reparent;
      ghost var t := Snapshot();
      var k := freq[c] + 1;
      SentinelFreq(t, c);
      freq[c] := k;
      assert freq[..] == t.freq[c := k];
      LastBelowIgnores(t.freq, c, k, c, k);
      l := Scan(c, k);
      StepKeeps(t, c, l);
      if l != c {
        freq[c] := freq[l];
        freq[l] := k;
        Relink(c, l);
        assert freq[..] == t.freq[c := t.freq[l]][l := k];
        ExchangeIs(t, c, l);
      } else {
        ExchangeSelf(t, c);
      }
    }

    /** The subtrees of c and l trade places. */
    method Relink(c: nat, l: nat)
      requires prnt != son && prnt.Length == T + N_CHAR && son.Length == T && c < T && l < T && c != l
      requires 0 <= son[c] < T + N_CHAR && son[c] != T - 1 && 0 <= son[l] < T + N_CHAR && son[l] != T - 1
      modifies prnt, son
      ensures prnt[..] == Reparent(Reparent(old(prnt[..]), old(son[c]), l), old(son[l]), c)
      ensures son[..] == old(son[..])[l := old(son[c])][c := old(son[l])]
    {
      var i := son[c];
      prnt[i] := l;
      if i < T { prnt[i + 1] := l; }
      var j := son[l];
      son[l] := i;
      prnt[j] := c;
      if j < T { prnt[j + 1] := c; }
      son[c] := j;
    }

    /** Counts a code once more. Reconstruction at the frequency limit is not modelled. */
    method Update(code: nat)
      requires Valid() && code < N_CHAR && freq[R] < MAX_FREQ
      modifies freq, prnt, son
      ensures Valid() && Snapshot() == LzhufTree.Update(old(Snapshot()), code)
    {
      hide Sorted, Downward, Upward, Sums, LastBelow, Exchange;
      ghost var t := Snapshot();
      var c := prnt[code + T];
      LeafStart(t, code);
      ClimbKeeps(t, c, code);
      while true
        invariant Separate() && 0 <= c < T
        invariant Rising(Snapshot(), c) && freq[R] == t.freq[R]
        invariant Climb(Snapshot(), c) == Climb(t, t.prnt[code + T])
        decreases T - c
      {
        ghost var before := Snapshot();
        SentinelFreq(before, c);
        var l := Step(c);
        StepKeeps(before, c, l);
        ExchangeFreq(before, c, l);
        c := prnt[l];
        if c == 0 {
          break;
        }
      }
    }
  }

  lemma ExchangeIs(t: Tree, c: int, l: int)
    requires Exchangeable(t, c, l)
    ensures Exchange(t, c, l) == Tree(t.freq[c := t.freq[l]][l := t.freq[c] + 1],
                                      Reparent(Reparent(t.prnt, t.son[c], l), t.son[l], c), t.son[l := t.son[c]][c := t.son[l]])
  {
  }

  lemma SentinelFreq(t: Tree, hole: int)
    requires Rising(t, hole)
    ensures t.freq[T] == 0xffff
    ensures forall i :: 0 <= i < T ==> t.freq[i] <= t.freq[R]
  {
  }
}
