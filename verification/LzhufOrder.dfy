/** The search trees of LZHUF are ordered by the F bytes of text at each position.
    What insertion and deletion do to a tree, and why the nodes met on the way down
    include one with the longest match. */
module LzhufOrder {
  import opened Bytes
  import opened LzhufForest

  const F: nat := 60
  const THRESHOLD: nat := 2

  predicate Buffer(text: seq<byte>)
  {
    |text| == N + F - 1
  }

  /** Text that both sides agree on before the first byte. */
  function Blank(n: nat): (text: seq<byte>)
    ensures |text| == n && forall i :: 0 <= i < n ==> text[i] == 0x20
  {
    if n == 0 then [] else Blank(n - 1) + [0x20]
  }

  /** The string at position p, read straight on past the end of the ring. */
  function Key(text: seq<byte>, p: nat): (k: seq<byte>)
    requires Buffer(text) && p < N
    ensures |k| == F
  {
    text[p..p + F]
  }

  /** The length of the common prefix. */
  function Common(a: seq<byte>, b: seq<byte>): (n: nat)
    ensures n <= |a| && n <= |b|
    ensures forall j :: 0 <= j < n ==> a[j] == b[j]
    ensures n < |a| && n < |b| ==> a[n] != b[n]
  {
    if a == [] || b == [] || a[0] != b[0] then 0 else 1 + Common(a[1..], b[1..])
  }

  predicate Less(a: seq<byte>, b: seq<byte>)
  {
    var n := Common(a, b);
    n < |a| && n < |b| && a[n] < b[n]
  }

  lemma CommonUnique(a: seq<byte>, b: seq<byte>, n: nat)
    requires n <= |a| == |b|
    requires forall j :: 0 <= j < n ==> a[j] == b[j]
    requires n < |a| ==> a[n] != b[n]
    ensures Common(a, b) == n
  {
    hide Common;
  }

  lemma CommonSwap(a: seq<byte>, b: seq<byte>)
    requires |a| == |b|
    ensures Common(a, b) == Common(b, a)
  {
    hide Common;
    CommonUnique(b, a, Common(a, b));
  }

  /** Keys of equal length are equal, or one is less than the other. */
  lemma Trichotomy(a: seq<byte>, b: seq<byte>)
    requires |a| == |b|
    ensures a == b || Less(a, b) || Less(b, a)
    ensures Common(a, b) == |a| <==> a == b
    ensures !(Less(a, b) && Less(b, a)) && !Less(a, a)
  {
    hide Common;
    CommonSwap(a, b);
  }

  /** Of three keys in order, the middle one shares with each end all that the ends share. */
  lemma Between(a: seq<byte>, b: seq<byte>, c: seq<byte>)
    requires |a| == |b| == |c| && Less(a, b) && Less(b, c)
    ensures Less(a, c)
    ensures Common(a, c) <= Common(a, b) && Common(a, c) <= Common(b, c)
  {
    hide Common;
    var m, n := Common(a, b), Common(b, c);
    if m < n {
      assert b[m] == c[m];
      CommonUnique(a, c, m);
    } else if n < m {
      assert a[n] == b[n];
      CommonUnique(a, c, n);
    } else {
      CommonUnique(a, c, m);
    }
  }

  // ------------------------------------------------------------------ the order

  ghost predicate InRange(t: Tree)
  {
    forall x :: x in Members(t) ==> x < N
  }

  ghost predicate AllBelow(text: seq<byte>, t: Tree, i: nat)
    requires Buffer(text) && i < N
  {
    forall x :: x in Members(t) ==> x < N && Less(Key(text, x), Key(text, i))
  }

  ghost predicate AllAbove(text: seq<byte>, t: Tree, i: nat)
    requires Buffer(text) && i < N
  {
    forall x :: x in Members(t) ==> x < N && Less(Key(text, i), Key(text, x))
  }

  ghost predicate Ordered(text: seq<byte>, t: Tree)
    requires Buffer(text)
  {
    match t
    case Empty => true
    case Node(l, i, r) => i < N && AllBelow(text, l, i) && AllAbove(text, r, i) && Ordered(text, l) && Ordered(text, r)
  }

  /** Text that no registered string contains may change. */
  lemma {:induction false} OrderFrame(text: seq<byte>, text': seq<byte>, t: Tree)
    requires Buffer(text) && Buffer(text') && Ordered(text, t)
    requires forall x :: x in Members(t) && x < N ==> Key(text', x) == Key(text, x)
    ensures Ordered(text', t)
  {
    match t
    case Empty =>
    case Node(l, i, r) =>
      OrderFrame(text, text', l);
      OrderFrame(text, text', r);
  }

  lemma OrderedParts(text: seq<byte>, l: Tree, i: nat, r: Tree)
    requires Buffer(text) && Ordered(text, Node(l, i, r))
    ensures Ordered(text, l) && Ordered(text, r)
  {
  }

  // ------------------------------------------------------------------- insertion

  function Insert(text: seq<byte>, t: Tree, x: nat): (r: Tree)
    requires Buffer(text) && x < N
  {
    match t
    case Empty => Node(Empty, x, Empty)
    case Node(l, i, r) =>
      if i >= N || Key(text, x) == Key(text, i) then Node(l, x, r)
      else if Less(Key(text, i), Key(text, x)) then Node(l, i, Insert(text, r, x))
      else Node(Insert(text, l, x), i, r)
  }

  /** The nodes compared on the way down to where x goes. */
  ghost function SearchPath(text: seq<byte>, t: Tree, x: nat): (path: set<nat>)
    requires Buffer(text) && x < N
  {
    match t
    case Empty => {}
    case Node(l, i, r) =>
      if i >= N || Key(text, x) == Key(text, i) then {i}
      else if Less(Key(text, i), Key(text, x)) then {i} + SearchPath(text, r, x)
      else {i} + SearchPath(text, l, x)
  }

  /** Insertion keeps the order; it registers x, and drops only a position with the same string. */
  lemma {:induction false} InsertOrdered(text: seq<byte>, t: Tree, x: nat)
    requires Buffer(text) && x < N && Ordered(text, t)
    ensures Ordered(text, Insert(text, t, x))
    ensures x in Members(Insert(text, t, x)) && Members(Insert(text, t, x)) <= Members(t) + {x}
    ensures forall y :: y in Members(t) && y < N && Key(text, y) != Key(text, x) ==> y in Members(Insert(text, t, x))
  {
    hide Less, Key;
    match t
    case Empty =>
    case Node(l, i, r) =>
      Trichotomy(Key(text, x), Key(text, i));
      if Key(text, x) == Key(text, i) {
      } else if Less(Key(text, i), Key(text, x)) {
        InsertOrdered(text, r, x);
      } else {
        InsertOrdered(text, l, x);
      }
  }

  // -------------------------------------------------------------------- deletion

  function Largest(t: Tree): (i: nat)
    requires t.Node?
  {
    if t.r.Empty? then t.i else Largest(t.r)
  }

  function WithoutLargest(t: Tree): (r: Tree)
    requires t.Node?
  {
    if t.r.Empty? then t.l else Node(t.l, t.i, WithoutLargest(t.r))
  }

  /** The subtree left when its root goes. */
  function WithoutRoot(l: Tree, r: Tree): (t: Tree)
  {
    if r.Empty? then l else if l.Empty? then r else Node(WithoutLargest(l), Largest(l), r)
  }

  lemma {:induction false} LargestSplits(text: seq<byte>, t: Tree)
    requires Buffer(text) && t.Node? && Ordered(text, t) && LzhufForest.Proper(t)
    ensures Largest(t) in Members(t) && Largest(t) < N
    ensures Members(WithoutLargest(t)) == Members(t) - {Largest(t)}
    ensures Ordered(text, WithoutLargest(t)) && AllBelow(text, WithoutLargest(t), Largest(t))
    ensures LzhufForest.Proper(WithoutLargest(t))
  {
    hide Less, Key;
    if t.r.Node? {
      LargestSplits(text, t.r);
      var m := Largest(t.r);
      forall x | x in Members(WithoutLargest(t)) ensures x < N && Less(Key(text, x), Key(text, m)) {
        if x in Members(t.l) {
          Between(Key(text, x), Key(text, t.i), Key(text, m));
        }
      }
    }
  }

  lemma WithoutRootOrdered(text: seq<byte>, l: Tree, p: nat, r: Tree)
    requires Buffer(text) && Ordered(text, Node(l, p, r)) && LzhufForest.Proper(Node(l, p, r))
    ensures Ordered(text, WithoutRoot(l, r)) && LzhufForest.Proper(WithoutRoot(l, r))
    ensures Members(WithoutRoot(l, r)) == Members(Node(l, p, r)) - {p}
  {
    hide Less, Key;
    if l.Node? && r.Node? {
      LargestSplits(text, l);
      var m := Largest(l);
      forall y | y in Members(r) ensures y < N && Less(Key(text, m), Key(text, y)) {
        Between(Key(text, m), Key(text, p), Key(text, y));
      }
    }
  }

  /** A subtree may be replaced by an ordered tree over some of its nodes. */
  lemma {:induction false} OrderedPlug(text: seq<byte>, c: Context, t: Tree, t': Tree)
    requires Buffer(text) && Ordered(text, Plug(c, t))
    ensures Ordered(text, t)
    ensures Ordered(text, t') && Members(t') <= Members(t) ==> Ordered(text, Plug(c, t'))
    decreases c
  {
    hide Less, Key;
    match c
    case Top =>
    case OnRight(up, l, i) => OrderedPlug(text, up, Node(l, i, t), Node(l, i, t'));
    case OnLeft(up, i, r) => OrderedPlug(text, up, Node(t, i, r), Node(t', i, r));
  }

  /** The tree left when a node goes. */
  ghost function Remove(t: Tree, p: nat): (r: Tree)
  {
    match t
    case Empty => Empty
    case Node(l, i, r) =>
      if i == p then WithoutRoot(l, r)
      else if p in Members(l) then Node(Remove(l, p), i, r)
      else Node(l, i, Remove(r, p))
  }

  /** Removal keeps the order and takes out p alone. */
  lemma {:induction false} RemoveOrdered(text: seq<byte>, t: Tree, p: nat)
    requires Buffer(text) && Ordered(text, t) && LzhufForest.Proper(t) && p in Members(t)
    ensures Ordered(text, Remove(t, p)) && LzhufForest.Proper(Remove(t, p))
    ensures Members(Remove(t, p)) == Members(t) - {p}
  {
    hide Less, Key;
    if t.i == p {
      WithoutRootOrdered(text, t.l, p, t.r);
    } else if p in Members(t.l) {
      RemoveOrdered(text, t.l, p);
    } else {
      RemoveOrdered(text, t.r, p);
    }
  }
}
