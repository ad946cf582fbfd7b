/** Binary search trees threaded through arrays of links, as LZHUF keeps them:
    lson and rson lead down, dad leads up, and NIL ends a branch. */
module LzhufForest {
  import opened Bytes

  const N: nat := 4096
  const NIL: int := 4096

  datatype Links = Links(lson: seq<int>, rson: seq<int>, dad: seq<int>)

  predicate Shaped(k: Links)
  {
    |k.lson| == N + 1 && |k.rson| == N + 257 && |k.dad| == N + 1
  }

  datatype Tree = Empty | Node(l: Tree, i: nat, r: Tree)

  /** A place where a tree can hang: below a node, on its left or its right. Roots are
      the nodes N + 1 .. N + 256, which have only a right side. */
  datatype Anchor = Anchor(node: int, right: bool)

  predicate Sound(a: Anchor)
  {
    0 <= a.node < N || (a.right && N < a.node <= N + 256)
  }

  function LinkAt(k: Links, a: Anchor): (n: int)
    requires Shaped(k) && Sound(a)
  {
    if a.right then k.rson[a.node] else k.lson[a.node]
  }

  ghost function Members(t: Tree): set<nat>
  {
    match t
    case Empty => {}
    case Node(l, i, r) => Members(l) + {i} + Members(r)
  }

  /** No node occurs twice. */
  ghost predicate Proper(t: Tree)
  {
    match t
    case Empty => true
    case Node(l, i, r) =>
      && i < N && i !in Members(l) && i !in Members(r) && Members(l) !! Members(r)
      && Proper(l) && Proper(r)
  }

  /** The links spell the tree t hanging at a. */
  ghost predicate Spells(k: Links, t: Tree, a: Anchor)
    requires Shaped(k)
  {
    Sound(a) &&
    match t
    case Empty => LinkAt(k, a) == NIL
    case Node(l, i, r) =>
      && i < N && LinkAt(k, a) == i && k.dad[i] == a.node
      && Spells(k, l, Anchor(i, false)) && Spells(k, r, Anchor(i, true))
  }

  // -------------------------------------------------------------------- contexts

  /** A tree with a hole: the way from its top down to the hole. */
  datatype Context = Top | OnRight(up: Context, l: Tree, i: nat) | OnLeft(up: Context, i: nat, r: Tree)

  function Plug(c: Context, t: Tree): (r: Tree)
    decreases c
  {
    match c
    case Top => t
    case OnRight(up, l, i) => Plug(up, Node(l, i, t))
    case OnLeft(up, i, r) => Plug(up, Node(t, i, r))
  }

  function HoleOf(c: Context, top: Anchor): (a: Anchor)
  {
    match c
    case Top => top
    case OnRight(_, _, i) => Anchor(i, true)
    case OnLeft(_, i, _) => Anchor(i, false)
  }

  ghost function Around(c: Context): set<nat>
  {
    match c
    case Top => {}
    case OnRight(up, l, i) => Around(up) + {i} + Members(l)
    case OnLeft(up, i, r) => Around(up) + {i} + Members(r)
  }

  ghost predicate SpellsAround(k: Links, c: Context, top: Anchor)
    requires Shaped(k)
  {
    match c
    case Top => Sound(top)
    case OnRight(up, l, i) =>
      && SpellsAround(k, up, top) && i < N
      && LinkAt(k, HoleOf(up, top)) == i && k.dad[i] == HoleOf(up, top).node
      && Spells(k, l, Anchor(i, false))
    case OnLeft(up, i, r) =>
      && SpellsAround(k, up, top) && i < N
      && LinkAt(k, HoleOf(up, top)) == i && k.dad[i] == HoleOf(up, top).node
      && Spells(k, r, Anchor(i, true))
  }

  lemma {:induction false} HoleIsSound(k: Links, c: Context, top: Anchor)
    requires Shaped(k) && SpellsAround(k, c, top)
    ensures Sound(HoleOf(c, top))
  {
  }

  /** A tree is spelled exactly if its parts are. */
  lemma {:induction false} PlugSpells(k: Links, c: Context, t: Tree, top: Anchor)
    requires Shaped(k)
    ensures Spells(k, Plug(c, t), top) <==> SpellsAround(k, c, top) && Spells(k, t, HoleOf(c, top))
    decreases c
  {
    match c
    case Top =>
    case OnRight(up, l, i) => PlugSpells(k, up, Node(l, i, t), top);
    case OnLeft(up, i, r) => PlugSpells(k, up, Node(t, i, r), top);
  }

  lemma {:induction false} PlugMembers(c: Context, t: Tree)
    ensures Members(Plug(c, t)) == Around(c) + Members(t)
    decreases c
  {
    match c
    case Top =>
    case OnRight(up, l, i) => PlugMembers(up, Node(l, i, t));
    case OnLeft(up, i, r) => PlugMembers(up, Node(t, i, r));
  }

  ghost predicate ProperAround(c: Context)
  {
    match c
    case Top => true
    case OnRight(up, l, i) =>
      && i < N && ProperAround(up) && Proper(l) && i !in Members(l)
      && i !in Around(up) && Members(l) !! Around(up)
    case OnLeft(up, i, r) =>
      && i < N && ProperAround(up) && Proper(r) && i !in Members(r)
      && i !in Around(up) && Members(r) !! Around(up)
  }

  lemma {:induction false} PlugProper(c: Context, t: Tree)
    ensures Proper(Plug(c, t)) <==> ProperAround(c) && Proper(t) && Around(c) !! Members(t)
    decreases c
  {
    match c
    case Top =>
    case OnRight(up, l, i) => PlugProper(up, Node(l, i, t));
    case OnLeft(up, i, r) => PlugProper(up, Node(t, i, r));
  }

  // --------------------------------------------------------------------- framing

  ghost predicate SameLinks(k: Links, k': Links, nodes: set<nat>)
    requires Shaped(k) && Shaped(k')
  {
    forall i :: i in nodes && i < N ==> k'.lson[i] == k.lson[i] && k'.rson[i] == k.rson[i] && k'.dad[i] == k.dad[i]
  }

  /** What happens outside a tree does not concern it. */
  lemma {:induction false} SpellsFrame(k: Links, k': Links, t: Tree, a: Anchor)
    requires Shaped(k) && Shaped(k') && Spells(k, t, a)
    requires SameLinks(k, k', Members(t)) && LinkAt(k', a) == LinkAt(k, a)
    ensures Spells(k', t, a)
    decreases t
  {
    match t
    case Empty =>
    case Node(l, i, r) =>
      SpellsFrame(k, k', l, Anchor(i, false));
      SpellsFrame(k, k', r, Anchor(i, true));
  }

  /** A tree may be hung elsewhere: only its root learns of the new parent. */
  lemma {:induction false} SpellsMove(k: Links, k': Links, t: Tree, a: Anchor, b: Anchor)
    requires Shaped(k) && Shaped(k') && Spells(k, t, a) && Proper(t) && Sound(b)
    requires LinkAt(k', b) == LinkAt(k, a)
    requires t.Node? ==> SameLinks(k, k', Members(t) - {t.i}) && k'.dad[t.i] == b.node
                         && k'.lson[t.i] == k.lson[t.i] && k'.rson[t.i] == k.rson[t.i]
    ensures Spells(k', t, b)
  {
    if t.Node? {
      SpellsFrame(k, k', t.l, Anchor(t.i, false));
      SpellsFrame(k, k', t.r, Anchor(t.i, true));
    }
  }

  /** Links of the context that lead to the hole may change. */
  ghost predicate SameAround(k: Links, k': Links, c: Context, top: Anchor)
    requires Shaped(k) && Shaped(k')
  {
    match c
    case Top => true
    case OnRight(up, l, i) =>
      i < N && k'.dad[i] == k.dad[i] && k'.lson[i] == k.lson[i]
    case OnLeft(up, i, r) =>
      i < N && k'.dad[i] == k.dad[i] && k'.rson[i] == k.rson[i]
  }

  lemma {:induction false} AroundFrame(k: Links, k': Links, c: Context, top: Anchor)
    requires Shaped(k) && Shaped(k') && SpellsAround(k, c, top) && ProperAround(c)
    requires SameAround(k, k', c, top) && Sound(top)
    requires c != Top ==> SameLinks(k, k', Around(c) - {HoleOf(c, top).node}) && LinkAt(k', top) == LinkAt(k, top)
    ensures SpellsAround(k', c, top)
  {
    match c
    case Top =>
    case OnRight(up, l, i) =>
      SpellsFrame(k, k', l, Anchor(i, false));
      FullFrame(k, k', up, top);
    case OnLeft(up, i, r) =>
      SpellsFrame(k, k', r, Anchor(i, true));
      FullFrame(k, k', up, top);
  }

  lemma {:induction false} FullFrame(k: Links, k': Links, c: Context, top: Anchor)
    requires Shaped(k) && Shaped(k') && SpellsAround(k, c, top)
    requires SameLinks(k, k', Around(c)) && Sound(top) && LinkAt(k', top) == LinkAt(k, top)
    ensures SpellsAround(k', c, top) && LinkAt(k', HoleOf(c, top)) == LinkAt(k, HoleOf(c, top))
    decreases c
  {
    match c
    case Top =>
    case OnRight(up, l, i) =>
      FullFrame(k, k', up, top);
      SpellsFrame(k, k', l, Anchor(i, false));
    case OnLeft(up, i, r) =>
      FullFrame(k, k', up, top);
      SpellsFrame(k, k', r, Anchor(i, true));
  }

  // ------------------------------------------------------------------ operations

  function SetLink(k: Links, a: Anchor, n: int): (r: Links)
    requires Shaped(k) && Sound(a)
    ensures Shaped(r)
  {
    if a.right then k.(rson := k.rson[a.node := n]) else k.(lson := k.lson[a.node := n])
  }

  /** Changing the link at the hole, and links of nodes outside, keeps the context. */
  lemma {:induction false} HoleFrame(k: Links, k': Links, c: Context, top: Anchor)
    requires Shaped(k) && Shaped(k') && SpellsAround(k, c, top) && ProperAround(c) && Sound(top)
    requires top.node >= N || top.node !in Around(c)
    requires forall i :: i in Around(c) && i < N ==>
               && k'.dad[i] == k.dad[i]
               && (k'.lson[i] == k.lson[i] || HoleOf(c, top) == Anchor(i, false))
               && (k'.rson[i] == k.rson[i] || HoleOf(c, top) == Anchor(i, true))
    requires c != Top ==> LinkAt(k', top) == LinkAt(k, top)
    ensures SpellsAround(k', c, top)
  {
    AroundFrame(k, k', c, top);
  }

  /** A new leaf r at the hole. */
  function HangLeaf(k: Links, a: Anchor, r: nat): (k': Links)
    requires Shaped(k) && Sound(a) && r < N
    ensures Shaped(k')
  {
    var k1 := k.(lson := k.lson[r := NIL], rson := k.rson[r := NIL]);
    var k2 := SetLink(k1, a, r);
    k2.(dad := k2.dad[r := a.node])
  }

  lemma HangLeafSpells(k: Links, c: Context, r: nat, top: Anchor)
    requires Shaped(k) && Sound(top) && SpellsAround(k, c, top) && ProperAround(c)
    requires top.node >= N && r < N && r !in Around(c)
    ensures Sound(HoleOf(c, top))
    ensures Spells(HangLeaf(k, HoleOf(c, top), r), Plug(c, Node(Empty, r, Empty)), top)
  {
    hide Spells, Plug, ProperAround, HangLeaf;
    HoleIsSound(k, c, top);
    HoleInside(c, top);
    var a, k' := HoleOf(c, top), HangLeaf(k, HoleOf(c, top), r);
    HangLeafAt(k, a, r);
    LeafSpells(k', a, r);
    HoleFrame(k, k', c, top);
    PlugSpells(k', c, Node(Empty, r, Empty), top);
  }

  /** What hanging a leaf changes. */
  lemma HangLeafAt(k: Links, a: Anchor, r: nat)
    requires Shaped(k) && Sound(a) && r < N && a.node != r
    ensures var k' := HangLeaf(k, a, r);
            && LinkAt(k', a) == r && k'.dad[r] == a.node && k'.lson[r] == NIL && k'.rson[r] == NIL
            && (forall i :: 0 <= i < N && i != r ==> k'.dad[i] == k.dad[i])
            && (forall i :: 0 <= i < N && i != r && a != Anchor(i, false) ==> k'.lson[i] == k.lson[i])
            && (forall i :: 0 <= i < N + 257 && i != r && a != Anchor(i, true) ==> k'.rson[i] == k.rson[i])
  {
  }

  lemma LeafSpells(k: Links, a: Anchor, r: nat)
    requires Shaped(k) && Sound(a) && r < N
    requires LinkAt(k, a) == r && k.dad[r] == a.node && k.lson[r] == NIL && k.rson[r] == NIL
    ensures Spells(k, Node(Empty, r, Empty), a)
  {
  }

  /** The node r takes the place of p. */
  function TakePlace(k: Links, a: Anchor, p: nat, r: nat): (k': Links)
    requires Shaped(k) && Sound(a) && p < N && r < N
    requires 0 <= k.lson[p] <= N && 0 <= k.rson[p] <= N
    ensures Shaped(k')
  {
    var k1 := Links(k.lson[r := k.lson[p]], k.rson[r := k.rson[p]],
                    k.dad[r := k.dad[p]][k.lson[p] := r][k.rson[p] := r]);
    var k2 := SetLink(k1, a, r);
    k2.(dad := k2.dad[p := NIL])
  }

  lemma {:induction false} TakePlaceSpells(k: Links, c: Context, l: Tree, p: nat, rt: Tree, r: nat, top: Anchor)
    requires Shaped(k) && Sound(top) && top.node >= N
    requires Spells(k, Plug(c, Node(l, p, rt)), top) && Proper(Plug(c, Node(l, p, rt)))
    requires r < N && r !in Members(Plug(c, Node(l, p, rt)))
    ensures p < N && Sound(HoleOf(c, top)) && 0 <= k.lson[p] <= N && 0 <= k.rson[p] <= N
    ensures Spells(TakePlace(k, HoleOf(c, top), p, r), Plug(c, Node(l, r, rt)), top)
  {
    hide TakePlace;
    var a := HoleOf(c, top);
    PlugSpells(k, c, Node(l, p, rt), top);
    PlugProper(c, Node(l, p, rt));
    PlugMembers(c, Node(l, p, rt));
    HoleIsSound(k, c, top);
    HoleInside(c, top);
    RootLink(k, l, Anchor(p, false));
    RootLink(k, rt, Anchor(p, true));
    TakePlaceAt(k, a, p, r);
    var k' := TakePlace(k, a, p, r);
    hide Spells, SpellsAround, Proper, ProperAround, Members, Around, HoleOf, Plug;
    TakePlaceParts(k, k', c, l, p, rt, r, top);
    PlugSpells(k', c, Node(l, r, rt), top);
    NodeSpells(k', l, r, rt, a);
  }

  lemma RootLink(k: Links, t: Tree, a: Anchor)
    requires Shaped(k) && Spells(k, t, a)
    ensures if t.Node? then LinkAt(k, a) == t.i < N else LinkAt(k, a) == NIL
  {
  }

  lemma {:induction false} NodeSpells(k: Links, l: Tree, i: nat, r: Tree, a: Anchor)
    requires Shaped(k) && Sound(a) && i < N && LinkAt(k, a) == i && k.dad[i] == a.node
    requires Spells(k, l, Anchor(i, false)) && Spells(k, r, Anchor(i, true))
    ensures Spells(k, Node(l, i, r), a)
  {
  }

  /** What differs once r has taken the place of p, link by link. */
  ghost predicate PlaceMoved(k: Links, k': Links, a: Anchor, p: nat, r: nat)
    requires Shaped(k) && Shaped(k') && Sound(a) && p < N && r < N
  {
    && LinkAt(k', a) == r && k'.lson[r] == k.lson[p] && k'.rson[r] == k.rson[p] && k'.dad[r] == k.dad[p]
    && k'.dad[p] == NIL
    && (forall i :: 0 <= i < N && i != r && i != p ==>
          k'.dad[i] == if i == k.lson[p] || i == k.rson[p] then r else k.dad[i])
    && (forall i :: 0 <= i < N && i != r && Anchor(i, false) != a ==> k'.lson[i] == k.lson[i])
    && (forall i :: 0 <= i < N + 257 && i != r && Anchor(i, true) != a ==> k'.rson[i] == k.rson[i])
  }

  lemma TakePlaceAt(k: Links, a: Anchor, p: nat, r: nat)
    requires Shaped(k) && Sound(a) && p < N && r < N && a.node != r && p != r
    requires 0 <= k.lson[p] <= N && 0 <= k.rson[p] <= N && k.lson[p] != p && k.rson[p] != p && k.lson[p] != r && k.rson[p] != r
    ensures PlaceMoved(k, TakePlace(k, a, p, r), a, p, r)
  {
  }

  lemma {:induction false} TakePlaceParts(k: Links, k': Links, c: Context, l: Tree, p: nat, rt: Tree, r: nat,
                                          top: Anchor)
    requires Shaped(k) && Shaped(k') && Sound(top) && top.node >= N && p < N && r < N
    requires SpellsAround(k, c, top) && ProperAround(c)
    requires Spells(k, l, Anchor(p, false)) && Spells(k, rt, Anchor(p, true)) && Proper(Node(l, p, rt))
    requires Around(c) !! Members(Node(l, p, rt)) && r !in Around(c) && r !in Members(Node(l, p, rt))
    requires Sound(HoleOf(c, top)) && PlaceMoved(k, k', HoleOf(c, top), p, r)
    requires HoleOf(c, top) == top || HoleOf(c, top).node in Around(c)
    ensures SpellsAround(k', c, top)
    ensures Spells(k', l, Anchor(r, false)) && Spells(k', rt, Anchor(r, true))
  {
    RootLink(k, l, Anchor(p, false));
    RootLink(k, rt, Anchor(p, true));
    hide SpellsAround, ProperAround, Spells, Proper;
    ProperParts(l, p, rt);
    HoleFrame(k, k', c, top);
    MoveUnder(k, k', l, Anchor(p, false), Anchor(r, false));
    MoveUnder(k, k', rt, Anchor(p, true), Anchor(r, true));
  }

  lemma ProperParts(l: Tree, p: nat, rt: Tree)
    requires Proper(Node(l, p, rt))
    ensures p < N && Proper(l) && Proper(rt)
    ensures p !in Members(l) && p !in Members(rt) && Members(l) !! Members(rt)
    ensures Members(Node(l, p, rt)) == Members(l) + {p} + Members(rt)
    ensures l.Node? ==> l.i in Members(l)
    ensures rt.Node? ==> rt.i in Members(rt)
  {
  }

  lemma ProperNode(l: Tree, p: nat, rt: Tree)
    requires p < N && Proper(l) && Proper(rt) && p !in Members(l) && p !in Members(rt) && Members(l) !! Members(rt)
    ensures Proper(Node(l, p, rt)) && Members(Node(l, p, rt)) == Members(l) + {p} + Members(rt)
  {
  }

  lemma HoleInside(c: Context, top: Anchor)
    ensures HoleOf(c, top) == top || (HoleOf(c, top).node in Around(c) && c != Top)
  {
  }

  /** SpellsMove, with the conditions spelled out node by node. */
  lemma {:induction false} MoveUnder(k: Links, k': Links, t: Tree, a: Anchor, b: Anchor)
    requires Shaped(k) && Shaped(k') && Spells(k, t, a) && Proper(t) && Sound(b)
    requires LinkAt(k', b) == LinkAt(k, a)
    requires forall i :: i in Members(t) && i < N ==>
               && k'.lson[i] == k.lson[i] && k'.rson[i] == k.rson[i]
               && k'.dad[i] == if t.Node? && i == t.i then b.node else k.dad[i]
    ensures Spells(k', t, b)
  {
    SpellsMove(k, k', t, a, b);
  }

  /** The only child of p, if any, takes its place. */
  function Bypass(k: Links, a: Anchor, child: int): (k': Links)
    requires Shaped(k) && Sound(a) && 0 <= child <= N
    ensures Shaped(k')
  {
    var k1 := k.(dad := k.dad[child := a.node]);
    SetLink(k1, a, child)
  }

  /** What bypassing a node changes. */
  lemma BypassIs(k: Links, a: Anchor, child: int)
    requires Shaped(k) && Sound(a) && 0 <= child <= N
    ensures var k' := Bypass(k, a, child);
            && LinkAt(k', a) == child && k'.dad[child] == a.node
            && (forall i :: 0 <= i < N && i != child ==> k'.dad[i] == k.dad[i])
            && (forall i :: 0 <= i < N && a != Anchor(i, false) ==> k'.lson[i] == k.lson[i])
            && (forall i :: 0 <= i < N + 257 && a != Anchor(i, true) ==> k'.rson[i] == k.rson[i])
  {
  }

  lemma {:induction false} BypassSpells(k: Links, c: Context, l: Tree, p: nat, rt: Tree, top: Anchor)
    requires Shaped(k) && Sound(top)
    requires Spells(k, Plug(c, Node(l, p, rt)), top) && Proper(Plug(c, Node(l, p, rt)))
    requires top.node >= N || top.node !in Members(Plug(c, Node(l, p, rt)))
    requires l == Empty || rt == Empty
    ensures p < N && Sound(HoleOf(c, top))
    ensures var child := if rt == Empty then k.lson[p] else k.rson[p];
            && 0 <= child <= N
            && Spells(Bypass(k, HoleOf(c, top), child), Plug(c, if rt == Empty then l else rt), top)
  {
    var a := HoleOf(c, top);
    PlugSpells(k, c, Node(l, p, rt), top);
    PlugProper(c, Node(l, p, rt));
    PlugMembers(c, Node(l, p, rt));
    HoleIsSound(k, c, top);
    HoleInside(c, top);
    var sub, side := if rt == Empty then l else rt, Anchor(p, rt != Empty);
    var child := LinkAt(k, side);
    assert Spells(k, sub, side);
    hide Spells, Plug, Bypass;
    RootLink(k, sub, side);
    var k' := Bypass(k, a, child);
    BypassIs(k, a, child);
    HoleFrame(k, k', c, top);
    MoveUnder(k, k', sub, side, a);
    PlugSpells(k', c, sub, top);
  }
}
