/** The dictionary of LZHUF: 256 search trees over the positions of a ring buffer,
    one for each first byte. */
module LzhufDictionary {
  import opened Bytes
  import opened LzhufForest
  import opened LzhufOrder

  function Root(ch: byte): (a: Anchor)
    ensures Sound(a)
  {
    Anchor(N + 1 + ch, true)
  }

  ghost predicate Owned(text: seq<byte>, t: Tree, ch: int)
    requires Buffer(text)
  {
    forall x :: x in Members(t) ==> x < N && text[x] == ch
  }

  /** One tree is in order. */
  ghost predicate TreeAt(k: Links, text: seq<byte>, t: Tree, ch: byte)
    requires Shaped(k) && Buffer(text)
  {
    Spells(k, t, Root(ch)) && Proper(t) && Ordered(text, t) && Owned(text, t, ch)
  }

  ghost predicate Registered(text: seq<byte>, forest: seq<Tree>, p: nat)
    requires Buffer(text) && |forest| == 256 && p < N
  {
    p in Members(forest[text[p]])
  }

  /** All trees are in order, and dad tells which positions they hold. */
  ghost predicate Grown(k: Links, text: seq<byte>, forest: seq<Tree>)
  {
    && Shaped(k) && Buffer(text) && |forest| == 256
    && (forall ch: byte :: TreeAt(k, text, forest[ch], ch))
    && (forall p :: 0 <= p < N ==> (k.dad[p] == NIL <==> !Registered(text, forest, p)))
  }

  /** Links change only at nodes of the tree for ch, at r, and at the root for ch. */
  ghost predicate Local(k: Links, k': Links, nodes: set<nat>, ch: byte)
    requires Shaped(k) && Shaped(k')
  {
    && (forall i :: 0 <= i < N && i !in nodes ==>
          k'.lson[i] == k.lson[i] && k'.rson[i] == k.rson[i] && k'.dad[i] == k.dad[i])
    && (forall i :: N < i < N + 257 && i != N + 1 + ch ==> k'.rson[i] == k.rson[i])
  }

  lemma GrownAfter(k: Links, k': Links, text: seq<byte>, forest: seq<Tree>, ch: byte, nodes: set<nat>, t: Tree)
    requires Grown(k, text, forest) && Shaped(k')
    requires Local(k, k', nodes, ch)
    requires forall i :: i in nodes ==> i < N && text[i] == ch && (k'.dad[i] == NIL <==> i !in Members(t))
    requires Members(forest[ch]) <= nodes && Members(t) <= nodes
    requires TreeAt(k', text, t, ch)
    ensures Grown(k', text, forest[ch := t])
  {
    hide Spells, Proper, Ordered;
    var forest' := forest[ch := t];
    forall d: byte ensures TreeAt(k', text, forest'[d], d) {
      if d != ch {
        assert TreeAt(k, text, forest[d], d);
        SpellsFrame(k, k', forest[d], Root(d));
      }
    }
    forall p | 0 <= p < N
      ensures k'.dad[p] == NIL <==> !Registered(text, forest', p)
    {
      assert k.dad[p] == NIL <==> !Registered(text, forest, p);
    }
  }

  // -------------------------------------------------------------------- contexts

  /** Where in the tree a node is, and what removing it comes to. */
  lemma {:induction false} FindContext(up: Context, t: Tree, p: nat) returns (c: Context, l: Tree, r: Tree)
    requires p in Members(t) && Proper(t)
    ensures Plug(c, Node(l, p, r)) == Plug(up, t)
    ensures Plug(c, WithoutRoot(l, r)) == Plug(up, Remove(t, p))
    decreases t
  {
    if p == t.i {
      c, l, r := up, t.l, t.r;
    } else if p in Members(t.l) {
      c, l, r := FindContext(OnLeft(up, t.i, t.r), t.l, p);
    } else {
      c, l, r := FindContext(OnRight(up, t.l, t.i), t.r, p);
    }
  }

  /** dad and rson together tell on which side of its parent a node hangs. */
  lemma {:induction false} WhichSide(k: Links, c: Context, l: Tree, p: nat, r: Tree, top: Anchor)
    requires Shaped(k) && Sound(top) && top.right
    requires Spells(k, Plug(c, Node(l, p, r)), top) && Proper(Plug(c, Node(l, p, r)))
    ensures Sound(HoleOf(c, top)) && p < N && k.dad[p] == HoleOf(c, top).node
    ensures k.rson[k.dad[p]] == p <==> HoleOf(c, top).right
    ensures LinkAt(k, HoleOf(c, top)) == p
    ensures HoleOf(c, top) == top || HoleOf(c, top).node in Around(c)
  {
    PlugSpells(k, c, Node(l, p, r), top);
    PlugProper(c, Node(l, p, r));
    HoleIsSound(k, c, top);
    if c.OnLeft? {
      RootLink(k, c.r, Anchor(c.i, true));
    }
  }

  // -------------------------------------------------------------------- searching

  /** How far back p lies from r in the ring. */
  function Distance(r: nat, p: nat): (d: nat)
    ensures d < N
  {
    (r - p) % N
  }

  /** x is a position whose string agrees with that of r in exactly len bytes, pos + 1 back. */
  ghost predicate MatchAt(text: seq<byte>, r: nat, x: nat, len: nat, pos: int)
    requires Buffer(text) && r < N
  {
    x < N && x != r && Common(Key(text, r), Key(text, x)) == len && pos == Distance(r, x) - 1
  }

  /** The search recorded the longest match met in `met`, if it exceeds the threshold. */
  ghost predicate Best(text: seq<byte>, r: nat, met: set<nat>, len: nat, pos: int)
    requires Buffer(text) && r < N
  {
    && (forall x :: x in met ==> NoBetter(text, r, x, len))
    && (len == 0 || (THRESHOLD < len <= F && exists x :: x in met && MatchAt(text, r, x, len, pos)))
  }

  ghost predicate NoBetter(text: seq<byte>, r: nat, x: nat, len: nat)
    requires Buffer(text) && r < N
  {
    x < N && (Common(Key(text, r), Key(text, x)) <= THRESHOLD || Common(Key(text, r), Key(text, x)) <= len)
  }

  /** Of the nodes compared, none matches longer, and none that matches as long is nearer. */
  ghost predicate Nearest(text: seq<byte>, r: nat, path: set<nat>, len: nat, pos: int)
    requires Buffer(text) && r < N
  {
    && (forall x :: x in path ==> NoBetter(text, r, x, len))
    && (forall x :: x in path && Common(Key(text, r), Key(text, x)) == len && len > THRESHOLD ==> pos <= Distance(r, x) - 1)
  }

  lemma NearestGrows(text: seq<byte>, r: nat, path: set<nat>, p: nat, i: nat, len: nat, pos: int)
    requires Buffer(text) && r < N && p < N && Nearest(text, r, path, len, pos) && i == Common(Key(text, r), Key(text, p))
    ensures Nearest(text, r, path + {p}, NewLength(i, len), NewPosition(r, p, i, len, pos))
  {
    hide Common, Key, Distance;
  }

  /** One more node compared on the way down. */
  lemma PathStep(text: seq<byte>, whole: Tree, t: Tree, r: nat, path: set<nat>, cmp: int, i: nat, len: nat, pos: int)
    requires Buffer(text) && r < N && t.Node? && t.i < N && i == Common(Key(text, r), Key(text, t.i)) && (cmp == 0 <==> i == F)
    requires cmp == 0 <==> Key(text, r) == Key(text, t.i)
    requires cmp > 0 <==> Less(Key(text, t.i), Key(text, r))
    requires Nearest(text, r, path, len, pos) && SearchPath(text, whole, r) == path + SearchPath(text, t, r)
    ensures Nearest(text, r, path + {t.i}, NewLength(i, len), NewPosition(r, t.i, i, len, pos))
    ensures i == F ==> SearchPath(text, whole, r) == path + {t.i}
    ensures i != F ==> SearchPath(text, whole, r) == path + {t.i} + SearchPath(text, if cmp > 0 then t.r else t.l, r)
  {
    hide Nearest;
    NearestGrows(text, r, path, t.i, i, len, pos);
  }

  /** The recorded match after p was found to match in i bytes. */
  function NewLength(i: nat, len: nat): (r: nat)
  {
    if i > THRESHOLD && i > len then i else len
  }

  function NewPosition(r: nat, p: nat, i: nat, len: nat, pos: int): (n: int)
  {
    if i > THRESHOLD && (i > len || (i == len && Distance(r, p) - 1 < pos)) then Distance(r, p) - 1 else pos
  }

  /** One more node compared, and the side of it not taken written off. */
  lemma BestGrows(text: seq<byte>, r: nat, met: set<nat>, p: nat, side: set<nat>, i: nat, len: nat, pos: int)
    requires Buffer(text) && r < N && p < N && p != r
    requires Best(text, r, met, len, pos)
    requires i == Common(Key(text, r), Key(text, p)) <= F
    requires forall x :: x in side ==> x < N && Common(Key(text, r), Key(text, x)) <= i
    ensures Best(text, r, met + {p} + side, NewLength(i, len), NewPosition(r, p, i, len, pos))
  {
    var len', pos' := NewLength(i, len), NewPosition(r, p, i, len, pos);
    hide Common, Key, Distance;
    var met' := met + {p} + side;
    if pos' == pos && len' == len && len > 0 {
      var x :| x in met && MatchAt(text, r, x, len, pos);
      assert x in met';
    } else if len' > 0 {
      assert p in met' && MatchAt(text, r, p, len', pos');
    }
  }

  /** Everything on the side not taken matches no better than the node where the way parted. */
  lemma SideNotTaken(text: seq<byte>, l: Tree, p: nat, rt: Tree, r: nat)
    requires Buffer(text) && r < N && Ordered(text, Node(l, p, rt))
    ensures Less(Key(text, p), Key(text, r)) ==>
              forall x :: x in Members(l) ==> x < N && Common(Key(text, r), Key(text, x)) <= Common(Key(text, r), Key(text, p))
    ensures Less(Key(text, r), Key(text, p)) ==>
              forall x :: x in Members(rt) ==> x < N && Common(Key(text, r), Key(text, x)) <= Common(Key(text, r), Key(text, p))
  {
    hide Less, Key, Common;
    if Less(Key(text, p), Key(text, r)) {
      forall x | x in Members(l) ensures x < N && Common(Key(text, r), Key(text, x)) <= Common(Key(text, r), Key(text, p)) {
        Between(Key(text, x), Key(text, p), Key(text, r));
        CommonSwap(Key(text, x), Key(text, r));
        CommonSwap(Key(text, p), Key(text, r));
      }
    }
    if Less(Key(text, r), Key(text, p)) {
      forall x | x in Members(rt) ensures x < N && Common(Key(text, r), Key(text, x)) <= Common(Key(text, r), Key(text, p)) {
        Between(Key(text, r), Key(text, p), Key(text, x));
      }
    }
  }

  /** The links agree, except for the sons of r and dad[NIL]. */
  ghost predicate AgreeBut(k: Links, k': Links, r: nat)
    requires Shaped(k) && Shaped(k')
  {
    && (forall i :: 0 <= i < N ==> k'.dad[i] == k.dad[i])
    && (forall i :: 0 <= i < N && i != r ==> k'.lson[i] == k.lson[i])
    && (forall i :: 0 <= i < N + 257 && i != r ==> k'.rson[i] == k.rson[i])
  }

  /** The sons of a position that no tree holds do not matter, nor does dad[NIL]. */
  lemma SonsDoNotMatter(k: Links, k': Links, text: seq<byte>, forest: seq<Tree>, r: nat)
    requires Grown(k, text, forest) && Shaped(k') && r < N && !Registered(text, forest, r)
    requires AgreeBut(k, k', r)
    ensures Grown(k', text, forest)
  {
    hide Spells, Proper, Ordered;
    forall d: byte ensures TreeAt(k', text, forest[d], d) {
      assert TreeAt(k, text, forest[d], d);
      SpellsFrame(k, k', forest[d], Root(d));
    }
  }

  lemma HangIsLocal(k: Links, a: Anchor, r: nat, nodes: set<nat>, ch: byte)
    requires Shaped(k) && Sound(a) && r < N && r in nodes && a.node != r && (a.node in nodes || a == Root(ch))
    requires forall i :: i in nodes ==> i < N && (k.dad[i] == NIL <==> i == r)
    ensures Local(k, HangLeaf(k, a, r), nodes, ch)
    ensures forall i :: i in nodes ==> HangLeaf(k, a, r).dad[i] != NIL
  {
    hide HangLeaf;
    HangLeafAt(k, a, r);
  }

  /** A leaf hung where the search for it ended. */
  lemma LeafInserted(k: Links, text: seq<byte>, forest: seq<Tree>, c: Context, r: nat)
    requires Grown(k, text, forest) && r < N && !Registered(text, forest, r)
    requires Plug(c, Empty) == forest[text[r]]
    requires Insert(text, forest[text[r]], r) == Plug(c, Node(Empty, r, Empty))
    ensures Sound(HoleOf(c, Root(text[r]))) && HoleOf(c, Root(text[r])).node != r
    ensures Grown(HangLeaf(k, HoleOf(c, Root(text[r])), r), text, forest[text[r] := Insert(text, forest[text[r]], r)])
  {
    hide Spells, Ordered, Insert, SpellsAround, HangLeaf, Plug, Local;
    var ch := text[r];
    var t, t', top := forest[ch], Insert(text, forest[ch], r), Root(text[r]);
    assert TreeAt(k, text, t, ch);
    PlugSpells(k, c, Empty, top);
    PlugProper(c, Empty);
    PlugMembers(c, Empty);
    PlugMembers(c, Node(Empty, r, Empty));
    PlugProper(c, Node(Empty, r, Empty));
    HoleInside(c, top);
    HangLeafSpells(k, c, r, top);
    HangIsLocal(k, HoleOf(c, top), r, Members(t) + {r}, ch);
    InsertOrdered(text, t, r);
    GrownAfter(k, HangLeaf(k, HoleOf(c, top), r), text, forest, ch, Members(t) + {r}, t');
  }

  /** p hangs at a, and its links lead elsewhere. */
  ghost predicate Settled(k: Links, a: Anchor, p: nat)
    requires Shaped(k) && Sound(a) && p < N
  {
    && a.node == k.dad[p] && a.node != p && (k.rson[a.node] == p <==> a.right)
    && 0 <= k.lson[p] <= N && 0 <= k.rson[p] <= N
    && k.lson[p] != p && k.rson[p] != p && k.lson[p] != a.node && k.rson[p] != a.node
  }

  /** The links around a node that are needed to put another in its place. */
  lemma {:induction false} NodeLinks(k: Links, text: seq<byte>, t: Tree, ch: byte, c: Context, l: Tree, p: nat,
                                     rt: Tree)
    requires Shaped(k) && Buffer(text) && TreeAt(k, text, t, ch) && t == Plug(c, Node(l, p, rt))
    ensures Sound(HoleOf(c, Root(ch))) && p < N && p in Members(t) && Settled(k, HoleOf(c, Root(ch)), p)
    ensures HoleOf(c, Root(ch)).node in Members(t) || HoleOf(c, Root(ch)) == Root(ch)
    ensures k.lson[p] == NIL || k.lson[p] in Members(t)
    ensures k.rson[p] == NIL || k.rson[p] in Members(t)
  {
    hide Ordered, SpellsAround, Plug;
    var top := Root(ch);
    PlugSpells(k, c, Node(l, p, rt), top);
    PlugProper(c, Node(l, p, rt));
    PlugMembers(c, Node(l, p, rt));
    RootLink(k, l, Anchor(p, false));
    RootLink(k, rt, Anchor(p, true));
    ProperParts(l, p, rt);
    WhichSide(k, c, l, p, rt, top);
  }

  lemma {:induction false} TreeWithPlaceTaken(k: Links, text: seq<byte>, t: Tree, c: Context, l: Tree, p: nat,
                                              rt: Tree, r: nat)
    requires Shaped(k) && Buffer(text) && r < N && r !in Members(t)
    requires TreeAt(k, text, t, text[r]) && t == Plug(c, Node(l, p, rt))
    requires Insert(text, t, r) == Plug(c, Node(l, r, rt))
    requires p < N && Sound(HoleOf(c, Root(text[r]))) && 0 <= k.lson[p] <= N && 0 <= k.rson[p] <= N
    ensures TreeAt(TakePlace(k, HoleOf(c, Root(text[r])), p, r), text, Insert(text, t, r), text[r])
    ensures Members(Insert(text, t, r)) == Members(t) - {p} + {r}
  {
    hide Ordered, Insert, SpellsAround, TakePlace, Plug, Spells;
    var top := Root(text[r]);
    PlugProper(c, Node(l, p, rt));
    PlugMembers(c, Node(l, p, rt));
    ProperParts(l, p, rt);
    TakePlaceSpells(k, c, l, p, rt, r, top);
    PlugMembers(c, Node(l, r, rt));
    PlugProper(c, Node(l, r, rt));
    InsertOrdered(text, t, r);
  }

  /** A position that takes over the place of another with the same string. */
  lemma {:induction false} PlaceTaken(k: Links, text: seq<byte>, forest: seq<Tree>, c: Context, l: Tree, p: nat,
                                      rt: Tree, r: nat)
    requires Grown(k, text, forest) && r < N && !Registered(text, forest, r)
    requires Plug(c, Node(l, p, rt)) == forest[text[r]]
    requires Insert(text, forest[text[r]], r) == Plug(c, Node(l, r, rt))
    requires p < N && Sound(HoleOf(c, Root(text[r]))) && 0 <= k.lson[p] <= N && 0 <= k.rson[p] <= N
    ensures Settled(k, HoleOf(c, Root(text[r])), p)
    ensures p != r && HoleOf(c, Root(text[r])).node != r && k.lson[p] != r && k.rson[p] != r
    ensures Grown(TakePlace(k, HoleOf(c, Root(text[r])), p, r), text, forest[text[r] := Insert(text, forest[text[r]], r)])
  {
    hide Ordered, Insert, SpellsAround, TakePlace, Plug, Spells, Proper, HoleOf;
    var ch := text[r];
    var t, t', a := forest[ch], Insert(text, forest[ch], r), HoleOf(c, Root(text[r]));
    assert TreeAt(k, text, t, ch);
    NodeLinks(k, text, t, ch, c, l, p, rt);
    TreeWithPlaceTaken(k, text, t, c, l, p, rt, r);
    TakePlaceAt(k, a, p, r);
    GrownAfter(k, TakePlace(k, a, p, r), text, forest, ch, Members(t) + {r}, t');
  }

  /** Taking a node with at most one child out of its tree. */
  function Unhook(k: Links, a: Anchor, p: nat, child: int): (k': Links)
    requires Shaped(k) && Sound(a) && p < N && 0 <= child <= N
    ensures Shaped(k')
  {
    var k1 := Bypass(k, a, child);
    k1.(dad := k1.dad[p := NIL])
  }

  lemma UnhookIsLocal(k: Links, a: Anchor, p: nat, child: int, nodes: set<nat>, ch: byte)
    requires Shaped(k) && Sound(a) && p < N && 0 <= child <= N && p in nodes && (child == NIL || child in nodes)
    requires a.node in nodes || a == Root(ch)
    requires forall i :: i in nodes ==> i < N && k.dad[i] != NIL
    ensures Local(k, Unhook(k, a, p, child), nodes, ch)
    ensures forall i :: i in nodes ==> (Unhook(k, a, p, child).dad[i] == NIL <==> i == p)
    ensures SameLinks(Bypass(k, a, child), Unhook(k, a, p, child), nodes - {p})
  {
    hide Bypass;
    BypassAt(k, a, child);
  }

  lemma {:induction false} Unhooked(k: Links, text: seq<byte>, forest: seq<Tree>, c: Context, l: Tree, p: nat, rt: Tree)
    requires Grown(k, text, forest) && p < N
    requires Plug(c, Node(l, p, rt)) == forest[text[p]] && Plug(c, WithoutRoot(l, rt)) == Remove(forest[text[p]], p)
    requires l == Empty || rt == Empty
    requires Sound(HoleOf(c, Root(text[p]))) && 0 <= k.lson[p] <= N && 0 <= k.rson[p] <= N
    ensures Grown(Unhook(k, HoleOf(c, Root(text[p])), p, if rt == Empty then k.lson[p] else k.rson[p]), text, forest[text[p] := Remove(forest[text[p]], p)])
  {
    hide Ordered, SpellsAround, Plug, Spells, Proper, HoleOf, Bypass, Remove, Local;
    var ch := text[p];
    var t, t', a := forest[ch], Remove(forest[ch], p), HoleOf(c, Root(text[p]));
    var child := if rt == Empty then k.lson[p] else k.rson[p];
    assert TreeAt(k, text, t, ch);
    NodeLinks(k, text, t, ch, c, l, p, rt);
    BypassSpells(k, c, l, p, rt, Root(ch));
    RemoveOrdered(text, t, p);
    var k1, k' := Bypass(k, a, child), Unhook(k, a, p, child);
    BypassAt(k, a, child);
    UnhookIsLocal(k, a, p, child, Members(t), ch);
    SpellsFrame(k1, k', t', Root(ch));
    GrownAfter(k, k', text, forest, ch, Members(t), t');
  }

  /** What differs once child hangs at a, link by link. */
  ghost predicate Hung(k: Links, k': Links, a: Anchor, child: int)
    requires Shaped(k) && Shaped(k')
  {
    && (forall i :: 0 <= i <= N ==> k'.dad[i] == if i == child then a.node else k.dad[i])
    && (forall i :: 0 <= i <= N && Anchor(i, false) != a ==> k'.lson[i] == k.lson[i])
    && (forall i :: 0 <= i < N + 257 && Anchor(i, true) != a ==> k'.rson[i] == k.rson[i])
  }

  lemma BypassAt(k: Links, a: Anchor, child: int)
    requires Shaped(k) && Sound(a) && 0 <= child <= N
    ensures LinkAt(Bypass(k, a, child), a) == child && Hung(k, Bypass(k, a, child), a, child)
  {
  }

  /** Below p, the largest node can be bypassed. */
  lemma {:induction false} LargestBypassed(k: Links, l: Tree, p: nat, c2: Context, ql: Tree, q: nat)
    requires Shaped(k) && p < N && Spells(k, l, Anchor(p, false)) && Proper(l) && p !in Members(l)
    requires l == Plug(c2, Node(ql, q, Empty))
    ensures q < N && Sound(HoleOf(c2, Anchor(p, false))) && 0 <= k.lson[q] <= N && q in Members(l)
    ensures HoleOf(c2, Anchor(p, false)).node in Members(l) || HoleOf(c2, Anchor(p, false)) == Anchor(p, false)
    ensures k.lson[q] == NIL || k.lson[q] in Members(l)
    ensures forall x :: x in Members(l) ==> x < N
    ensures Spells(Bypass(k, HoleOf(c2, Anchor(p, false)), k.lson[q]), Plug(c2, ql), Anchor(p, false))
  {
    hide SpellsAround, ProperAround, Bypass, Plug;
    var under := Anchor(p, false);
    BypassSpells(k, c2, ql, q, Empty, under);
    PlugMembers(c2, Node(ql, q, Empty));
    PlugSpells(k, c2, Node(ql, q, Empty), under);
    RootLink(k, ql, Anchor(q, false));
    HoleInside(c2, under);
    ProperInRange(l);
  }

  lemma {:induction false} ProperInRange(t: Tree)
    requires Proper(t)
    ensures forall x :: x in Members(t) ==> x < N
  {
    if t.Node? {
      ProperInRange(t.l);
      ProperInRange(t.r);
    }
  }

  /** With q taken out from below p, the rest of the tree is spelled as before. */
  lemma {:induction false} LargestTakenOut(k: Links, c: Context, l: Tree, p: nat, rt: Tree, top: Anchor, c2: Context,
                                           ql: Tree, q: nat)
    requires Shaped(k) && Sound(top) && top.node >= N
    requires Spells(k, Plug(c, Node(l, p, rt)), top) && Proper(Plug(c, Node(l, p, rt)))
    requires l == Plug(c2, Node(ql, q, Empty))
    ensures p < N && q < N && Sound(HoleOf(c2, Anchor(p, false))) && 0 <= k.lson[q] <= N
    ensures Spells(Bypass(k, HoleOf(c2, Anchor(p, false)), k.lson[q]), Plug(c, Node(Plug(c2, ql), p, rt)), top)
  {
    hide SpellsAround, ProperAround, Bypass, Plug, Proper, HoleOf, Around;
    PlugSpells(k, c, Node(l, p, rt), top);
    PlugProper(c, Node(l, p, rt));
    ProperParts(l, p, rt);
    HoleInside(c, top);
    HoleIsSound(k, c, top);
    LargestBypassed(k, l, p, c2, ql, q);
    var d := HoleOf(c2, Anchor(p, false));
    var k1 := Bypass(k, d, k.lson[q]);
    BypassAt(k, d, k.lson[q]);
    LargestFrame(k, k1, c, l, p, rt, top, d, k.lson[q]);
    NodeSpells(k1, Plug(c2, ql), p, rt, HoleOf(c, top));
    PlugSpells(k1, c, Node(Plug(c2, ql), p, rt), top);
  }

  lemma {:induction false} LargestFrame(k: Links, k1: Links, c: Context, l: Tree, p: nat, rt: Tree, top: Anchor,
                                        d: Anchor, child: int)
    requires Shaped(k) && Shaped(k1) && Sound(top) && top.node >= N && p < N
    requires SpellsAround(k, c, top) && ProperAround(c) && Spells(k, rt, Anchor(p, true))
    requires Sound(HoleOf(c, top)) && (HoleOf(c, top) == top || HoleOf(c, top).node in Around(c))
    requires Members(l) !! Members(rt) && p !in Members(l) && p !in Members(rt)
    requires Around(c) !! Members(l) && Around(c) !! Members(rt) && p !in Around(c)
    requires LinkAt(k, HoleOf(c, top)) == p && k.dad[p] == HoleOf(c, top).node
    requires (d.node in Members(l) || d == Anchor(p, false)) && (child == NIL || child in Members(l))
    requires Hung(k, k1, d, child)
    requires forall x :: x in Members(l) ==> x < N
    ensures SpellsAround(k1, c, top) && Spells(k1, rt, Anchor(p, true))
    ensures LinkAt(k1, HoleOf(c, top)) == p && k1.dad[p] == HoleOf(c, top).node
  {
    hide SpellsAround, ProperAround, Spells, Members;
    FullFrame(k, k1, c, top);
    SpellsFrame(k, k1, rt, Anchor(p, true));
  }

  /** The links once q, not the left son of p, is out of its place and has taken over that son. */
  function Detached(k: Links, p: nat, q: nat): (k': Links)
    requires Shaped(k) && p < N && q < N && 0 <= k.lson[p] < N && 0 <= k.dad[q] < N && 0 <= k.lson[q] <= N
    ensures Shaped(k')
  {
    var b := Bypass(k, Anchor(k.dad[q], true), k.lson[q]);
    Links(b.lson[q := k.lson[p]], b.rson, b.dad[k.lson[p] := q])
  }

  /** The links once the largest node q below p on the left has taken over the children of p. */
  function Merged(k: Links, p: nat, q: nat): (k': Links)
    requires Shaped(k) && p < N && q < N && 0 <= k.lson[p] < N && 0 <= k.rson[p] < N
    requires q != k.lson[p] ==> 0 <= k.dad[q] < N && 0 <= k.lson[q] <= N
    ensures Shaped(k')
  {
    var k1 := if q == k.lson[p] then k else Detached(k, p, q);
    Links(k1.lson, k1.rson[q := k.rson[p]], k1.dad[k.rson[p] := q])
  }

  /** How q lies below p. */
  ghost predicate LargestBelow(k: Links, l: Tree, p: nat, c2: Context, ql: Tree, q: nat)
    requires Shaped(k) && p < N
  {
    && l.Node? && l == Plug(c2, Node(ql, q, Empty)) && Plug(c2, ql) == WithoutLargest(l) && q == Largest(l)
    && q < N && 0 <= k.lson[q] <= N && 0 <= k.lson[p] < N && 0 <= k.rson[p] < N
    && (if c2 == Top then q == k.lson[p] else HoleOf(c2, Anchor(p, false)) == Anchor(k.dad[q], true) && 0 <= k.dad[q] < N && q != k.lson[p])
  }

  /** The tree with q in the place of p. */
  lemma {:induction false} LargestMoved(k: Links, text: seq<byte>, t: Tree, c: Context, l: Tree, p: nat, rt: Tree,
                                        c2: Context, ql: Tree, q: nat)
    requires Shaped(k) && Buffer(text) && p < N && TreeAt(k, text, t, text[p]) && t == Plug(c, Node(l, p, rt))
    requires l.Node? && rt.Node? && Plug(c, WithoutRoot(l, rt)) == Remove(t, p)
    requires l == Plug(c2, Node(ql, q, Empty)) && Plug(c2, ql) == WithoutLargest(l) && q == Largest(l)
    ensures q < N && Sound(HoleOf(c2, Anchor(p, false))) && Sound(HoleOf(c, Root(text[p]))) && 0 <= k.lson[q] <= N
    ensures var k1 := Bypass(k, HoleOf(c2, Anchor(p, false)), k.lson[q]); 0 <= k1.lson[p] <= N && 0 <= k1.rson[p] <= N
    ensures TreeAt(TakePlace(Bypass(k, HoleOf(c2, Anchor(p, false)), k.lson[q]), HoleOf(c, Root(text[p])), p, q), text, Remove(t, p), text[p])
  {
    hide SpellsAround, ProperAround, Bypass, Plug, Proper, HoleOf, TakePlace, Remove, Spells, Ordered;
    var top, l' := Root(text[p]), Plug(c2, ql);
    LargestTakenOut(k, c, l, p, rt, top, c2, ql, q);
    var k1 := Bypass(k, HoleOf(c2, Anchor(p, false)), k.lson[q]);
    PlugProper(c, Node(l, p, rt));
    ProperParts(l, p, rt);
    OrderedPlug(text, c, Node(l, p, rt), Empty);
    OrderedParts(text, l, p, rt);
    LargestSplits(text, l);
    ProperNode(l', p, rt);
    PlugProper(c, Node(l', p, rt));
    PlugMembers(c, Node(l', p, rt));
    PlugMembers(c, Node(l, p, rt));
    TakePlaceSpells(k1, c, l', p, rt, q, top);
    RemoveOrdered(text, t, p);
  }

  /** Taking q out from below p and then putting it in the place of p comes to what the
      program does, apart from links that do not matter. */
  lemma SameMove(k: Links, a: Anchor, p: nat, c2: Context, q: nat)
    requires Shaped(k) && Sound(a) && p < N && q < N && k.dad[p] == a.node
    requires 0 <= k.lson[p] < N && 0 <= k.rson[p] < N && 0 <= k.lson[q] <= N
    requires k.rson[p] != q && k.lson[q] != p && k.lson[q] != q && k.lson[p] != p && k.rson[p] != p
    requires if c2 == Top then q == k.lson[p] && (k.lson[q] != NIL ==> k.dad[k.lson[q]] == q)
             else HoleOf(c2, Anchor(p, false)) == Anchor(k.dad[q], true) && 0 <= k.dad[q] < N && q != k.lson[p]
                  && k.dad[q] != p
    ensures AgreeBut(TakePlace(Bypass(k, HoleOf(c2, Anchor(p, false)), k.lson[q]), a, p, q), Unhook(Merged(k, p, q), a, p, q), p)
  {
  }

  /** Where the links involved in the move lead. */
  lemma {:induction false} MoveLinks(k: Links, c: Context, l: Tree, p: nat, rt: Tree, top: Anchor, c2: Context,
                                     ql: Tree, q: nat)
    requires Shaped(k) && Sound(top) && top.node >= N && p < N
    requires Spells(k, Plug(c, Node(l, p, rt)), top) && Proper(Plug(c, Node(l, p, rt)))
    requires l.Node? && rt.Node? && LargestBelow(k, l, p, c2, ql, q)
    ensures q in Members(l) && p !in Members(l) && k.lson[p] in Members(l) && k.rson[p] in Members(rt) && k.rson[p] != q
    ensures k.lson[q] == NIL || (k.lson[q] in Members(l) && k.dad[k.lson[q]] == q)
    ensures k.lson[q] != q
    ensures c2 != Top ==> k.dad[q] in Members(l)
  {
    hide SpellsAround, ProperAround, Plug, WithoutLargest, Largest;
    PlugSpells(k, c, Node(l, p, rt), top);
    PlugProper(c, Node(l, p, rt));
    ProperParts(l, p, rt);
    RootLink(k, l, Anchor(p, false));
    RootLink(k, rt, Anchor(p, true));
    PlugSpells(k, c2, Node(ql, q, Empty), Anchor(p, false));
    PlugMembers(c2, Node(ql, q, Empty));
    PlugProper(c2, Node(ql, q, Empty));
    HoleInside(c2, Anchor(p, false));
  }

  /** Links change only inside the tree, and only p is no longer registered. */
  lemma {:induction false} MoveIsLocal(k: Links, nodes: set<nat>, ch: byte, a: Anchor, p: nat, d: Anchor, q: nat)
    requires Shaped(k) && p < N && q < N && p != q && p in nodes && q in nodes
    requires Sound(a) && Settled(k, a, p) && a.node != q && (a.node in nodes || a == Root(ch))
    requires Sound(d) && d.node in nodes && d.node < N && 0 <= k.lson[q] <= N && (k.lson[q] == NIL || k.lson[q] in nodes)
    requires k.lson[p] in nodes && k.rson[p] in nodes && k.lson[q] != p && k.lson[q] != q && k.rson[p] != q
    requires if d == Anchor(p, false) then k.lson[p] == q else d.node != p && k.lson[p] != q
    requires forall i :: i in nodes ==> i < N && k.dad[i] != NIL
    ensures var k1 := Bypass(k, d, k.lson[q]); 0 <= k1.lson[p] <= N && 0 <= k1.rson[p] <= N
    ensures Local(k, TakePlace(Bypass(k, d, k.lson[q]), a, p, q), nodes, ch)
    ensures forall i :: i in nodes ==> (TakePlace(Bypass(k, d, k.lson[q]), a, p, q).dad[i] == NIL <==> i == p)
  {
    hide Bypass, TakePlace;
    var k1 := Bypass(k, d, k.lson[q]);
    BypassAt(k, d, k.lson[q]);
    TakePlaceAt(k1, a, p, q);
  }

  lemma {:induction false} Moved(k: Links, text: seq<byte>, forest: seq<Tree>, c: Context, l: Tree, p: nat, rt: Tree,
                                 c2: Context, ql: Tree, q: nat)
    requires Grown(k, text, forest) && p < N
    requires Plug(c, Node(l, p, rt)) == forest[text[p]] && Plug(c, WithoutRoot(l, rt)) == Remove(forest[text[p]], p)
    requires l.Node? && rt.Node? && LargestBelow(k, l, p, c2, ql, q)
    ensures Sound(HoleOf(c, Root(text[p]))) && Sound(HoleOf(c2, Anchor(p, false)))
    ensures var k1 := Bypass(k, HoleOf(c2, Anchor(p, false)), k.lson[q]); 0 <= k1.lson[p] <= N && 0 <= k1.rson[p] <= N
    ensures Grown(TakePlace(Bypass(k, HoleOf(c2, Anchor(p, false)), k.lson[q]), HoleOf(c, Root(text[p])), p, q), text,
                  forest[text[p] := Remove(forest[text[p]], p)])
  {
    hide SpellsAround, ProperAround, Bypass, Plug, Proper, TakePlace, Remove, Spells, Ordered, Settled, WithoutRoot, WithoutLargest, Largest, Local;
    var ch := text[p];
    var t, a, d := forest[ch], HoleOf(c, Root(ch)), HoleOf(c2, Anchor(p, false));
    assert TreeAt(k, text, t, ch);
    NodeLinks(k, text, t, ch, c, l, p, rt);
    MoveLinks(k, c, l, p, rt, Root(ch), c2, ql, q);
    MoveInside(c, l, p, rt, Root(ch));
    LargestMoved(k, text, t, c, l, p, rt, c2, ql, q);
    RemoveOrdered(text, t, p);
    MoveIsLocal(k, Members(t), ch, a, p, d, q);
    GrownAfter(k, TakePlace(Bypass(k, d, k.lson[q]), a, p, q), text, forest, ch, Members(t), Remove(t, p));
  }

  lemma {:induction false} MoveInside(c: Context, l: Tree, p: nat, rt: Tree, top: Anchor)
    requires Proper(Plug(c, Node(l, p, rt))) && top.node >= N
    ensures Members(l) <= Members(Plug(c, Node(l, p, rt))) && Members(rt) <= Members(Plug(c, Node(l, p, rt)))
    ensures HoleOf(c, top).node !in Members(l)
  {
    PlugMembers(c, Node(l, p, rt));
    PlugProper(c, Node(l, p, rt));
    HoleInside(c, top);
    ProperInRange(l);
  }

  /** Removing a node with two children: the largest node on its left takes its place. */
  lemma {:induction false} Deleted(k: Links, text: seq<byte>, forest: seq<Tree>, c: Context, l: Tree, p: nat,
                                   rt: Tree, c2: Context, ql: Tree, q: nat)
    requires Grown(k, text, forest) && p < N
    requires Plug(c, Node(l, p, rt)) == forest[text[p]] && Plug(c, WithoutRoot(l, rt)) == Remove(forest[text[p]], p)
    requires l.Node? && rt.Node? && LargestBelow(k, l, p, c2, ql, q)
    ensures Sound(HoleOf(c, Root(text[p])))
    ensures Grown(Unhook(Merged(k, p, q), HoleOf(c, Root(text[p])), p, q), text, forest[text[p] := Remove(forest[text[p]], p)])
  {
    hide SpellsAround, ProperAround, Bypass, Plug, Proper, TakePlace, Remove, Spells, Ordered, Merged, Unhook, WithoutLargest, Largest, WithoutRoot;
    var ch := text[p];
    var t, a := forest[ch], HoleOf(c, Root(ch));
    assert TreeAt(k, text, t, ch);
    MoveLinks(k, c, l, p, rt, Root(ch), c2, ql, q);
    NodeLinks(k, text, t, ch, c, l, p, rt);
    LargestMoved(k, text, t, c, l, p, rt, c2, ql, q);
    Moved(k, text, forest, c, l, p, rt, c2, ql, q);
    SameMove(k, a, p, c2, q);
    var d := HoleOf(c2, Anchor(p, false));
    var k2 := TakePlace(Bypass(k, d, k.lson[q]), a, p, q);
    RemoveOrdered(text, t, p);
    SonsDoNotMatter(k2, Unhook(Merged(k, p, q), a, p, q), text, forest[ch := Remove(t, p)], p);
  }

  ghost function NoTrees(): (forest: seq<Tree>)
    ensures |forest| == 256 && forall ch :: 0 <= ch < 256 ==> forest[ch] == Empty
  {
    seq(256, _ => Empty)
  }

  lemma EmptyGrown(k: Links, text: seq<byte>)
    requires Shaped(k) && Buffer(text)
    requires (forall j :: N + 1 <= j < N + 257 ==> k.rson[j] == NIL) && forall j :: 0 <= j < N ==> k.dad[j] == NIL
    ensures Grown(k, text, NoTrees())
  {
  }

  /** The search for r has come to the subtree t: r belongs there, and everything outside
      has been compared or written off. */
  ghost predicate Arrived(text: seq<byte>, r: nat, whole: Tree, c: Context, t: Tree, len: nat, pos: int)
    requires Buffer(text) && r < N
  {
    && Plug(c, t) == whole && Insert(text, whole, r) == Plug(c, Insert(text, t, r))
    && Best(text, r, Around(c), len, pos)
  }

  class Dictionary {
    const text: array<byte>
    const lson: array<int>
    const rson: array<int>
    const dad: array<int>
    var matchPosition: int
    var matchLength: nat
    ghost var forest: seq<Tree>

    ghost function Snapshot(): Links
      reads lson, rson, dad
    {
      Links(lson[..], rson[..], dad[..])
    }

    ghost predicate Separate()
    {
      lson != rson && lson != dad && rson != dad
    }

    ghost predicate Valid()
      reads this, text, lson, rson, dad
    {
      Separate() && Grown(Snapshot(), text[..], forest)
    }

    /** InitTree, over a buffer with any contents. */
    constructor ()
      ensures Valid() && forest == NoTrees() && text.Length == N + F - 1
      ensures fresh(text) && fresh(lson) && fresh(rson) && fresh(dad)
    {
      var lson', rson', dad' := new int[N + 1], new int[N + 257], new int[N + 1];
      for i := N + 1 to N + 257
        invariant forall j :: N + 1 <= j < i ==> rson'[j] == NIL
      {
        rson'[i] := NIL;
      }
      for i := 0 to N
        invariant forall j :: 0 <= j < i ==> dad'[j] == NIL
        invariant forall j :: N + 1 <= j < N + 257 ==> rson'[j] == NIL
      {
        dad'[i] := NIL;
      }
      text := new byte[N + F - 1];
      lson, rson, dad, forest := lson', rson', dad', NoTrees();
      matchPosition, matchLength := 0, 0;
      new;
      EmptyGrown(Snapshot(), text[..]);
    }

    /** Compares the strings at r and p from the second byte on. */
    method Compare(r: nat, p: nat) returns (i: nat, cmp: int)
      requires text.Length == N + F - 1 && r < N && p < N && text[r] == text[p]
      ensures 1 <= i <= F && i == Common(Key(text[..], r), Key(text[..], p))
      ensures cmp == 0 <==> Key(text[..], r) == Key(text[..], p)
      ensures cmp > 0 <==> Less(Key(text[..], p), Key(text[..], r))
      ensures cmp < 0 <==> Less(Key(text[..], r), Key(text[..], p))
      ensures cmp == 0 <==> i == F
    {
      hide Common;
      ghost var a, b := Key(text[..], r), Key(text[..], p);
      i, cmp := 1, 0;
      while i < F
        invariant 1 <= i <= F && cmp == 0
        invariant forall j :: 0 <= j < i ==> a[j] == b[j]
      {
        var x: int, y: int := text[r + i], text[p + i];
        cmp := x - y;
        if cmp != 0 {
          break;
        }
        i := i + 1;
      }
      CommonUnique(a, b, i);
      CommonSwap(a, b);
      Trichotomy(a, b);
    }

    /** Hangs r, whose own links are clear, at an empty place. */
    method PutLeaf(p: int, right: bool, r: nat)
      requires Separate() && Shaped(Snapshot()) && Sound(Anchor(p, right)) && r < N && r != p
      requires lson[r] == NIL && rson[r] == NIL
      modifies lson, rson, dad
      ensures Snapshot() == HangLeaf(old(Snapshot()), Anchor(p, right), r)
    {
      if right {
        rson[p] := r;
      } else {
        lson[p] := r;
      }
      dad[r] := p;
      assert lson[..] == HangLeaf(old(Snapshot()), Anchor(p, right), r).lson;
      assert rson[..] == HangLeaf(old(Snapshot()), Anchor(p, right), r).rson;
      assert dad[..] == HangLeaf(old(Snapshot()), Anchor(p, right), r).dad;
    }

    /** r takes the place of p, which is no longer registered. */
    method Replace(p: nat, r: nat, ghost a: Anchor)
      requires Separate() && Shaped(Snapshot()) && Sound(a) && p < N && r < N && p != r
      requires Settled(Snapshot(), a, p) && a.node != r && lson[p] != r && rson[p] != r
      modifies lson, rson, dad
      ensures Snapshot() == TakePlace(old(Snapshot()), a, p, r)
    {
      ghost var k := Snapshot();
      dad[r] := dad[p];
      lson[r] := lson[p];
      rson[r] := rson[p];
      dad[lson[p]] := r;
      dad[rson[p]] := r;
      if rson[dad[p]] == p {
        rson[dad[p]] := r;
      } else {
        lson[dad[p]] := r;
      }
      dad[p] := NIL;
      assert lson[..] == TakePlace(k, a, p, r).lson;
      assert rson[..] == TakePlace(k, a, p, r).rson;
      assert dad[..] == TakePlace(k, a, p, r).dad;
    }

    /** Records the string at p if it is the best match so far, preferring the nearest. */
    method Record(r: nat, p: nat, i: nat)
      requires r < N && p < N
      modifies this`matchPosition, this`matchLength
      ensures matchLength == NewLength(i, old(matchLength)) && matchPosition == NewPosition(r, p, i, old(matchLength), old(matchPosition))
    {
      if i > THRESHOLD {
        if i > matchLength {
          matchPosition := (r - p) % N - 1;
          matchLength := i;
        }
        if i == matchLength {
          var c := (r - p) % N - 1;
          if c < matchPosition {
            matchPosition := c;
          }
        }
      }
    }

    /** Compares r with the root p of the subtree t, records the match, and settles where
        the search goes on. */
    method Visit(r: nat, p: nat, ghost whole: Tree, ghost c: Context, ghost t: Tree, ghost path: set<nat>)
      returns (i: nat, cmp: int)
      requires Buffer(text[..]) && r < N && t.Node? && p == t.i < N && p != r && text[r] == text[p]
      requires Plug(c, t) == whole && Ordered(text[..], whole) && matchLength < F
      requires Insert(text[..], whole, r) == Plug(c, Insert(text[..], t, r))
      requires Best(text[..], r, Around(c), matchLength, matchPosition)
      requires Nearest(text[..], r, path, matchLength, matchPosition)
      requires SearchPath(text[..], whole, r) == path + SearchPath(text[..], t, r)
      modifies this`matchPosition, this`matchLength
      ensures i <= F && (i == F <==> cmp == 0) && (i == F <==> i > THRESHOLD && matchLength >= F) && (i != F ==> matchLength < F)
      ensures Nearest(text[..], r, path + {p}, matchLength, matchPosition)
      ensures i == F ==> Best(text[..], r, Members(whole), matchLength, matchPosition)
                         && Insert(text[..], whole, r) == Plug(c, Node(t.l, r, t.r))
                         && SearchPath(text[..], whole, r) == path + {p}
      ensures i != F ==> Arrived(text[..], r, whole, Turn(c, t, cmp > 0), if cmp > 0 then t.r else t.l, matchLength, matchPosition)
                         && SearchPath(text[..], whole, r) == path + {p} + SearchPath(text[..], if cmp > 0 then t.r else t.l, r)
    {
      hide Common, Key, Less, Best, Insert, Plug, Members, Around, Ordered, Nearest, SearchPath, Distance;
      i, cmp := Compare(r, p);
      Compared(text[..], whole, r, c, t, i, cmp, matchLength, matchPosition);
      PathStep(text[..], whole, t, r, path, cmp, i, matchLength, matchPosition);
      Record(r, p, i);
    }

    /** Registers position r, and leaves in matchLength and matchPosition the longest
        match among the positions registered so far, if it exceeds the threshold. */
    method InsertNode(r: nat)
      requires Valid() && r < N && !Registered(text[..], forest, r)
      modifies this, lson, rson, dad
      ensures Valid() && forest == old(forest)[text[r] := Insert(text[..], old(forest)[text[r]], r)]
      ensures Best(text[..], r, Members(old(forest)[text[r]]), matchLength, matchPosition)
      ensures Nearest(text[..], r, SearchPath(text[..], old(forest)[text[r]], r), matchLength, matchPosition)
    {
      hide TreeAt, TakePlace, HangLeaf, Best, Nearest, SearchPath, Insert, Common, Less, Key, Plug, Members, Around, Ordered;
      var cmp, p: int := 1, N + 1 + text[r];
      ghost var k0, s := Snapshot(), text[..];
      rson[r] := NIL;
      lson[r] := NIL;
      matchLength := 0;
      ghost var k := Snapshot();
      SonsDoNotMatter(k0, k, s, forest, r);
      ghost var whole, top := forest[text[r]], Root(text[r]);
      ghost var c, t := Top, whole;
      ghost var path: set<nat> := {};
      NothingMet(s, r, matchPosition);
      PlugTop(whole);
      PlugTop(Insert(s, whole, r));
      while true
        invariant Separate() && Snapshot() == k && text[..] == s && forest == old(forest) && Grown(k, s, forest)
        invariant lson[r] == NIL && rson[r] == NIL && matchLength < F
        invariant Arrived(s, r, whole, c, t, matchLength, matchPosition) && HoleOf(c, top) == Anchor(p, cmp >= 0)
        invariant Nearest(s, r, path, matchLength, matchPosition) && SearchPath(s, whole, r) == path + SearchPath(s, t, r)
        decreases t
      {
        NextNode(k, s, forest, r, c, t);
        var child := if cmp >= 0 then rson[p] else lson[p];
        if child == NIL {
          LeafPlace(k, s, forest, r, c, t);
          PathEnds(s, t, r);
          PutLeaf(p, cmp >= 0, r);
          forest := forest[text[r] := Insert(s, whole, r)];
          return;
        }
        p := child;
        var i;
        i, cmp := Visit(r, p, whole, c, t, path);
        path := path + {p};
        if i > THRESHOLD && matchLength >= F {
          PlaceTaken(k, s, forest, c, t.l, p, t.r, r);
          Replace(p, r, HoleOf(c, top));
          forest := forest[text[r] := Insert(s, whole, r)];
          return;
        }
        c, t := Turn(c, t, cmp > 0), if cmp > 0 then t.r else t.l;
      }
    }

    /** Leads right from the left son of p, as far as it goes. */
    method Rightmost(p: nat, ghost l: Tree) returns (q: nat, ghost c2: Context, ghost ql: Tree)
      requires Separate() && Shaped(Snapshot()) && p < N && l.Node? && Spells(Snapshot(), l, Anchor(p, false)) && Proper(l) && p !in Members(l)
      requires 0 <= rson[p] < N
      ensures LargestBelow(Snapshot(), l, p, c2, ql, q) && (c2 != Top ==> dad[q] != p)
    {
      hide Plug, Largest, WithoutLargest, Spells, Proper;
      ghost var k, t := Snapshot(), l;
      c2 := Top;
      PlugTop(l);
      PlugTop(WithoutLargest(l));
      SpineStep(k, l, p, c2, t);
      q := lson[p];
      while rson[q] != NIL
        invariant t.Node? && q == t.i < N && Plug(c2, t) == l && Plug(c2, WithoutLargest(t)) == WithoutLargest(l) && Largest(t) == Largest(l)
        invariant if c2 == Top then q == lson[p] else c2.OnRight? && q != lson[p]
        decreases t
      {
        SpineStep(k, l, p, c2, t);
        c2, t := OnRight(c2, t.l, t.i), t.r;
        q := rson[q];
      }
      SpineStep(k, l, p, c2, t);
      ql := t.l;
    }

    /** The largest node below p on the left takes over the children of p. */
    method MergeChildren(p: nat, ghost l: Tree) returns (q: nat, ghost c2: Context, ghost ql: Tree)
      requires Separate() && Shaped(Snapshot()) && p < N && l.Node? && Spells(Snapshot(), l, Anchor(p, false)) && Proper(l) && p !in Members(l)
      requires 0 <= rson[p] < N
      modifies lson, rson, dad
      ensures LargestBelow(old(Snapshot()), l, p, c2, ql, q)
      ensures Snapshot() == Merged(old(Snapshot()), p, q)
    {
      hide Spells, Proper, Plug, Largest, WithoutLargest;
      ghost var k := Snapshot();
      q, c2, ql := Rightmost(p, l);
      if q != lson[p] {
        rson[dad[q]] := lson[q];
        dad[lson[q]] := dad[q];
        lson[q] := lson[p];
        dad[lson[p]] := q;
      }
      rson[q] := rson[p];
      dad[rson[p]] := q;
      assert lson[..] == Merged(k, p, q).lson;
      assert rson[..] == Merged(k, p, q).rson;
      assert dad[..] == Merged(k, p, q).dad;
    }

    /** q takes the place of p at its parent, and p is no longer registered. */
    method Relink(p: nat, q: int, ghost a: Anchor)
      requires Separate() && Shaped(Snapshot()) && Sound(a) && p < N && 0 <= q <= N && p != q
      requires a.node == dad[p] && (rson[dad[p]] == p <==> a.right)
      modifies lson, rson, dad
      ensures Snapshot() == Unhook(old(Snapshot()), a, p, q)
    {
      ghost var k := Snapshot();
      dad[q] := dad[p];
      if rson[dad[p]] == p {
        rson[dad[p]] := q;
      } else {
        lson[dad[p]] := q;
      }
      dad[p] := NIL;
      assert lson[..] == Unhook(k, a, p, q).lson;
      assert rson[..] == Unhook(k, a, p, q).rson;
      assert dad[..] == Unhook(k, a, p, q).dad;
    }

    /** Takes position p out of the dictionary, if it is there. */
    method DeleteNode(p: nat)
      requires Valid() && p < N
      modifies this`forest, lson, rson, dad
      ensures Valid()
      ensures old(Registered(text[..], forest, p)) ==> forest == old(forest)[text[p] := Remove(old(forest)[text[p]], p)]
      ensures !old(Registered(text[..], forest, p)) ==> forest == old(forest)
    {
      hide TreeAt, Unhook, Merged, Plug, Remove, Largest, WithoutLargest, WithoutRoot, Members;
      if dad[p] == NIL {
        return;
      }
      ghost var k, s, ch := Snapshot(), text[..], text[p];
      ghost var c, l, rt := Located(k, s, forest, p);
      var q: int;
      if rson[p] == NIL {
        q := lson[p];
        Unhooked(k, s, forest, c, l, p, rt);
      } else if lson[p] == NIL {
        q := rson[p];
        Unhooked(k, s, forest, c, l, p, rt);
      } else {
        ghost var c2, ql;
        q, c2, ql := MergeChildren(p, l);
        Deleted(k, s, forest, c, l, p, rt, c2, ql, q);
        MergeKeeps(k, c, l, p, rt, Root(ch), c2, ql, q);
      }
      Relink(p, q, HoleOf(c, Root(ch)));
      forest := forest[ch := Remove(forest[ch], p)];
    }
  }

  /** One step down the right side of l. */
  lemma {:induction false} SpineStep(k: Links, l: Tree, p: nat, c2: Context, t: Tree)
    requires Shaped(k) && p < N && Spells(k, l, Anchor(p, false)) && Proper(l) && t.Node? && l == Plug(c2, t)
    ensures t.i < N && 0 <= k.lson[t.i] <= N && 0 <= k.lson[p] < N && Sound(HoleOf(c2, Anchor(p, false)))
    ensures k.rson[t.i] == (if t.r.Empty? then NIL else t.r.i) && (t.r.Node? ==> t.r.i < N)
    ensures k.dad[t.i] == HoleOf(c2, Anchor(p, false)).node && (c2 == Top ==> k.lson[p] == t.i)
    ensures c2 != Top ==> HoleOf(c2, Anchor(p, false)).node in Members(l) && HoleOf(c2, Anchor(p, false)).node < N
    ensures t.r.Node? ==> k.lson[p] != t.r.i && Largest(t) == Largest(t.r)
    ensures t.r.Node? ==> Plug(OnRight(c2, t.l, t.i), t.r) == l && Plug(OnRight(c2, t.l, t.i), WithoutLargest(t.r)) == Plug(c2, WithoutLargest(t))
    ensures t.r.Empty? ==> Largest(t) == t.i && WithoutLargest(t) == t.l && t == Node(t.l, t.i, Empty)
  {
    PlugSpells(k, c2, t, Anchor(p, false));
    HoleIsSound(k, c2, Anchor(p, false));
    RootLink(k, l, Anchor(p, false));
    RootLink(k, t.l, Anchor(t.i, false));
    RootLink(k, t.r, Anchor(t.i, true));
    PlugProper(c2, t);
    PlugMembers(c2, t);
    HoleInside(c2, Anchor(p, false));
    PlugRoot(c2, t);
  }

  /** The root of a tree with a hole is outside the hole, unless the hole is at the top. */
  lemma {:induction false} PlugRoot(c: Context, t: Tree)
    ensures c != Top ==> Plug(c, t).Node? && Plug(c, t).i in Around(c)
    decreases c
  {
    match c
    case Top =>
    case OnRight(up, l, i) => PlugRoot(up, Node(l, i, t));
    case OnLeft(up, i, r) => PlugRoot(up, Node(t, i, r));
  }

  /** Where a registered position is. */
  lemma {:induction false} Located(k: Links, text: seq<byte>, forest: seq<Tree>, p: nat) returns (c: Context, l: Tree,
                                   rt: Tree)
    requires Grown(k, text, forest) && p < N && k.dad[p] != NIL
    ensures Registered(text, forest, p)
    ensures Plug(c, Node(l, p, rt)) == forest[text[p]] && Plug(c, WithoutRoot(l, rt)) == Remove(forest[text[p]], p)
    ensures Spells(k, l, Anchor(p, false)) && Proper(l) && p !in Members(l)
    ensures Sound(HoleOf(c, Root(text[p]))) && Settled(k, HoleOf(c, Root(text[p])), p)
    ensures k.lson[p] == (if l.Empty? then NIL else l.i) && k.rson[p] == (if rt.Empty? then NIL else rt.i)
    ensures (l.Node? ==> l.i < N) && (rt.Node? ==> rt.i < N)
    ensures Spells(k, forest[text[p]], Root(text[p])) && Proper(forest[text[p]])
  {
    hide Ordered, Plug, Remove, WithoutRoot, SpellsAround, ProperAround;
    var t := forest[text[p]];
    assert TreeAt(k, text, t, text[p]);
    c, l, rt := FindContext(Top, t, p);
    PlugTop(t);
    PlugTop(Remove(t, p));
    NodeLinks(k, text, t, text[p], c, l, p, rt);
    PlugSpells(k, c, Node(l, p, rt), Root(text[p]));
    PlugProper(c, Node(l, p, rt));
    RootLink(k, l, Anchor(p, false));
    RootLink(k, rt, Anchor(p, true));
  }

  /** Merging the children of p leaves the links between p and its parent. */
  lemma {:induction false} MergeKeeps(k: Links, c: Context, l: Tree, p: nat, rt: Tree, top: Anchor, c2: Context,
                                      ql: Tree, q: nat)
    requires Shaped(k) && Sound(top) && top.node >= N && p < N && Sound(HoleOf(c, top)) && Settled(k, HoleOf(c, top), p)
    requires Spells(k, Plug(c, Node(l, p, rt)), top) && Proper(Plug(c, Node(l, p, rt)))
    requires l.Node? && rt.Node? && LargestBelow(k, l, p, c2, ql, q)
    ensures p != q && Merged(k, p, q).dad[p] == HoleOf(c, top).node
    ensures Merged(k, p, q).rson[HoleOf(c, top).node] == p <==> HoleOf(c, top).right
  {
    hide Spells, Proper, Plug, Largest, WithoutLargest;
    MoveLinks(k, c, l, p, rt, top, c2, ql, q);
    MoveInside(c, l, p, rt, top);
  }

  lemma PlugTop(t: Tree)
    ensures Plug(Top, t) == t
  {
  }

  lemma PathEnds(text: seq<byte>, t: Tree, r: nat)
    requires Buffer(text) && r < N && t == Empty
    ensures SearchPath(text, t, r) == {}
  {
  }

  lemma NothingMet(text: seq<byte>, r: nat, pos: int)
    requires Buffer(text) && r < N
    ensures Best(text, r, Around(Top), 0, pos) && Nearest(text, r, {}, 0, pos)
  {
  }

  /** The context after turning right or left at the root of t. */
  function Turn(c: Context, t: Tree, right: bool): (c': Context)
    requires t.Node?
  {
    if right then OnRight(c, t.l, t.i) else OnLeft(c, t.i, t.r)
  }

  /** What the link at the hole leads to. */
  lemma NextNode(k: Links, text: seq<byte>, forest: seq<Tree>, r: nat, c: Context, t: Tree)
    requires Grown(k, text, forest) && r < N && !Registered(text, forest, r) && Plug(c, t) == forest[text[r]]
    ensures Sound(HoleOf(c, Root(text[r])))
    ensures LinkAt(k, HoleOf(c, Root(text[r]))) == (if t.Empty? then NIL else t.i)
    ensures Ordered(text, forest[text[r]])
    ensures t.Node? ==> && t.i < N && t.i != r && text[t.i] == text[r]
                        && 0 <= k.lson[t.i] <= N && 0 <= k.rson[t.i] <= N
  {
    hide Ordered, SpellsAround, Plug;
    var ch := text[r];
    assert TreeAt(k, text, forest[ch], ch);
    PlugSpells(k, c, t, Root(ch));
    PlugMembers(c, t);
    HoleIsSound(k, c, Root(ch));
    RootLink(k, t, HoleOf(c, Root(ch)));
    if t.Node? {
      RootLink(k, t.l, Anchor(t.i, false));
      RootLink(k, t.r, Anchor(t.i, true));
    }
  }

  lemma LeafPlace(k: Links, text: seq<byte>, forest: seq<Tree>, r: nat, c: Context, t: Tree)
    requires Grown(k, text, forest) && r < N && !Registered(text, forest, r) && Plug(c, t) == forest[text[r]] && t == Empty
    requires Insert(text, forest[text[r]], r) == Plug(c, Insert(text, t, r))
    ensures Sound(HoleOf(c, Root(text[r]))) && HoleOf(c, Root(text[r])).node != r
    ensures Grown(HangLeaf(k, HoleOf(c, Root(text[r])), r), text, forest[text[r] := Insert(text, forest[text[r]], r)])
    ensures Members(forest[text[r]]) == Around(c)
  {
    LeafInserted(k, text, forest, c, r);
    PlugMembers(c, Empty);
  }

  /** Comparing with the root of t settles which way to go, and that side is all that is left. */
  lemma Compared(text: seq<byte>, whole: Tree, r: nat, c: Context, t: Tree, i: nat, cmp: int, len: nat, pos: int)
    requires Buffer(text) && r < N && t.Node? && t.i < N && t.i != r
    requires Plug(c, t) == whole && Ordered(text, whole)
    requires i == Common(Key(text, r), Key(text, t.i)) && (cmp == 0 <==> i == F)
    requires cmp == 0 <==> Key(text, r) == Key(text, t.i)
    requires cmp > 0 <==> Less(Key(text, t.i), Key(text, r))
    requires cmp < 0 <==> Less(Key(text, r), Key(text, t.i))
    requires Best(text, r, Around(c), len, pos) && len < F
    requires Insert(text, whole, r) == Plug(c, Insert(text, t, r))
    ensures i == F ==> Best(text, r, Members(whole), NewLength(i, len), NewPosition(r, t.i, i, len, pos))
    ensures i == F ==> Insert(text, whole, r) == Plug(c, Node(t.l, r, t.r))
    ensures i != F ==> Arrived(text, r, whole, Turn(c, t, cmp > 0), if cmp > 0 then t.r else t.l,
                               NewLength(i, len), NewPosition(r, t.i, i, len, pos))
  {
    hide Common, Key, Less, Best, Distance;
    OrderedPlug(text, c, t, t);
    SideNotTaken(text, t.l, t.i, t.r, r);
    var side := if cmp > 0 then Members(t.l) else if cmp < 0 then Members(t.r) else Members(t.l) + Members(t.r);
    OrderedInRange(text, t);
    BestGrows(text, r, Around(c), t.i, side, i, len, pos);
    if i == F {
      PlugMembers(c, t);
      assert Around(c) + {t.i} + side == Members(whole);
    }
  }

  lemma {:induction false} OrderedInRange(text: seq<byte>, t: Tree)
    requires Buffer(text) && Ordered(text, t)
    ensures forall x :: x in Members(t) ==> x < N
  {
  }
}
