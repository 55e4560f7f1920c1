/** The ghost picture of a splay in progress: a middle tree and two spines that
    hang off the stack structure __node of include/tree.h. */
module SplayShape {
  import opened Arena
  import opened Ordered

  /** One SPLAY_ENTRY. */
  datatype Cell = Cell(left: int, right: int)

  datatype Tree = Nil | Bin(left: Tree, node: nat, right: Tree)
  {
    ghost function Ptr(): int { if Nil? then NULL else node }

    ghost function Nodes(): (s: set<nat>)
      ensures Bin? ==> node in s
    {
      if Nil? then {} else left.Nodes() + {node} + right.Nodes()
    }

    ghost function InOrder(): seq<nat> {
      if Nil? then [] else left.InOrder() + [node] + right.InOrder()
    }

    ghost predicate Distinct() {
      Bin? ==>
        && node !in left.Nodes() && node !in right.Nodes()
        && left.Nodes() !! right.Nodes()
        && left.Distinct() && right.Distinct()
    }

    ghost predicate In(m: seq<Cell>) {
      Bin? ==>
        && node < |m| && m[node] == Cell(left.Ptr(), right.Ptr())
        && left.In(m) && right.In(m)
    }
  }

  /** The tree of nodes already known to lie on one side of the key, from its
      innermost node outwards: each node has an outer subtree, and an inner link
      to the node attached after it. */
  datatype Spine = Empty | Link(up: Spine, node: nat, outer: Tree)
  {
    /** The node whose inner link is attached next; the stack node at first. */
    ghost function Last(dummy: nat): nat { if Empty? then dummy else node }

    ghost function Nodes(): (s: set<nat>)
      ensures Link? ==> node in s
    {
      if Empty? then {} else up.Nodes() + {node} + outer.Nodes()
    }

    ghost predicate Distinct() {
      Link? ==>
        && node !in outer.Nodes() && node !in up.Nodes()
        && outer.Nodes() !! up.Nodes()
        && outer.Distinct() && up.Distinct()
    }

    /** The arena holds the spine of the smaller nodes (side OnLeft: inner links
        are right links) or of the larger ones. */
    ghost predicate In(m: seq<Cell>, side: Side, dummy: nat) {
      Link? ==>
        && node < |m| && up.Last(dummy) < |m|
        && (if side == OnLeft then m[node].left == outer.Ptr() && m[up.Last(dummy)].right == node
            else m[node].right == outer.Ptr() && m[up.Last(dummy)].left == node)
        && outer.In(m) && up.In(m, side, dummy)
    }

    ghost function InOrder(side: Side): seq<nat> {
      if Empty? then []
      else if side == OnLeft then up.InOrder(side) + (outer.InOrder() + [node])
      else [node] + outer.InOrder() + up.InOrder(side)
    }

    /** The spine as a tree, with t at its inner end. */
    ghost function Close(side: Side, t: Tree): Tree {
      if Empty? then t
      else up.Close(side, if side == OnLeft then Bin(outer, node, t) else Bin(t, node, outer))
    }
  }

  /** The three parts of the tree during a splay. */
  ghost predicate Split(m: seq<Cell>, dummy: nat, l: Spine, t: Tree, r: Spine) {
    && dummy < |m|
    && l.Distinct() && t.Distinct() && r.Distinct()
    && l.Nodes() !! t.Nodes() && l.Nodes() !! r.Nodes() && t.Nodes() !! r.Nodes()
    && dummy !in l.Nodes() && dummy !in t.Nodes() && dummy !in r.Nodes()
    && l.In(m, OnLeft, dummy) && t.In(m) && r.In(m, OnRight, dummy)
  }

  ghost function Order(l: Spine, t: Tree, r: Spine): seq<nat> {
    l.InOrder(OnLeft) + t.InOrder() + r.InOrder(OnRight)
  }

  ghost function PartNodes(l: Spine, t: Tree, r: Spine): set<nat> {
    l.Nodes() + t.Nodes() + r.Nodes()
  }

  lemma {:induction false} TreeFrame(m: seq<Cell>, m': seq<Cell>, t: Tree)
    requires t.In(m) && SameOn(m, m', t.Nodes())
    ensures t.In(m')
  {
    if t.Bin? {
      TreeFrame(m, m', t.left);
      TreeFrame(m, m', t.right);
    }
  }

  /** A spine does not depend on the inner link of its last node, nor on the
      other link of the stack node. */
  lemma {:induction false} SpineFrame(m: seq<Cell>, m': seq<Cell>, s: Spine, side: Side, dummy: nat)
    requires s.In(m, side, dummy) && s.Distinct() && |m| == |m'| && dummy < |m| && dummy !in s.Nodes()
    requires forall n <- s.Nodes() :: n < |m| && n != s.Last(dummy) ==> m'[n] == m[n]
    requires s.Link? ==>
               if side == OnLeft then m'[s.node].left == m[s.node].left else m'[s.node].right == m[s.node].right
    requires s.Link? ==> if side == OnLeft then m'[dummy].right == m[dummy].right else m'[dummy].left == m[dummy].left
    ensures s.In(m', side, dummy)
  {
    if s.Link? {
      TreeFrame(m, m', s.outer);
      SpineFrame(m, m', s.up, side, dummy);
    }
  }

  // ---- SPLAY_ROTATE_RIGHT and SPLAY_ROTATE_LEFT at the root ----

  ghost function RotR(t: Tree): Tree
    requires t.Bin? && t.left.Bin?
  {
    Bin(t.left.left, t.left.node, Bin(t.left.right, t.node, t.right))
  }

  ghost function RotL(t: Tree): Tree
    requires t.Bin? && t.right.Bin?
  {
    Bin(Bin(t.left, t.node, t.right.left), t.right.node, t.right.right)
  }

  lemma RotRFacts(t: Tree)
    requires t.Bin? && t.left.Bin? && t.Distinct()
    ensures RotR(t).Distinct() && RotR(t).Nodes() == t.Nodes()
    ensures RotL(RotR(t)) == t
  {}

  lemma RotLFacts(t: Tree)
    requires t.Bin? && t.right.Bin? && t.Distinct()
    ensures RotL(t).Distinct() && RotL(t).Nodes() == t.Nodes()
    ensures RotR(RotL(t)) == t
  {}

  lemma RotROrder(t: Tree)
    requires t.Bin? && t.left.Bin?
    ensures RotR(t).InOrder() == t.InOrder()
  {}

  lemma RotLOrder(t: Tree)
    requires t.Bin? && t.right.Bin?
    ensures RotL(t).InOrder() == t.InOrder()
  {}

  ghost function RotatedRight(m: seq<Cell>, n: nat, c: nat): seq<Cell>
    requires n < |m| && c < |m|
  {
    var m1 := m[n := m[n].(left := m[c].right)];
    m1[c := m1[c].(right := n)]
  }

  ghost function RotatedLeft(m: seq<Cell>, n: nat, c: nat): seq<Cell>
    requires n < |m| && c < |m|
  {
    var m1 := m[n := m[n].(right := m[c].left)];
    m1[c := m1[c].(left := n)]
  }

  lemma RotRTree(m: seq<Cell>, t: Tree)
    requires t.Bin? && t.left.Bin? && t.Distinct() && t.In(m)
    ensures t.node < |m| && t.left.node < |m| && m[t.node].left == t.left.node
    ensures RotR(t).In(RotatedRight(m, t.node, t.left.node))
  {
    var l := t.left;
    assert l.In(m) && l.Distinct() && l.Nodes() == l.left.Nodes() + {l.node} + l.right.Nodes();
    var m' := RotatedRight(m, t.node, l.node);
    TreeFrame(m, m', l.left);
    TreeFrame(m, m', l.right);
    TreeFrame(m, m', t.right);
  }

  lemma RotLTree(m: seq<Cell>, t: Tree)
    requires t.Bin? && t.right.Bin? && t.Distinct() && t.In(m)
    ensures t.node < |m| && t.right.node < |m| && m[t.node].right == t.right.node
    ensures RotL(t).In(RotatedLeft(m, t.node, t.right.node))
  {
    var r := t.right;
    assert r.In(m) && r.Distinct() && r.Nodes() == r.left.Nodes() + {r.node} + r.right.Nodes();
    var m' := RotatedLeft(m, t.node, r.node);
    TreeFrame(m, m', r.left);
    TreeFrame(m, m', r.right);
    TreeFrame(m, m', t.left);
  }

  lemma RotRSplit(m: seq<Cell>, dummy: nat, l: Spine, t: Tree, r: Spine)
    requires Split(m, dummy, l, t, r) && t.Bin? && t.left.Bin?
    ensures t.node < |m| && t.left.node < |m| && m[t.node].left == t.left.node
    ensures Split(RotatedRight(m, t.node, t.left.node), dummy, l, RotR(t), r)
  {
    RotRTree(m, t);
    RotRFacts(t);
    assert t.left.Nodes() <= t.Nodes();
    var m' := RotatedRight(m, t.node, t.left.node);
    SpineFrame(m, m', l, OnLeft, dummy);
    SpineFrame(m, m', r, OnRight, dummy);
  }

  lemma RotLSplit(m: seq<Cell>, dummy: nat, l: Spine, t: Tree, r: Spine)
    requires Split(m, dummy, l, t, r) && t.Bin? && t.right.Bin?
    ensures t.node < |m| && t.right.node < |m| && m[t.node].right == t.right.node
    ensures Split(RotatedLeft(m, t.node, t.right.node), dummy, l, RotL(t), r)
  {
    RotLTree(m, t);
    RotLFacts(t);
    assert t.right.Nodes() <= t.Nodes();
    var m' := RotatedLeft(m, t.node, t.right.node);
    SpineFrame(m, m', l, OnLeft, dummy);
    SpineFrame(m, m', r, OnRight, dummy);
  }

  // ---- SPLAY_LINKLEFT and SPLAY_LINKRIGHT ----

  /** The root and its right subtree join the spine of the larger nodes. */
  lemma LinkLeftSplit(m: seq<Cell>, dummy: nat, l: Spine, t: Tree, r: Spine)
    requires Split(m, dummy, l, t, r) && t.Bin?
    ensures r.Last(dummy) < |m| && t.node < |m| && r.Last(dummy) != t.node && m[t.node].left == t.left.Ptr()
    ensures Split(m[r.Last(dummy) := m[r.Last(dummy)].(left := t.node)], dummy, l, t.left, Link(r, t.node, t.right))
  {
    var n := r.Last(dummy);
    assert n !in t.Nodes() && n !in t.left.Nodes() && n !in t.right.Nodes();
    var m' := m[n := m[n].(left := t.node)];
    TreeFrame(m, m', t.left);
    TreeFrame(m, m', t.right);
    SpineFrame(m, m', l, OnLeft, dummy);
    SpineFrame(m, m', r, OnRight, dummy);
  }

  lemma LinkLeftOrder(l: Spine, t: Tree, r: Spine)
    requires t.Bin?
    ensures Order(l, t.left, Link(r, t.node, t.right)) == Order(l, t, r)
    ensures PartNodes(l, t.left, Link(r, t.node, t.right)) == PartNodes(l, t, r)
  {}

  /** The root and its left subtree join the spine of the smaller nodes. */
  lemma LinkRightSplit(m: seq<Cell>, dummy: nat, l: Spine, t: Tree, r: Spine)
    requires Split(m, dummy, l, t, r) && t.Bin?
    ensures l.Last(dummy) < |m| && t.node < |m| && l.Last(dummy) != t.node && m[t.node].right == t.right.Ptr()
    ensures Split(m[l.Last(dummy) := m[l.Last(dummy)].(right := t.node)], dummy, Link(l, t.node, t.left), t.right, r)
  {
    var n := l.Last(dummy);
    assert n !in t.Nodes() && n !in t.left.Nodes() && n !in t.right.Nodes();
    var m' := m[n := m[n].(right := t.node)];
    TreeFrame(m, m', t.left);
    TreeFrame(m, m', t.right);
    SpineFrame(m, m', l, OnLeft, dummy);
    SpineFrame(m, m', r, OnRight, dummy);
  }

  lemma LinkRightOrder(l: Spine, t: Tree, r: Spine)
    requires t.Bin?
    ensures Order(Link(l, t.node, t.left), t.right, r) == Order(l, t, r)
    ensures PartNodes(Link(l, t.node, t.left), t.right, r) == PartNodes(l, t, r)
  {}

  // ---- SPLAY_ASSEMBLE ----

  ghost function Assembled(l: Spine, t: Tree, r: Spine): Tree
    requires t.Bin?
  {
    Bin(l.Close(OnLeft, t.left), t.node, r.Close(OnRight, t.right))
  }

  lemma {:induction false} CloseNodes(s: Spine, side: Side, t: Tree)
    ensures s.Close(side, t).Nodes() == s.Nodes() + t.Nodes()
    ensures s.Distinct() && t.Distinct() && s.Nodes() !! t.Nodes() ==> s.Close(side, t).Distinct()
  {
    if s.Link? {
      var t' := if side == OnLeft then Bin(s.outer, s.node, t) else Bin(t, s.node, s.outer);
      CloseNodes(s.up, side, t');
    }
  }

  lemma {:induction false} CloseOrder(s: Spine, side: Side, t: Tree)
    ensures s.Close(side, t).InOrder() ==
            if side == OnLeft then s.InOrder(side) + t.InOrder() else t.InOrder() + s.InOrder(side)
  {
    if s.Link? {
      var t' := if side == OnLeft then Bin(s.outer, s.node, t) else Bin(t, s.node, s.outer);
      CloseOrder(s.up, side, t');
      var u, o, x := s.up.InOrder(side), s.outer.InOrder(), t.InOrder();
      CloseSeq(u, o, s.node, x);
    }
  }

  lemma CloseSeq(u: seq<nat>, o: seq<nat>, n: nat, x: seq<nat>)
    ensures u + (o + [n] + x) == (u + (o + [n])) + x
    ensures (x + [n] + o) + u == x + ([n] + o + u)
  {}

  /** Once the last node's inner link leads to t, the stack node's link leads to
      the closed spine. */
  lemma {:induction false} CloseIn(m: seq<Cell>, s: Spine, side: Side, t: Tree, dummy: nat)
    requires s.In(m, side, dummy) && t.In(m) && s.Last(dummy) < |m| && dummy < |m|
    requires if side == OnLeft then m[s.Last(dummy)].right == t.Ptr() else m[s.Last(dummy)].left == t.Ptr()
    ensures s.Close(side, t).In(m)
    ensures if side == OnLeft then m[dummy].right == s.Close(side, t).Ptr() else m[dummy].left == s.Close(side, t).Ptr()
  {
    if s.Link? {
      var t' := if side == OnLeft then Bin(s.outer, s.node, t) else Bin(t, s.node, s.outer);
      CloseIn(m, s.up, side, t', dummy);
    }
  }

  ghost function AssembledMem(m: seq<Cell>, n: nat, left: nat, right: nat, dummy: nat): seq<Cell>
    requires n < |m| && left < |m| && right < |m| && dummy < |m|
  {
    var m1 := m[left := m[left].(right := m[n].left)];
    var m2 := m1[right := m1[right].(left := m1[n].right)];
    var m3 := m2[n := m2[n].(left := m2[dummy].right)];
    m3[n := m3[n].(right := m3[dummy].left)]
  }

  lemma SpinesAttached(m: seq<Cell>, dummy: nat, l: Spine, t: Tree, r: Spine)
    requires Split(m, dummy, l, t, r) && t.Bin?
    ensures l.Last(dummy) < |m| && r.Last(dummy) < |m| && t.node < |m|
    ensures
      var m1 := m[l.Last(dummy) := m[l.Last(dummy)].(right := m[t.node].left)];
      var m2 := m1[r.Last(dummy) := m1[r.Last(dummy)].(left := m1[t.node].right)];
      && l.Close(OnLeft, t.left).In(m2) && m2[dummy].right == l.Close(OnLeft, t.left).Ptr()
      && r.Close(OnRight, t.right).In(m2) && m2[dummy].left == r.Close(OnRight, t.right).Ptr()
  {
    var a, b := l.Last(dummy), r.Last(dummy);
    assert a !in t.Nodes() && b !in t.Nodes() && a !in r.Nodes() && b !in l.Nodes();
    assert a != dummy && b != dummy ==> a != b;
    var m1 := m[a := m[a].(right := m[t.node].left)];
    var m2 := m1[b := m1[b].(left := m1[t.node].right)];
    SpineFrame(m, m2, l, OnLeft, dummy);
    SpineFrame(m, m2, r, OnRight, dummy);
    TreeFrame(m, m2, t.left);
    TreeFrame(m, m2, t.right);
    CloseIn(m2, l, OnLeft, t.left, dummy);
    CloseIn(m2, r, OnRight, t.right, dummy);
  }

  lemma AssembledDistinct(l: Spine, t: Tree, r: Spine)
    requires t.Bin? && l.Distinct() && t.Distinct() && r.Distinct()
    requires l.Nodes() !! t.Nodes() && l.Nodes() !! r.Nodes() && t.Nodes() !! r.Nodes()
    ensures Assembled(l, t, r).Distinct()
    ensures Assembled(l, t, r).Nodes() == PartNodes(l, t, r)
    ensures t.node !in l.Close(OnLeft, t.left).Nodes() && t.node !in r.Close(OnRight, t.right).Nodes()
  {
    CloseNodes(l, OnLeft, t.left);
    CloseNodes(r, OnRight, t.right);
  }

  lemma AssembledIn(m: seq<Cell>, dummy: nat, l: Spine, t: Tree, r: Spine)
    requires Split(m, dummy, l, t, r) && t.Bin?
    ensures l.Last(dummy) < |m| && r.Last(dummy) < |m| && t.node < |m|
    ensures Assembled(l, t, r).In(AssembledMem(m, t.node, l.Last(dummy), r.Last(dummy), dummy))
    ensures Assembled(l, t, r).Distinct()
    ensures Assembled(l, t, r).Nodes() == PartNodes(l, t, r)
  {
    SpinesAttached(m, dummy, l, t, r);
    AssembledDistinct(l, t, r);
    var m1 := m[l.Last(dummy) := m[l.Last(dummy)].(right := m[t.node].left)];
    var m2 := m1[r.Last(dummy) := m1[r.Last(dummy)].(left := m1[t.node].right)];
    RootSet(m2, AssembledMem(m, t.node, l.Last(dummy), r.Last(dummy), dummy), l.Close(OnLeft, t.left), t.node,
            r.Close(OnRight, t.right));
  }

  /** The last two assignments set the links of the root alone. */
  lemma RootSet(m: seq<Cell>, m': seq<Cell>, a: Tree, n: nat, b: Tree)
    requires a.In(m) && b.In(m) && n !in a.Nodes() && n !in b.Nodes() && n < |m| == |m'|
    requires m' == m[n := Cell(a.Ptr(), b.Ptr())]
    ensures Bin(a, n, b).In(m')
  {
    TreeFrame(m, m', a);
    TreeFrame(m, m', b);
  }

  lemma AssembledOrder(l: Spine, t: Tree, r: Spine)
    requires t.Bin?
    ensures Assembled(l, t, r).InOrder() == Order(l, t, r)
    ensures Assembled(l, t, r).left.InOrder() == l.InOrder(OnLeft) + t.left.InOrder()
    ensures Assembled(l, t, r).right.InOrder() == t.right.InOrder() + r.InOrder(OnRight)
  {
    CloseOrder(l, OnLeft, t.left);
    CloseOrder(r, OnRight, t.right);
    AssembledSeq(l.InOrder(OnLeft), t.left.InOrder(), t.node, t.right.InOrder(), r.InOrder(OnRight));
  }

  lemma AssembledSeq(a: seq<nat>, b: seq<nat>, x: nat, d: seq<nat>, e: seq<nat>)
    ensures (a + b) + [x] + (d + e) == a + (b + [x] + d) + e
  {}

  // ---- keys ----

  /** The state of a splay for key k over a tree with sequence s. */
  ghost predicate Splaying(m: seq<Cell>, dummy: nat, l: Spine, t: Tree, r: Spine, s: seq<nat>, key: nat -> int,
                           k: int) {
    && Split(m, dummy, l, t, r) && t.Bin?
    && Order(l, t, r) == s && Sorted(s, key)
    && AllBelow(l.InOrder(OnLeft), key, k) && AllAbove(r.InOrder(OnRight), key, k)
  }

  lemma AroundRoot(l: Spine, t: Tree, r: Spine, key: nat -> int)
    requires t.Bin? && Sorted(Order(l, t, r), key)
    ensures AllBelow(l.InOrder(OnLeft) + t.left.InOrder(), key, key(t.node))
    ensures AllAbove(t.right.InOrder() + r.InOrder(OnRight), key, key(t.node))
  {
    var b, a := l.InOrder(OnLeft) + t.left.InOrder(), t.right.InOrder() + r.InOrder(OnRight);
    AssembledSeq(l.InOrder(OnLeft), t.left.InOrder(), t.node, t.right.InOrder(), r.InOrder(OnRight));
    SortedAround(b, t.node, a, key);
  }

  /** The middle tree gets smaller with every link. */
  lemma LinkLeftSplaying(m: seq<Cell>, dummy: nat, l: Spine, t: Tree, r: Spine, s: seq<nat>, key: nat -> int, k: int)
    requires Splaying(m, dummy, l, t, r, s, key, k) && k < key(t.node) && t.left.Bin?
    ensures r.Last(dummy) < |m| && t.node < |m| && r.Last(dummy) != t.node && m[t.node].left == t.left.node
    ensures Splaying(m[r.Last(dummy) := m[r.Last(dummy)].(left := t.node)], dummy, l, t.left,
                     Link(r, t.node, t.right), s, key, k)
  {
    LinkLeftSplit(m, dummy, l, t, r);
    LinkLeftOrder(l, t, r);
    AroundRoot(l, t, r, key);
    assert Link(r, t.node, t.right).InOrder(OnRight) == [t.node] + t.right.InOrder() + r.InOrder(OnRight);
  }

  lemma LinkRightSplaying(m: seq<Cell>, dummy: nat, l: Spine, t: Tree, r: Spine, s: seq<nat>, key: nat -> int, k: int)
    requires Splaying(m, dummy, l, t, r, s, key, k) && key(t.node) < k && t.right.Bin?
    ensures l.Last(dummy) < |m| && t.node < |m| && l.Last(dummy) != t.node && m[t.node].right == t.right.node
    ensures Splaying(m[l.Last(dummy) := m[l.Last(dummy)].(right := t.node)], dummy, Link(l, t.node, t.left),
                     t.right, r, s, key, k)
  {
    LinkRightSplit(m, dummy, l, t, r);
    LinkRightOrder(l, t, r);
    AroundRoot(l, t, r, key);
    assert Link(l, t.node, t.left).InOrder(OnLeft) == l.InOrder(OnLeft) + (t.left.InOrder() + [t.node]);
  }

  lemma RotRSplaying(m: seq<Cell>, dummy: nat, l: Spine, t: Tree, r: Spine, s: seq<nat>, key: nat -> int, k: int)
    requires Splaying(m, dummy, l, t, r, s, key, k) && t.left.Bin?
    ensures t.node < |m| && t.left.node < |m| && m[t.node].left == t.left.node
    ensures Splaying(RotatedRight(m, t.node, t.left.node), dummy, l, RotR(t), r, s, key, k)
    ensures PartNodes(l, RotR(t), r) == PartNodes(l, t, r)
  {
    RotRSplit(m, dummy, l, t, r);
    RotROrder(t);
    RotRFacts(t);
  }

  lemma RotLSplaying(m: seq<Cell>, dummy: nat, l: Spine, t: Tree, r: Spine, s: seq<nat>, key: nat -> int, k: int)
    requires Splaying(m, dummy, l, t, r, s, key, k) && t.right.Bin?
    ensures t.node < |m| && t.right.node < |m| && m[t.node].right == t.right.node
    ensures Splaying(RotatedLeft(m, t.node, t.right.node), dummy, l, RotL(t), r, s, key, k)
    ensures PartNodes(l, RotL(t), r) == PartNodes(l, t, r)
  {
    RotLSplit(m, dummy, l, t, r);
    RotLOrder(t);
    RotLFacts(t);
  }

  ghost function Size(t: Tree): nat {
    if t.Nil? then 0 else Size(t.left) + 1 + Size(t.right)
  }

  /** What the loop reads at the root, and which cells it may write. */
  lemma RootCells(m: seq<Cell>, dummy: nat, l: Spine, t: Tree, r: Spine, s: seq<nat>, key: nat -> int, k: int)
    requires Splaying(m, dummy, l, t, r, s, key, k)
    ensures t.Bin? && t.node < |m| && m[t.node] == Cell(t.left.Ptr(), t.right.Ptr())
    ensures NULL <= t.left.Ptr() < |m| && NULL <= t.right.Ptr() < |m|
    ensures {t.node} <= PartNodes(l, t, r)
    ensures t.left.Bin? ==> t.left.node in PartNodes(l, t, r)
    ensures t.right.Bin? ==> t.right.node in PartNodes(l, t, r)
    ensures l.Last(dummy) in PartNodes(l, t, r) + {dummy} && r.Last(dummy) in PartNodes(l, t, r) + {dummy}
  {
    assert t.left.In(m) && t.right.In(m);
  }

  /** A splayed tree: the root parts the rest at k. */
  ghost predicate Parted(t: Tree, key: nat -> int, k: int) {
    t.Bin? && AllBelow(t.left.InOrder(), key, k) && AllAbove(t.right.InOrder(), key, k)
  }

  /** The loop may stop when the key is at the root or has nowhere to go. */
  ghost predicate MayStop(t: Tree, key: nat -> int, k: int) {
    t.Bin? && (k == key(t.node) || (k < key(t.node) && t.left.Nil?) || (key(t.node) < k && t.right.Nil?))
  }

  lemma AssembledParted(l: Spine, t: Tree, r: Spine, s: seq<nat>, key: nat -> int, k: int)
    requires t.Bin? && Order(l, t, r) == s && Sorted(s, key) && MayStop(t, key, k)
    requires AllBelow(l.InOrder(OnLeft), key, k) && AllAbove(r.InOrder(OnRight), key, k)
    ensures Parted(Assembled(l, t, r), key, k) && Assembled(l, t, r).InOrder() == s
  {
    AssembledOrder(l, t, r);
    AroundRoot(l, t, r, key);
  }

  lemma PartedRoot(t: Tree, key: nat -> int, k: int)
    requires Parted(t, key, k)
    ensures forall x :: x in t.InOrder() && key(x) == k ==> x == t.node
  {}

  /** A splay starts with the whole tree in the middle and the stack structure
      cleared. */
  lemma SplayStarts(m: seq<Cell>, dummy: nat, t: Tree, key: nat -> int, k: int)
    requires dummy < |m| && t.In(m) && t.Distinct() && dummy !in t.Nodes() && t.Bin? && Sorted(t.InOrder(), key)
    ensures Splaying(m[dummy := Cell(NULL, NULL)], dummy, Empty, t, Empty, t.InOrder(), key, k)
    ensures PartNodes(Empty, t, Empty) == t.Nodes()
  {
    TreeFrame(m, m[dummy := Cell(NULL, NULL)], t);
    assert Order(Empty, t, Empty) == t.InOrder();
  }

  /** A key beyond every node, for which SPLAY and SPLAY_MINMAX take the same way. */
  ghost predicate Beyond(s: seq<nat>, key: nat -> int, k: int, comp: int) {
    if comp < 0 then AllAbove(s, key, k) else AllBelow(s, key, k)
  }

  lemma KeyBeyond(s: seq<nat>, key: nat -> int, comp: int) returns (k: int)
    requires Sorted(s, key) && s != []
    ensures Beyond(s, key, k, comp)
  {
    k := if comp < 0 then key(s[0]) - 1 else key(s[|s| - 1]) + 1;
  }

  lemma BeyondRoot(m: seq<Cell>, dummy: nat, l: Spine, t: Tree, r: Spine, s: seq<nat>, key: nat -> int, k: int,
                   comp: int)
    requires Splaying(m, dummy, l, t, r, s, key, k) && Beyond(s, key, k, comp)
    ensures if comp < 0 then k < key(t.node) else key(t.node) < k
  {}

  lemma PartedBeyond(t: Tree, key: nat -> int, k: int, comp: int)
    requires Parted(t, key, k) && Beyond(t.InOrder(), key, k, comp)
    ensures if comp < 0 then t.left.Nil? else t.right.Nil?
  {
    assert t.left.Bin? ==> t.left.node in t.left.InOrder() && t.left.node in t.InOrder();
    assert t.right.Bin? ==> t.right.node in t.right.InOrder() && t.right.node in t.InOrder();
  }

  // ---- taking apart and putting together at the root ----

  lemma RootOrder(t: Tree, key: nat -> int)
    requires t.Bin? && Sorted(t.InOrder(), key)
    ensures Sorted(t.left.InOrder(), key) && Sorted(t.right.InOrder(), key)
    ensures AllBelow(t.left.InOrder(), key, key(t.node)) && AllAbove(t.right.InOrder(), key, key(t.node))
  {
    SortedAround(t.left.InOrder(), t.node, t.right.InOrder(), key);
  }

  lemma {:induction false} TreeNodes(t: Tree, x: nat)
    ensures x in t.Nodes() <==> x in t.InOrder()
  {
    if t.Bin? {
      TreeNodes(t.left, x);
      TreeNodes(t.right, x);
    }
  }

  /** The new root of SPLAY_INSERT, over a tree parted at its key. */
  ghost function Topped(t: Tree, n: nat, key: nat -> int): Tree
    requires t.Bin?
  {
    if key(n) < key(t.node) then Bin(t.left, n, t.(left := Nil)) else Bin(t.(right := Nil), n, t.right)
  }

  lemma ToppedHeld(m: seq<Cell>, m': seq<Cell>, t: Tree, n: nat, key: nat -> int)
    requires t.In(m) && t.Distinct() && Sorted(t.InOrder(), key) && Parted(t, key, key(n)) && key(n) != key(t.node)
    requires n < |m| == |m'| && forall i: nat :: i < |m| && i != n && i != t.node ==> m'[i] == m[i]
    requires
      if key(n) < key(t.node) then m'[n] == Cell(m[t.node].left, t.node) && m'[t.node] == m[t.node].(left := NULL)
      else m'[n] == Cell(t.node, m[t.node].right) && m'[t.node] == m[t.node].(right := NULL)
    ensures n !in t.Nodes()
    ensures Topped(t, n, key).In(m') && Topped(t, n, key).Distinct()
    ensures Topped(t, n, key).Nodes() == t.Nodes() + {n}
  {
    PartedRoot(t, key, key(n));
    TreeNodes(t, n);
    TreeFrame(m, m', t.left);
    TreeFrame(m, m', t.right);
  }

  lemma ToppedSeq(t: Tree, n: nat, key: nat -> int) returns (at: nat)
    requires t.Bin?
    ensures at <= |t.InOrder()|
    ensures Topped(t, n, key).InOrder() == t.InOrder()[..at] + [n] + t.InOrder()[at..]
    ensures t.InOrder()[..at] == if key(n) < key(t.node) then t.left.InOrder() else t.left.InOrder() + [t.node]
    ensures t.InOrder()[at..] == if key(n) < key(t.node) then [t.node] + t.right.InOrder() else t.right.InOrder()
  {
    var l, r, x := t.left.InOrder(), t.right.InOrder(), t.node;
    Slices(l, x, r);
    at := if key(n) < key(x) then |l| else |l| + 1;
    assert t.(left := Nil).InOrder() == [] + [x] + r;
    assert t.(right := Nil).InOrder() == l + [x] + [];
  }

  lemma ToppedOrder(t: Tree, n: nat, key: nat -> int) returns (at: nat)
    requires Sorted(t.InOrder(), key) && Parted(t, key, key(n)) && key(n) != key(t.node)
    ensures at <= |t.InOrder()|
    ensures Topped(t, n, key).InOrder() == t.InOrder()[..at] + [n] + t.InOrder()[at..]
    ensures Sorted(Topped(t, n, key).InOrder(), key)
  {
    at := ToppedSeq(t, n, key);
    var a, b := t.InOrder()[..at], t.InOrder()[at..];
    assert t.InOrder() == a + b;
    SortedParts(a, b, key);
    SortedAround(a, n, b, key);
  }

  lemma Slices(l: seq<nat>, x: nat, r: seq<nat>)
    ensures var s := l + [x] + r;
      s[..|l|] == l && s[|l|..] == [x] + r && s[..|l| + 1] == l + [x] && s[|l| + 1..] == r
    ensures [] + [x] + r == [x] + r && l + [x] + [] == l + [x]
  {}
}
