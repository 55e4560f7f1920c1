module RBSearch {
  import opened Arena
  import opened Ordered
  import opened RBShape
  import opened RBBalance
  import opened RBDeficit

  /** Every node outside the hole is on the proper side of k. */
  ghost predicate Brackets(c: Ctx, key: nat -> int, k: int) {
    AllBelow(c.Before(), key, k) && AllAbove(c.After(), key, k)
  }

  lemma Descend(c: Ctx, t: Tree, side: Side, key: nat -> int, k: int)
    requires t.Bin? && Sorted(Order(c, t), key) && Brackets(c, key, k)
    requires if side == OnLeft then k < key(t.node) else key(t.node) < k
    ensures Order(Under(c, t, side), t.Child(side)) == Order(c, t)
    ensures Brackets(Under(c, t, side), key, k)
  {
    FillInOrder(Under(c, t, side), t.Child(side));
    Around(c, t, key);
    if side == OnLeft {
      assert Under(c, t, side).Before() == c.Before();
      assert Under(c, t, side).After() == [t.node] + t.right.InOrder() + c.After();
    } else {
      assert Under(c, t, side).Before() == c.Before() + (t.left.InOrder() + [t.node]);
      assert Under(c, t, side).After() == c.After();
    }
  }

  lemma Around(c: Ctx, t: Tree, key: nat -> int)
    requires t.Bin? && Sorted(Order(c, t), key)
    ensures AllBelow(c.Before() + t.left.InOrder(), key, key(t.node))
    ensures AllAbove(t.right.InOrder() + c.After(), key, key(t.node))
  {
    var b, a := c.Before() + t.left.InOrder(), t.right.InOrder() + c.After();
    assert Order(c, t) == b + [t.node] + a;
    SortedAround(b, t.node, a, key);
  }

  /** The state of a descent for k through a tree with in-order sequence s. */
  ghost predicate Seeking(m: seq<Cell>, root: int, c: Ctx, t: Tree, s: seq<nat>, key: nat -> int, k: int) {
    At(m, root, c, t) && Order(c, t) == s && Sorted(s, key) && Brackets(c, key, k)
  }

  /** One step of a descent, on the side where k belongs. */
  lemma SeekDown(m: seq<Cell>, root: int, c: Ctx, t: Tree, s: seq<nat>, key: nat -> int, k: int)
    requires Seeking(m, root, c, t, s, key, k) && t.Bin?
    ensures t.node in s && t.node < |m| && m[t.node].left == t.left.Ptr() && m[t.node].right == t.right.Ptr()
    ensures k < key(t.node) ==> Seeking(m, root, Under(c, t, OnLeft), t.left, s, key, k)
    ensures key(t.node) < k ==> Seeking(m, root, Under(c, t, OnRight), t.right, s, key, k)
    ensures Height(t.left) < Height(t) && Height(t.right) < Height(t)
  {
    assert t.node in t.InOrder();
    if k != key(t.node) {
      var side := if k < key(t.node) then OnLeft else OnRight;
      Descend(c, t, side, key, k);
      MoveDown(m, root, c, t, side);
    }
  }

  /** A descent that runs out of nodes shows that no node has key k. */
  lemma SoughtInVain(m: seq<Cell>, root: int, c: Ctx, s: seq<nat>, key: nat -> int, k: int)
    requires Seeking(m, root, c, Nil, s, key, k)
    ensures forall x :: x in s ==> key(x) != k
  {}

  /** An insertion point: every node is strictly above or below k, so k is new
      and belongs between c.Before() and c.After(). */
  lemma NotInCtx(c: Ctx, key: nat -> int, n: nat)
    requires Brackets(c, key, key(n))
    ensures n !in c.Nodes()
  {
    CtxNodes(c, n);
  }

  lemma InsertedSorted(c: Ctx, n: nat, key: nat -> int)
    requires Sorted(Order(c, Nil), key) && Brackets(c, key, key(n))
    ensures Sorted(Order(c, Leaf(n)), key)
    ensures Order(c, Leaf(n)) == c.Before() + [n] + c.After()
    ensures Order(c, Nil) == c.Before() + c.After()
  {
    assert Leaf(n).InOrder() == [n];
    assert Order(c, Nil) == c.Before() + c.After();
    SortedParts(c.Before(), c.After(), key);
    SortedAround(c.Before(), n, c.After(), key);
  }

  /** Below an empty hole that brackets k, the first node after the hole is the
      least one above k. */
  lemma LeastAfter(m: seq<Cell>, root: int, c: Ctx, s: seq<nat>, key: nat -> int, k: int)
    requires Seeking(m, root, c, Nil, s, key, k)
    ensures c.After() == [] ==> forall x :: x in s ==> key(x) < k
    ensures c.After() != [] ==>
      var r := c.After()[0];
      r in s && k < key(r) && forall x :: x in s && k <= key(x) ==> key(r) <= key(x)
  {
    assert s == c.Before() + c.After();
    hide Seeking, At;
    FirstAbove(c.Before(), c.After(), key, k);
  }

  lemma FirstAbove(b: seq<nat>, a: seq<nat>, key: nat -> int, k: int)
    requires Sorted(b + a, key) && AllBelow(b, key, k) && AllAbove(a, key, k)
    ensures a == [] ==> forall x :: x in b + a ==> key(x) < k
    ensures a != [] ==>
      a[0] in b + a && k < key(a[0]) && forall x :: x in b + a && k <= key(x) ==> key(a[0]) <= key(x)
  {
    SortedParts(b, a, key);
    if a != [] {
      assert a[0] in a;
      forall x | x in b + a && k <= key(x) ensures key(a[0]) <= key(x) {
        assert x in a;
        var i :| 0 <= i < |a| && a[i] == x;
      }
    }
  }

  lemma StepsBound(t: Tree, steps: nat)
    requires RedBlack(t) && steps <= Height(t)
    ensures AtMostTwiceLog(steps, |t.InOrder()|)
  {
    HeightBound(t);
    Pow2Monotone(steps, Height(t));
  }

  /** Where a member is, and what its removal does to the sequence. */
  lemma RemovalPoint(m: seq<Cell>, root: int, tree: Tree, elm: nat, key: nat -> int) returns (c: Ctx, t: Tree, at: nat)
    requires At(m, root, Top, tree) && Sorted(tree.InOrder(), key) && elm in tree.InOrder()
    ensures At(m, root, c, t) && c.Plug(t) == tree && t.Bin? && t.node == elm
    ensures at < |tree.InOrder()| && tree.InOrder()[at] == elm
    ensures Without(c, t) == tree.InOrder()[..at] + tree.InOrder()[at + 1..] && Sorted(Without(c, t), key)
  {
    TreeNodes(tree, elm);
    c, t := Locate(Top, tree, elm);
    Unzip(m, root, c, t);
    PlugInOrder(c, t);
    var b, l, r, a := c.Before(), t.left.InOrder(), t.right.InOrder(), c.After();
    at := |b + l|;
    Spread(b, l, elm, r, a);
    TakenOut(b + l, elm, r + a, key);
  }

  // ---- iteration ----

  /** The node after the focus root: the first of its right subtree, or else
      the first one after the hole. */
  ghost function NodeAfter(c: Ctx, t: Tree): int
    requires t.Bin?
  {
    var a := t.right.InOrder() + c.After();
    if a == [] then NULL else a[0]
  }

  ghost function NodeBefore(c: Ctx, t: Tree): int
    requires t.Bin?
  {
    var b := c.Before() + t.left.InOrder();
    if b == [] then NULL else b[|b| - 1]
  }

  lemma Neighbours(m: seq<Cell>, root: int, tree: Tree, elm: nat) returns (c: Ctx, t: Tree)
    requires At(m, root, Top, tree) && elm in tree.InOrder()
    ensures At(m, root, c, t) && c.Plug(t) == tree && t.Bin? && t.node == elm
    ensures IsNext(tree.InOrder(), elm, NodeAfter(c, t))
    ensures IsPrev(tree.InOrder(), elm, NodeBefore(c, t))
  {
    TreeNodes(tree, elm);
    c, t := Locate(Top, tree, elm);
    Unzip(m, root, c, t);
    PlugInOrder(c, t);
    InTheMiddle(tree.InOrder(), c.Before(), t.left.InOrder(), elm, t.right.InOrder(), c.After());
  }

  lemma InTheMiddle(s: seq<nat>, b: seq<nat>, l: seq<nat>, x: nat, r: seq<nat>, a: seq<nat>)
    requires s == b + (l + [x] + r) + a
    ensures IsNext(s, x, if r + a == [] then NULL else (r + a)[0])
    ensures IsPrev(s, x, if b + l == [] then NULL else (b + l)[|b + l| - 1])
  {
    var i := |b + l|;
    var u, v := b + l, r + a;
    assert s == u + [x] + v;
    assert NextAt(s, x, if v == [] then NULL else v[0], i);
    assert PrevAt(s, x, if u == [] then NULL else u[i - 1], i);
  }

  lemma {:induction false} RightmostOrder(seg: Ctx, s: Tree)
    requires s.Bin? && s.right.Nil? && seg.After() == []
    ensures seg.Plug(s).InOrder() == seg.Plug(s.left).InOrder() + [s.node]
  {
    PlugInOrder(seg, s);
    PlugInOrder(seg, s.left);
    assert seg.Before() + (s.left.InOrder() + [s.node] + []) + [] == (seg.Before() + s.left.InOrder() + []) + [s.node];
  }

  lemma Spread(b: seq<nat>, l: seq<nat>, x: nat, r: seq<nat>, a: seq<nat>)
    ensures b + (l + [x] + r) + a == (b + l) + [x] + (r + a)
    ensures b + l + r + a == (b + l) + (r + a)
  {}
}
