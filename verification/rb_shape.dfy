/** The ghost picture of the link fields of include/tree.h: a tree, a tree with
    a hole (the path above a node), and what it means for an arena of RB_ENTRY
    structures to hold that picture. */
module RBShape {
  import opened Arena

  datatype Color = Red | Black

  /** One RB_ENTRY; a node is known by its index in the arena. */
  datatype Cell = Cell(left: int, right: int, parent: int, color: Color)

  datatype Tree = Nil | Bin(left: Tree, node: nat, color: Color, right: Tree)
  {
    ghost function Ptr(): int { if Nil? then NULL else node }

    ghost predicate IsRed() { Bin? && color == Red }

    ghost function Child(side: Side): Tree
      requires Bin?
    {
      if side == OnLeft then left else right
    }

    ghost function Nodes(): (s: set<nat>)
      ensures Bin? ==> node in s
    {
      if Nil? then {} else left.Nodes() + {node} + right.Nodes()
    }

    ghost function InOrder(): seq<nat> {
      if Nil? then [] else left.InOrder() + [node] + right.InOrder()
    }

    /** No node occurs twice. */
    ghost predicate Distinct() {
      Bin? ==>
        && node !in left.Nodes() && node !in right.Nodes()
        && left.Nodes() !! right.Nodes()
        && left.Distinct() && right.Distinct()
    }

    /** The arena m holds this tree, hanging below node up. */
    ghost predicate In(m: seq<Cell>, up: int) {
      Bin? ==>
        && node < |m|
        && m[node] == Cell(left.Ptr(), right.Ptr(), up, color)
        && left.In(m, node)
        && right.In(m, node)
    }
  }

  ghost function Join(side: Side, t: Tree, node: nat, color: Color, sib: Tree): Tree {
    if side == OnLeft then Bin(t, node, color, sib) else Bin(sib, node, color, t)
  }

  /** A tree with a hole, from the hole upwards. */
  datatype Ctx = Top | Frame(up: Ctx, node: nat, color: Color, sib: Tree, hole: Side)
  {
    ghost function Ptr(): int { if Top? then NULL else node }

    ghost function Depth(): nat { if Top? then 0 else up.Depth() + 1 }

    ghost function Nodes(): (s: set<nat>)
      ensures Frame? ==> node in s
    {
      if Top? then {} else up.Nodes() + {node} + sib.Nodes()
    }

    ghost predicate Distinct() {
      Frame? ==>
        && node !in sib.Nodes() && node !in up.Nodes()
        && sib.Nodes() !! up.Nodes()
        && sib.Distinct() && up.Distinct()
    }

    ghost predicate In(m: seq<Cell>, root: int, child: int) {
      if Top? then root == child else
        && node < |m|
        && m[node] == (if hole == OnLeft then Cell(child, sib.Ptr(), up.Ptr(), color)
                       else Cell(sib.Ptr(), child, up.Ptr(), color))
        && sib.In(m, node)
        && up.In(m, root, node)
    }

    /** The lowest frame closed over t. */
    ghost function Fill(t: Tree): Tree
      requires Frame?
    {
      Join(hole, t, node, color, sib)
    }

    ghost function Plug(t: Tree): Tree {
      if Top? then t else up.Plug(Fill(t))
    }

    /** The nodes in order before and after the hole. */
    ghost function Before(): seq<nat> {
      if Top? then []
      else if hole == OnLeft then up.Before()
      else up.Before() + (sib.InOrder() + [node])
    }

    ghost function After(): seq<nat> {
      if Top? then []
      else if hole == OnLeft then [node] + sib.InOrder() + up.After()
      else up.After()
    }
  }

  /** The arena holds the whole tree; t is the part below one edge of it and c
      the rest. */
  ghost predicate At(m: seq<Cell>, root: int, c: Ctx, t: Tree) {
    && t.Distinct() && c.Distinct() && t.Nodes() !! c.Nodes()
    && t.In(m, c.Ptr())
    && c.In(m, root, t.Ptr())
  }

  lemma {:induction false} TreeFrame(m: seq<Cell>, m': seq<Cell>, t: Tree, up: int)
    requires t.In(m, up) && SameOn(m, m', t.Nodes())
    ensures t.In(m', up)
  {
    if t.Bin? {
      TreeFrame(m, m', t.left, t.node);
      TreeFrame(m, m', t.right, t.node);
    }
  }

  lemma {:induction false} CtxFrame(m: seq<Cell>, m': seq<Cell>, root: int, c: Ctx, child: int)
    requires c.In(m, root, child) && SameOn(m, m', c.Nodes())
    ensures c.In(m', root, child)
  {
    if c.Frame? {
      TreeFrame(m, m', c.sib, c.node);
      CtxFrame(m, m', root, c.up, c.node);
    }
  }

  /** Only the root cell of t changes, in its parent or its colour. */
  lemma TreeRootFrame(m: seq<Cell>, m': seq<Cell>, t: Tree, up: int, up': int, color: Color)
    requires t.Bin? && t.Distinct() && t.In(m, up) && SameOn(m, m', t.left.Nodes() + t.right.Nodes())
    requires m'[t.node] == m[t.node].(parent := up', color := color)
    ensures t.(color := color).In(m', up')
  {
    TreeFrame(m, m', t.left, t.node);
    TreeFrame(m, m', t.right, t.node);
  }

  // ---- moving the focus ----

  lemma MoveUp(m: seq<Cell>, root: int, c: Ctx, t: Tree)
    requires At(m, root, c, t) && c.Frame?
    ensures At(m, root, c.up, c.Fill(t))
    ensures c.Fill(t).Nodes() == t.Nodes() + {c.node} + c.sib.Nodes()
  {}

  ghost function Under(c: Ctx, t: Tree, side: Side): Ctx
    requires t.Bin?
  {
    Frame(c, t.node, t.color, t.Child(side.Other()), side)
  }

  lemma MoveDown(m: seq<Cell>, root: int, c: Ctx, t: Tree, side: Side)
    requires At(m, root, c, t) && t.Bin?
    ensures At(m, root, Under(c, t, side), t.Child(side))
    ensures Under(c, t, side).Fill(t.Child(side)) == t
  {}

  /** The path seg continued above by c. */
  ghost function Append(seg: Ctx, c: Ctx): Ctx {
    if seg.Top? then c else seg.(up := Append(seg.up, c))
  }

  lemma {:induction false} ZipTo(m: seq<Cell>, root: int, seg: Ctx, c: Ctx, t: Tree)
    requires At(m, root, Append(seg, c), t)
    ensures At(m, root, c, seg.Plug(t))
  {
    if seg.Frame? {
      MoveUp(m, root, Append(seg, c), t);
      ZipTo(m, root, seg.up, c, seg.Fill(t));
    }
  }

  lemma {:induction false} UnzipTo(m: seq<Cell>, root: int, seg: Ctx, c: Ctx, t: Tree)
    requires At(m, root, c, seg.Plug(t))
    ensures At(m, root, Append(seg, c), t)
  {
    if seg.Frame? {
      UnzipTo(m, root, seg.up, c, seg.Fill(t));
      MoveDown(m, root, Append(seg.up, c), seg.Fill(t), seg.hole);
    }
  }

  lemma {:induction false} AppendTop(c: Ctx)
    ensures Append(c, Top) == c
  {
    if c.Frame? {
      AppendTop(c.up);
    }
  }

  lemma {:induction false} PlugAppend(seg: Ctx, c: Ctx, t: Tree)
    ensures Append(seg, c).Plug(t) == c.Plug(seg.Plug(t))
  {
    if seg.Frame? {
      PlugAppend(seg.up, c, seg.Fill(t));
    }
  }

  lemma Zip(m: seq<Cell>, root: int, c: Ctx, t: Tree)
    requires At(m, root, c, t)
    ensures At(m, root, Top, c.Plug(t))
  {
    AppendTop(c);
    ZipTo(m, root, c, Top, t);
  }

  lemma Unzip(m: seq<Cell>, root: int, c: Ctx, t: Tree)
    requires At(m, root, Top, c.Plug(t))
    ensures At(m, root, c, t)
  {
    AppendTop(c);
    UnzipTo(m, root, c, Top, t);
  }

  /** Every node is the root of some subtree. */
  lemma {:induction false} Locate(c0: Ctx, t0: Tree, n: nat) returns (c: Ctx, t: Tree)
    requires n in t0.Nodes()
    ensures c.Plug(t) == c0.Plug(t0) && t.Bin? && t.node == n
    decreases t0
  {
    if n == t0.node {
      c, t := c0, t0;
    } else {
      var side := if n in t0.left.Nodes() then OnLeft else OnRight;
      c, t := Locate(Under(c0, t0, side), t0.Child(side), n);
    }
  }

  lemma {:induction false} PlugInOrder(c: Ctx, t: Tree)
    ensures c.Plug(t).InOrder() == c.Before() + t.InOrder() + c.After()
  {
    if c.Frame? {
      PlugInOrder(c.up, c.Fill(t));
      FillInOrder(c, t);
    }
  }

  lemma FillInOrder(c: Ctx, t: Tree)
    requires c.Frame?
    ensures c.up.Before() + c.Fill(t).InOrder() + c.up.After() == c.Before() + t.InOrder() + c.After()
  {
    var b, x, s, a := c.up.Before(), t.InOrder(), c.sib.InOrder(), c.up.After();
    if c.hole == OnLeft {
      assert b + (x + [c.node] + s) + a == b + x + ([c.node] + s + a);
    } else {
      assert b + (s + [c.node] + x) + a == b + (s + [c.node]) + x + a;
    }
  }

  // ---- changing a colour ----

  lemma Painted(m: seq<Cell>, root: int, c: Ctx, t: Tree, color: Color)
    requires At(m, root, c, t) && t.Bin?
    ensures t.node < |m| && At(m[t.node := m[t.node].(color := color)], root, c, t.(color := color))
  {
    var m' := m[t.node := m[t.node].(color := color)];
    TreeRootFrame(m, m', t, c.Ptr(), c.Ptr(), color);
    CtxFrame(m, m', root, c, t.node);
  }

  // ---- rotations ----

  ghost function RotL(t: Tree): Tree
    requires t.Bin? && t.right.Bin?
  {
    Bin(Bin(t.left, t.node, t.color, t.right.left), t.right.node, t.right.color, t.right.right)
  }

  ghost function RotR(t: Tree): Tree
    requires t.Bin? && t.left.Bin?
  {
    Bin(t.left.left, t.left.node, t.left.color, Bin(t.left.right, t.node, t.color, t.right))
  }

  /** RotL and RotR undo each other. */
  lemma RotLSet(t: Tree)
    requires t.Bin? && t.right.Bin?
    ensures RotL(t).Nodes() == t.Nodes()
    ensures RotR(RotL(t)) == t
  {}

  lemma RotLDistinct(t: Tree)
    requires t.Bin? && t.right.Bin? && t.Distinct()
    ensures RotL(t).Distinct()
  {}

  lemma RotRDistinct(t: Tree)
    requires t.Bin? && t.left.Bin? && t.Distinct()
    ensures RotR(t).Distinct()
  {}

  lemma RotLInOrder(t: Tree)
    requires t.Bin? && t.right.Bin?
    ensures RotL(t).InOrder() == t.InOrder()
  {}

  lemma RotRInOrder(t: Tree)
    requires t.Bin? && t.left.Bin?
    ensures RotR(t).InOrder() == t.InOrder()
  {}

  /** What RB_ROTATE_LEFT (side OnLeft) or RB_ROTATE_RIGHT leaves in the arena:
      child becomes the parent of elm, and elm takes over its inner subtree. */
  ghost predicate Rotated(side: Side, m: seq<Cell>, m': seq<Cell>, elm: nat, child: nat, inner: int, p: int)
  {
    && |m'| == |m| && elm < |m| && child < |m| && inner < |m| && p < |m|
    && (forall n: nat :: n < |m| && n != elm && n != child && n != inner && n != p ==> m'[n] == m[n])
    && m'[elm] == (if side == OnLeft then m[elm].(right := inner, parent := child)
                   else m[elm].(left := inner, parent := child))
    && m'[child] == (if side == OnLeft then m[child].(left := elm, parent := p)
                     else m[child].(right := elm, parent := p))
    && (inner >= 0 ==> m'[inner] == m[inner].(parent := elm))
    && (p >= 0 ==> m'[p] == if m[p].left == elm then m[p].(left := child) else m[p].(right := child))
  }

  lemma RotatedSame(side: Side, m: seq<Cell>, m': seq<Cell>, elm: nat, child: nat, inner: int, p: int, s: set<nat>)
    requires Rotated(side, m, m', elm, child, inner, p)
    requires elm !in s && child !in s && (inner < 0 || inner !in s) && (p < 0 || p !in s)
    ensures SameOn(m, m', s)
  {}

  lemma RotLBelow(m: seq<Cell>, m': seq<Cell>, t: Tree, p: int)
    requires t.Bin? && t.right.Bin? && t.Distinct() && t.In(m, p) && (p < 0 || p !in t.Nodes())
    requires Rotated(OnLeft, m, m', t.node, t.right.node, t.right.left.Ptr(), p)
    ensures RotL(t).In(m', p)
  {
    var r := t.right;
    var b := r.left;
    assert r.Nodes() == r.left.Nodes() + {r.node} + r.right.Nodes();
    assert r.In(m, t.node) && r.Distinct();
    assert b.In(m, r.node) && r.right.In(m, r.node);
    RotatedSame(OnLeft, m, m', t.node, r.node, b.Ptr(), p, t.left.Nodes());
    TreeFrame(m, m', t.left, t.node);
    RotatedSame(OnLeft, m, m', t.node, r.node, b.Ptr(), p, r.right.Nodes());
    TreeFrame(m, m', r.right, r.node);
    if b.Bin? {
      assert b.Distinct() && b.Nodes() == b.left.Nodes() + {b.node} + b.right.Nodes();
      RotatedSame(OnLeft, m, m', t.node, r.node, b.Ptr(), p, b.left.Nodes() + b.right.Nodes());
      TreeRootFrame(m, m', b, r.node, t.node, b.color);
    }
  }

  lemma RotRBelow(m: seq<Cell>, m': seq<Cell>, t: Tree, p: int)
    requires t.Bin? && t.left.Bin? && t.Distinct() && t.In(m, p) && (p < 0 || p !in t.Nodes())
    requires Rotated(OnRight, m, m', t.node, t.left.node, t.left.right.Ptr(), p)
    ensures RotR(t).In(m', p)
  {
    var l := t.left;
    var b := l.right;
    assert l.Nodes() == l.left.Nodes() + {l.node} + l.right.Nodes();
    assert l.In(m, t.node) && l.Distinct();
    assert b.In(m, l.node) && l.left.In(m, l.node);
    RotatedSame(OnRight, m, m', t.node, l.node, b.Ptr(), p, t.right.Nodes());
    TreeFrame(m, m', t.right, t.node);
    RotatedSame(OnRight, m, m', t.node, l.node, b.Ptr(), p, l.left.Nodes());
    TreeFrame(m, m', l.left, l.node);
    if b.Bin? {
      assert b.Distinct() && b.Nodes() == b.left.Nodes() + {b.node} + b.right.Nodes();
      RotatedSame(OnRight, m, m', t.node, l.node, b.Ptr(), p, b.left.Nodes() + b.right.Nodes());
      TreeRootFrame(m, m', b, l.node, t.node, b.color);
    }
  }

  lemma RotAbove(side: Side, m: seq<Cell>, m': seq<Cell>, root: int, c: Ctx, elm: nat, child: nat, inner: int)
    requires c.In(m, root, elm) && c.Distinct()
    requires elm !in c.Nodes() && child !in c.Nodes() && (inner < 0 || inner !in c.Nodes())
    requires c.Frame? ==> elm !in c.sib.Nodes()
    requires Rotated(side, m, m', elm, child, inner, c.Ptr())
    ensures c.In(m', if c.Top? then child else root, child)
  {
    if c.Frame? {
      RotatedSame(side, m, m', elm, child, inner, c.Ptr(), c.sib.Nodes());
      TreeFrame(m, m', c.sib, c.node);
      RotatedSame(side, m, m', elm, child, inner, c.Ptr(), c.up.Nodes());
      CtxFrame(m, m', root, c.up, c.node);
    }
  }

  lemma RotLAt(m: seq<Cell>, m': seq<Cell>, root: int, c: Ctx, t: Tree)
    requires At(m, root, c, t) && t.Bin? && t.right.Bin?
    requires Rotated(OnLeft, m, m', t.node, t.right.node, t.right.left.Ptr(), c.Ptr())
    ensures At(m', if c.Top? then t.right.node else root, c, RotL(t))
  {
    RotLSet(t);
    RotLDistinct(t);
    RotLBelow(m, m', t, c.Ptr());
    assert t.right.Nodes() == t.right.left.Nodes() + {t.right.node} + t.right.right.Nodes();
    RotAbove(OnLeft, m, m', root, c, t.node, t.right.node, t.right.left.Ptr());
  }

  lemma RotRAt(m: seq<Cell>, m': seq<Cell>, root: int, c: Ctx, t: Tree)
    requires At(m, root, c, t) && t.Bin? && t.left.Bin?
    requires Rotated(OnRight, m, m', t.node, t.left.node, t.left.right.Ptr(), c.Ptr())
    ensures At(m', if c.Top? then t.left.node else root, c, RotR(t))
  {
    RotLSet(RotR(t));
    RotRDistinct(t);
    RotRBelow(m, m', t, c.Ptr());
    assert t.left.Nodes() == t.left.left.Nodes() + {t.left.node} + t.left.right.Nodes();
    RotAbove(OnRight, m, m', root, c, t.node, t.left.node, t.left.right.Ptr());
  }

  /** The cells a rotation touches lie in the arena and differ. */
  lemma RotCells(m: seq<Cell>, root: int, c: Ctx, t: Tree, side: Side)
    requires At(m, root, c, t) && t.Bin? && t.Child(side.Other()).Bin?
    ensures
      var child := t.Child(side.Other());
      var inner := child.Child(side).Ptr();
      && t.node < |m| && child.node < |m| && NULL <= inner < |m| && NULL <= c.Ptr() < |m|
      && m[t.node].parent == c.Ptr()
      && (if side == OnLeft then m[t.node].right == child.node && m[child.node].left == inner
          else m[t.node].left == child.node && m[child.node].right == inner)
      && t.node != child.node && inner !in {t.node, child.node} && c.Ptr() !in {t.node, child.node}
      && (c.Frame? ==> inner != c.Ptr())
  {
    var r := t.Child(side.Other());
    assert r.Distinct() && r.In(m, t.node) && r.Child(side).In(m, r.node);
    assert r.Nodes() == r.left.Nodes() + {r.node} + r.right.Nodes();
  }

  // ---- hanging a new leaf into the hole ----

  ghost function Leaf(n: nat): Tree { Bin(Nil, n, Red, Nil) }

  ghost function Hung(m: seq<Cell>, c: Ctx, n: nat): seq<Cell>
    requires n < |m| && c.Ptr() < |m|
  {
    var m1 := m[n := Cell(NULL, NULL, c.Ptr(), Red)];
    if c.Top? then m1
    else if c.hole == OnLeft then m1[c.node := m1[c.node].(left := n)]
    else m1[c.node := m1[c.node].(right := n)]
  }

  lemma HungAt(m: seq<Cell>, root: int, c: Ctx, n: nat)
    requires At(m, root, c, Nil) && n < |m| && n !in c.Nodes()
    ensures c.Ptr() < |m|
    ensures At(Hung(m, c, n), if c.Top? then n else root, c, Leaf(n))
  {
    var m' := Hung(m, c, n);
    if c.Frame? {
      TreeFrame(m, m', c.sib, c.node);
      CtxFrame(m, m', root, c.up, c.node);
    }
  }

  // ---- node sets and in-order sequences ----

  lemma {:induction false} TreeNodes(t: Tree, x: nat)
    ensures x in t.Nodes() <==> x in t.InOrder()
  {
    if t.Bin? {
      TreeNodes(t.left, x);
      TreeNodes(t.right, x);
    }
  }

  lemma {:induction false} CtxNodes(c: Ctx, x: nat)
    ensures x in c.Nodes() <==> x in c.Before() || x in c.After()
  {
    if c.Frame? {
      CtxNodes(c.up, x);
      TreeNodes(c.sib, x);
    }
  }

  // ---- taking a node out ----

  ghost function Relinked(cell: Cell, was: int, now: int): Cell {
    if cell.left == was then cell.(left := now) else cell.(right := now)
  }

  /** The only child of the node at the focus takes its place. */
  ghost function Spliced(m: seq<Cell>, c: Ctx, was: nat, child: Tree): seq<Cell>
    requires (child.Bin? ==> child.node < |m|) && c.Ptr() < |m|
  {
    var m1 := if child.Bin? then m[child.node := m[child.node].(parent := c.Ptr())] else m;
    if c.Top? then m1 else m1[c.node := Relinked(m1[c.node], was, child.Ptr())]
  }

  /** Only the link down from the lowest frame changes. */
  lemma CtxRelinked(m: seq<Cell>, m': seq<Cell>, root: int, c: Ctx, was: int, now: int)
    requires c.In(m, root, was) && c.Distinct() && (c.Frame? ==> c.sib.Ptr() != was)
    requires |m'| == |m| && forall n <- c.Nodes() :: n < |m| ==>
               m'[n] == if n == c.Ptr() then Relinked(m[n], was, now) else m[n]
    ensures c.In(m', if c.Top? then now else root, now)
  {
    if c.Frame? {
      TreeFrame(m, m', c.sib, c.node);
      CtxFrame(m, m', root, c.up, c.node);
    }
  }

  lemma SplicedAt(m: seq<Cell>, root: int, c: Ctx, t: Tree, side: Side)
    requires At(m, root, c, t) && t.Bin? && t.Child(side.Other()).Nil?
    ensures
      var child := t.Child(side);
      && t.node < |m| && m[t.node] == Cell(t.left.Ptr(), t.right.Ptr(), c.Ptr(), t.color)
      && NULL <= child.Ptr() < |m| && NULL <= c.Ptr() < |m|
      && At(Spliced(m, c, t.node, child), if c.Top? then child.Ptr() else root, c, child)
      && Spliced(m, c, t.node, child)[t.node] == m[t.node]
  {
    var child := t.Child(side);
    assert child.In(m, t.node);
    var m' := Spliced(m, c, t.node, child);
    assert t.Nodes() == child.Nodes() + {t.node};
    if child.Bin? {
      TreeRootFrame(m, m', child, t.node, c.Ptr(), child.color);
    }
    CtxRelinked(m, m', root, c, t.node, child.Ptr());
  }

  /** Node now takes over the fields of the node at the focus. */
  ghost function Replaced(m: seq<Cell>, c: Ctx, t: Tree, now: nat): seq<Cell>
    requires t.Bin? && t.node < |m| && now < |m| && c.Ptr() < |m| && t.left.Ptr() < |m| && t.right.Ptr() < |m|
  {
    var m1 := m[now := m[t.node]];
    var m2 := if c.Top? then m1 else m1[c.node := Relinked(m1[c.node], t.node, now)];
    var m3 := if t.left.Bin? then m2[t.left.node := m2[t.left.node].(parent := now)] else m2;
    if t.right.Bin? then m3[t.right.node := m3[t.right.node].(parent := now)] else m3
  }

  lemma ReplacedBelow(m: seq<Cell>, m': seq<Cell>, t: Tree, up: int, now: nat)
    requires t.Bin? && t.Distinct() && t.In(m, up) && now !in t.Nodes() && now < |m| == |m'|
    requires m'[now] == m[t.node]
    requires forall n <- t.left.Nodes() + t.right.Nodes() :: n < |m| ==>
               m'[n] == if n == t.left.Ptr() || n == t.right.Ptr() then m[n].(parent := now) else m[n]
    ensures t.(node := now).In(m', up)
  {
    if t.left.Bin? {
      TreeRootFrame(m, m', t.left, t.node, now, t.left.color);
    }
    if t.right.Bin? {
      TreeRootFrame(m, m', t.right, t.node, now, t.right.color);
    }
  }

  lemma ReplacedCells(m: seq<Cell>, root: int, c: Ctx, t: Tree, now: nat)
    requires At(m, root, c, t) && t.Bin? && now < |m| && now !in t.Nodes() && now !in c.Nodes()
    ensures t.node < |m| && m[t.node] == Cell(t.left.Ptr(), t.right.Ptr(), c.Ptr(), t.color)
    ensures NULL <= c.Ptr() < |m| && NULL <= t.left.Ptr() < |m| && NULL <= t.right.Ptr() < |m|
    ensures c.Ptr() !in {t.node, now} && t.node != now
    ensures t.left.Ptr() !in {t.node, now} && t.right.Ptr() !in {t.node, now}
    ensures c.Frame? ==> c.node !in {t.left.Ptr(), t.right.Ptr()} && c.sib.Ptr() != t.node
    ensures t.left.Bin? ==> t.left.node != t.right.Ptr()
  {
    assert t.left.In(m, t.node) && t.right.In(m, t.node);
  }

  lemma ReplacedDistinct(c: Ctx, t: Tree, now: nat)
    requires t.Distinct() && t.Bin? && t.Nodes() !! c.Nodes() && now !in t.Nodes() && now !in c.Nodes()
    ensures t.(node := now).Distinct() && t.(node := now).Nodes() !! c.Nodes()
  {}

  lemma ReplacedAt(m: seq<Cell>, root: int, c: Ctx, t: Tree, now: nat)
    requires At(m, root, c, t) && t.Bin? && now < |m| && now !in t.Nodes() && now !in c.Nodes()
    ensures t.node < |m| && c.Ptr() < |m| && t.left.Ptr() < |m| && t.right.Ptr() < |m|
    ensures At(Replaced(m, c, t, now), if c.Top? then now else root, c, t.(node := now))
  {
    ReplacedCells(m, root, c, t, now);
    ReplacedDistinct(c, t, now);
    var m' := Replaced(m, c, t, now);
    assert t.Nodes() == t.left.Nodes() + {t.node} + t.right.Nodes();
    ReplacedBelow(m, m', t, c.Ptr(), now);
    CtxRelinked(m, m', root, c, t.node, now);
  }

  lemma {:induction false} AppendNodes(seg: Ctx, c: Ctx, t: Tree)
    ensures Append(seg, c).Nodes() + t.Nodes() == c.Nodes() + seg.Plug(t).Nodes()
  {
    if seg.Frame? {
      AppendNodes(seg.up, c, seg.Fill(t));
      assert seg.Fill(t).Nodes() == t.Nodes() + {seg.node} + seg.sib.Nodes();
    }
  }

  /** What a method reads at the focus. */
  lemma FocusCells(m: seq<Cell>, root: int, c: Ctx, t: Tree)
    requires At(m, root, c, t) && t.Bin?
    ensures t.node < |m| && m[t.node] == Cell(t.left.Ptr(), t.right.Ptr(), c.Ptr(), t.color)
    ensures NULL <= t.left.Ptr() < |m| && NULL <= t.right.Ptr() < |m| && NULL <= c.Ptr() < |m|
  {
    assert t.left.In(m, t.node) && t.right.In(m, t.node);
  }
}
