/** RB_REMOVE_COLOR on ghost trees: the subtree at the focus is one black node
    short, and each step moves or removes the shortage. */
module RBDeficit {
  import opened Arena
  import opened RBShape
  import opened RBBalance

  ghost function Darken(t: Tree): Tree {
    if t.Bin? then t.(color := Black) else t
  }

  /** All is well but for one missing black node on the way into t. */
  ghost predicate OneShort(m: seq<Cell>, root: int, c: Ctx, t: Tree) {
    At(m, root, c, t) && Balanced(Darken(t)) && Fits(c, BlackHeight(t) + 1, false)
  }

  /** What the loop head and the sibling tests of RB_REMOVE_COLOR read: the
      focus is the root exactly at the top, and otherwise there is a sibling. */
  lemma SiblingExists(m: seq<Cell>, root: int, c: Ctx, t: Tree)
    requires OneShort(m, root, c, t)
    ensures NULL <= t.Ptr() < |m| && (t.Bin? ==> m[t.node].color == t.color)
    ensures At(m, root, c, t) && (t.Ptr() == root <==> c.Top?)
    ensures c.Frame? ==>
      && c.sib.Bin? && c.node < |m| && c.sib.node < |m|
      && (if c.hole == OnLeft then m[c.node].left == t.Ptr() && m[c.node].right == c.sib.node
          else m[c.node].right == t.Ptr() && m[c.node].left == c.sib.node)
      && m[c.node].color == c.color && m[c.node].parent == c.up.Ptr()
      && c.sib.node != t.Ptr()
  {
    if c.Frame? {
      RootInCtx(m, root, c, t.Ptr());
    }
  }

  lemma {:induction false} RootInCtx(m: seq<Cell>, root: int, c: Ctx, child: int)
    requires c.Frame? && c.In(m, root, child)
    ensures root >= 0 && root in c.Nodes()
  {
    if c.up.Frame? {
      RootInCtx(m, root, c.up, c.node);
    }
  }

  /** What the nephew tests read. */
  lemma NephewCells(m: seq<Cell>, root: int, c: Ctx, t: Tree)
    requires At(m, root, c, t) && c.Frame? && c.sib.Bin?
    ensures
      var s := c.sib;
      && s.node < |m| && m[s.node] == Cell(s.left.Ptr(), s.right.Ptr(), c.node, s.color)
      && NULL <= s.left.Ptr() < |m| && (s.left.Bin? ==> m[s.left.node].color == s.left.color)
      && NULL <= s.right.Ptr() < |m| && (s.right.Bin? ==> m[s.right.node].color == s.right.color)
      && c.node < |m| && m[c.node].color == c.color
  {
    assert c.sib.In(m, c.node);
    assert c.sib.left.In(m, c.sib.node) && c.sib.right.In(m, c.sib.node);
  }

  // ---- painting around the focus ----

  lemma PaintParent(m: seq<Cell>, root: int, c: Ctx, t: Tree, color: Color)
    requires At(m, root, c, t) && c.Frame?
    ensures c.node < |m| && At(Paint(m, c.node, color), root, c.(color := color), t)
  {
    MoveUp(m, root, c, t);
    Painted(m, root, c.up, c.Fill(t), color);
    MoveDown(Paint(m, c.node, color), root, c.up, c.(color := color).Fill(t), c.hole);
  }

  /** Any change of the sibling that fits where it was can be seen from the focus. */
  lemma AtSibling(m: seq<Cell>, root: int, c: Ctx, t: Tree)
    requires At(m, root, c, t) && c.Frame?
    ensures At(m, root, Frame(c.up, c.node, c.color, t, c.hole.Other()), c.sib)
  {}

  lemma PaintSib(m: seq<Cell>, root: int, c: Ctx, t: Tree, color: Color)
    requires At(m, root, c, t) && c.Frame? && c.sib.Bin?
    ensures c.sib.node < |m| && At(Paint(m, c.sib.node, color), root, c.(sib := c.sib.(color := color)), t)
  {
    AtSibling(m, root, c, t);
    var cs := Frame(c.up, c.node, c.color, t, c.hole.Other());
    Painted(m, root, cs, c.sib, color);
    AtSibling(Paint(m, c.sib.node, color), root, cs, c.sib.(color := color));
  }

  ghost function WithChild(t: Tree, side: Side, child: Tree): Tree
    requires t.Bin?
  {
    if side == OnLeft then t.(left := child) else t.(right := child)
  }

  lemma PaintNephew(m: seq<Cell>, root: int, c: Ctx, t: Tree, side: Side, color: Color)
    requires At(m, root, c, t) && c.Frame? && c.sib.Bin? && c.sib.Child(side).Bin?
    ensures
      var n := c.sib.Child(side);
      && n.node < |m|
      && At(Paint(m, n.node, color), root, c.(sib := WithChild(c.sib, side, n.(color := color))), t)
  {
    AtSibling(m, root, c, t);
    var cs := Frame(c.up, c.node, c.color, t, c.hole.Other());
    MoveDown(m, root, cs, c.sib, side);
    var n := c.sib.Child(side);
    var cn := Under(cs, c.sib, side);
    Painted(m, root, cn, n, color);
    MoveUp(Paint(m, n.node, color), root, cn, n.(color := color));
    AtSibling(Paint(m, n.node, color), root, cs, cn.Fill(n.(color := color)));
  }

  // ---- a red sibling ----

  /** The context after recolouring and rotating at the parent. */
  ghost function BelowSibling(c: Ctx): Ctx
    requires c.Frame? && c.sib.Bin?
  {
    var s := c.sib;
    Frame(Frame(c.up, s.node, Black, s.Child(c.hole.Other()), c.hole), c.node, Red, s.Child(c.hole), c.hole)
  }

  lemma RedSibling(m: seq<Cell>, root: int, c: Ctx, t: Tree)
    requires Balanced(Darken(t)) && c.Frame? && c.sib.IsRed() && Fits(c, BlackHeight(t) + 1, false)
    requires At(m, root, c.up, LiftChild(c.(color := Red, sib := c.sib.(color := Black)).Fill(t), c.hole.Other()))
    ensures OneShort(m, root, BelowSibling(c), t)
    ensures Order(BelowSibling(c), t) == Order(c, t)
    ensures BelowSibling(c).sib.Bin? && BelowSibling(c).sib.color == Black
  {
    hide At, Order, Balanced;
    var c1 := c.(color := Red, sib := c.sib.(color := Black));
    var t1 := LiftChild(c1.Fill(t), c.hole.Other());
    MoveDown(m, root, c.up, t1, c.hole);
    MoveDown(m, root, Under(c.up, t1, c.hole), t1.Child(c.hole), c.hole);
    assert Under(Under(c.up, t1, c.hole), t1.Child(c.hole), c.hole) == BelowSibling(c);
    RedSiblingOrder(c, t);
    RedSiblingFits(c, BlackHeight(t) + 1);
  }

  lemma RedSiblingFits(c: Ctx, h: nat)
    requires h > 0 && c.Frame? && c.sib.IsRed() && Fits(c, h, false)
    ensures Fits(BelowSibling(c), h, false)
    ensures BelowSibling(c).sib.Bin? && BelowSibling(c).sib.color == Black
  {}

  lemma RedSiblingOrder(c: Ctx, t: Tree)
    requires c.Frame? && c.sib.Bin?
    ensures Order(BelowSibling(c), t) == Order(c, t)
  {
    var c1 := c.(color := Red, sib := c.sib.(color := Black));
    var b := BelowSibling(c);
    FillInOrder(c1, t);
    if c.hole == OnLeft { RotLInOrder(c1.Fill(t)); } else { RotRInOrder(c1.Fill(t)); }
    FillInOrder(b.up, b.Fill(t));
    FillInOrder(b, t);
    assert Order(c, t) == Order(c1, t) by { assert c1.sib.InOrder() == c.sib.InOrder(); }
  }

  // ---- a black sibling with black children ----

  ghost function PushedUp(c: Ctx, t: Tree): Tree
    requires c.Frame? && c.sib.Bin?
  {
    c.(sib := c.sib.(color := Red)).Fill(t)
  }

  lemma PushUp(m: seq<Cell>, root: int, c: Ctx, t: Tree)
    requires OneShort(m, root, c, t) && c.Frame? && c.sib.Bin? && c.sib.color == Black && !t.IsRed()
    requires !c.sib.left.IsRed() && !c.sib.right.IsRed()
    ensures c.sib.node < |m| && OneShort(Paint(m, c.sib.node, Red), root, c.up, PushedUp(c, t))
    ensures Order(c.up, PushedUp(c, t)) == Order(c, t)
  {
    PaintSib(m, root, c, t, Red);
    var c1 := c.(sib := c.sib.(color := Red));
    MoveUp(Paint(m, c.sib.node, Red), root, c1, t);
    FillInOrder(c1, t);
    PushUpFits(c, t);
  }

  lemma PushUpFits(c: Ctx, t: Tree)
    requires Balanced(t) && !t.IsRed() && c.Frame? && Fits(c, BlackHeight(t) + 1, false)
    requires c.sib.Bin? && c.sib.color == Black && !c.sib.left.IsRed() && !c.sib.right.IsRed()
    ensures Balanced(Darken(PushedUp(c, t))) && Fits(c.up, BlackHeight(PushedUp(c, t)) + 1, false)
  {}

  // ---- a black sibling with a red child ----

  /** Step one, needed when the outer nephew is black: turn the sibling. */
  ghost function TurnedSib(c: Ctx): Ctx
    requires c.Frame? && c.sib.Bin? && c.sib.Child(c.hole).Bin?
  {
    var s := c.sib;
    var n := s.Child(c.hole);
    c.(sib := LiftChild(WithChild(s.(color := Red), c.hole, n.(color := Black)), c.hole))
  }

  /** Step two: the final rotation at the parent. */
  ghost function Borrowed(c: Ctx, t: Tree): Tree
    requires c.Frame? && c.sib.Bin? && c.sib.Child(c.hole.Other()).Bin?
  {
    var s := c.sib;
    var far := c.hole.Other();
    Join(c.hole, Join(c.hole, t, c.node, Black, s.Child(c.hole)), s.node, c.color, s.Child(far).(color := Black))
  }

  /** A black sibling whose outer child is red, with h black nodes due below it. */
  ghost predicate OuterRed(c: Ctx, h: nat) {
    && c.Frame? && c.sib.Bin? && h > 0
    && Fits(c.up, h + (if c.color == Black then 1 else 0), c.color == Red)
    && var n, f := c.sib.Child(c.hole), c.sib.Child(c.hole.Other());
       && Balanced(n) && BlackHeight(n) == h - 1
       && f.IsRed() && Balanced(f.(color := Black)) && BlackHeight(f) == h - 1
  }

  lemma OuterRedFits(c: Ctx, h: nat)
    requires c.Frame? && c.sib.Bin? && c.sib.color == Black && Fits(c, h, false)
    requires c.sib.Child(c.hole.Other()).IsRed()
    ensures OuterRed(c, h)
  {
    assert Balanced(c.sib) && Balanced(c.sib.left) && Balanced(c.sib.right);
  }

  lemma TurnedSibFits(c: Ctx, h: nat)
    requires c.Frame? && c.sib.Bin? && c.sib.color == Black && Fits(c, h, false)
    requires c.sib.Child(c.hole).IsRed() && !c.sib.Child(c.hole.Other()).IsRed()
    ensures OuterRed(TurnedSib(c), h)
  {
    var s := c.sib;
    var n := s.Child(c.hole);
    assert Balanced(s.left) && Balanced(s.right) && BlackHeight(s.left) == BlackHeight(s.right) == h - 1;
    assert Balanced(n.left) && Balanced(n.right) && BlackHeight(n.left) == BlackHeight(n.right) == h - 1;
  }

  lemma TurnedSibOrder(c: Ctx, t: Tree)
    requires c.Frame? && c.sib.Bin? && c.sib.Child(c.hole).Bin?
    ensures Order(TurnedSib(c), t) == Order(c, t)
  {
    var s := c.sib;
    var s1 := WithChild(s.(color := Red), c.hole, s.Child(c.hole).(color := Black));
    assert s1.InOrder() == s.InOrder();
    if c.hole == OnLeft { RotRInOrder(s1); } else { RotLInOrder(s1); }
  }

  lemma BorrowedOrder(c: Ctx, t: Tree)
    requires c.Frame? && c.sib.Bin? && c.sib.Child(c.hole.Other()).Bin?
    ensures Order(c.up, Borrowed(c, t)) == Order(c, t)
  {
    var s := c.sib;
    var far := c.hole.Other();
    var c1 := c.(sib := WithChild(s, far, s.Child(far).(color := Black)));
    assert c1.sib.InOrder() == s.InOrder();
    FillInOrder(c1, t);
    var u := c1.Fill(t);
    if far == OnLeft { RotRInOrder(u); } else { RotLInOrder(u); }
    assert LiftChild(u, far).InOrder() == Borrowed(c, t).InOrder();
  }

  lemma BorrowedRedBlack(c: Ctx, t: Tree)
    requires Balanced(t) && !t.IsRed() && OuterRed(c, BlackHeight(t) + 1)
    ensures RedBlack(c.up.Plug(Borrowed(c, t)))
  {
    FitsIffRedBlack(c.up, Borrowed(c, t));
  }

  /** The whole tree as the new focus after the final rotation. */
  lemma BorrowedAt(m: seq<Cell>, root: int, c: Ctx, t: Tree)
    requires Balanced(t) && !t.IsRed() && OuterRed(c, BlackHeight(t) + 1)
    requires At(m, root, c.up, Borrowed(c, t))
    ensures
      var whole := c.up.Plug(Borrowed(c, t));
      && OneShort(m, root, Top, whole) && whole.Ptr() == root
      && Order(Top, whole) == Order(c, t)
  {
    BorrowedRedBlack(c, t);
    Zip(m, root, c.up, Borrowed(c, t));
    PlugInOrder(c.up, Borrowed(c, t));
    BorrowedOrder(c, t);
    var whole := c.up.Plug(Borrowed(c, t));
    assert Darken(whole) == whole;
    assert Order(Top, whole) == whole.InOrder();
  }

  // ---- the number of rounds ----

  /** Each round but the last takes the focus nearer to the root. */
  ghost predicate Repairing(rounds: nat, c: Ctx, t: Tree, c0: Ctx) {
    rounds + c.Depth() <= c0.Depth() || (t.IsRed() && rounds <= c0.Depth())
  }

  lemma RepairStarts(c: Ctx, t: Tree)
    ensures Repairing(0, c, t, c)
  {}

  lemma RepairedOnce(rounds: nat, c: Ctx, t: Tree, c': Ctx, t': Tree, c0: Ctx)
    requires Repairing(rounds, c, t, c0) && !t.IsRed() && c.Frame?
    requires c'.Top? || c'.Depth() < c.Depth() || (c'.Depth() == c.Depth() && t'.IsRed())
    ensures Repairing(rounds + 1, c', t', c0)
  {}

  lemma RepairEnds(rounds: nat, c: Ctx, t: Tree, c0: Ctx)
    requires Repairing(rounds, c, t, c0)
    ensures rounds <= c0.Depth()
  {}

  // ---- the last line ----

  /** Blackening a red focus, or the root, pays the missing black node. */
  lemma Paid(m: seq<Cell>, root: int, c: Ctx, t: Tree)
    requires OneShort(m, root, c, t) && (t.IsRed() || c.Top?)
    ensures t.Bin? ==> t.node < |m|
    ensures
      var m' := if t.Bin? then Paint(m, t.node, Black) else m;
      var whole := c.Plug(Darken(t));
      At(m', root, Top, whole) && RedBlack(whole) && whole.InOrder() == Order(c, t)
  {
    if t.Bin? {
      Painted(m, root, c, t, Black);
    }
    var m' := if t.Bin? then Paint(m, t.node, Black) else m;
    Zip(m', root, c, Darken(t));
    PlugInOrder(c, Darken(t));
    FitsIffRedBlack(c, Darken(t));
    assert Darken(t).InOrder() == t.InOrder();
  }

  // ---- starting the repair ----

  /** The tree after a node of the given colour was spliced out above t. */
  ghost predicate Lost(m: seq<Cell>, root: int, c: Ctx, t: Tree, color: Color) {
    if color == Black then OneShort(m, root, c, t)
    else At(m, root, c, t) && RedBlack(c.Plug(t))
  }

  /** A node with at most one child leaves, and the child moves up. */
  lemma LostFits(c: Ctx, t: Tree, side: Side)
    requires RedBlack(c.Plug(t)) && t.Bin? && t.Child(side.Other()).Nil?
    ensures
      var child := t.Child(side);
      && Balanced(child)
      && (if t.color == Black then Balanced(Darken(child)) && Fits(c, BlackHeight(child) + 1, false)
          else Fits(c, BlackHeight(child), child.IsRed()))
  {
    FitsIffRedBlack(c, t);
  }

  lemma OuterLost(m: seq<Cell>, root: int, c: Ctx, t: Tree, side: Side)
    requires RedBlack(c.Plug(t)) && t.Bin? && t.Child(side.Other()).Nil? && At(m, root, c, t.Child(side))
    ensures Lost(m, root, c, t.Child(side), t.color)
    ensures Order(c, t.Child(side)) == Without(c, t)
  {
    hide At;
    LostFits(c, t, side);
    FitsIffRedBlack(c, t.Child(side));
    assert t.Child(side.Other()).InOrder() == [];
  }

  /** What is asked of the hole does not depend on which node is above it. */
  lemma {:induction false} FitsRenamed(seg: Ctx, c: Ctx, n: nat, h: nat, red: bool)
    requires c.Frame? && Fits(Append(seg, c), h, red)
    ensures Fits(Append(seg, c.(node := n)), h, red)
  {
    if seg.Frame? {
      FitsRenamed(seg.up, c, n, h + (if seg.color == Black then 1 else 0), seg.color == Red);
    }
  }

  /** The order once the focus root is gone. */
  ghost function Without(c: Ctx, t: Tree): seq<nat>
    requires t.Bin?
  {
    c.Before() + t.left.InOrder() + t.right.InOrder() + c.After()
  }

  /** The in-order successor s of the focus root was spliced out and took its
      place: the order loses the focus root and nothing else. */
  lemma SuccessorOrder(c: Ctx, t: Tree, seg: Ctx, s: Tree)
    requires t.Bin? && seg.Plug(s) == t.right && s.Bin? && s.left.Nil? && seg.Before() == []
    ensures Order(Append(seg, Under(c, t.(node := s.node), OnRight)), s.right) == Without(c, t)
  {
    var c1 := Under(c, t.(node := s.node), OnRight);
    var r := seg.Plug(s.right);
    AppendOrder(seg, c1, s.right);
    FillInOrder(c1, r);
    LeftmostOrder(seg, s);
    Flatten(c.Before(), t.left.InOrder(), s.node, r.InOrder(), c.After());
    assert c1.Fill(r).InOrder() == t.left.InOrder() + [s.node] + r.InOrder();
  }

  lemma Flatten(b: seq<nat>, l: seq<nat>, x: nat, r: seq<nat>, a: seq<nat>)
    ensures b + (l + [x] + r) + a == b + l + ([x] + r) + a
  {}

  lemma LeftmostOrder(seg: Ctx, s: Tree)
    requires s.Bin? && s.left.Nil? && seg.Before() == []
    ensures seg.Plug(s).InOrder() == [s.node] + seg.Plug(s.right).InOrder()
  {
    PlugInOrder(seg, s);
    PlugInOrder(seg, s.right);
    EmptyFront(s.node, s.right.InOrder(), seg.After());
    assert s.left.InOrder() == [];
  }

  lemma EmptyFront(x: nat, r: seq<nat>, a: seq<nat>)
    ensures [] + ([] + [x] + r) + a == [x] + ([] + r + a)
  {}

  lemma {:induction false} AppendOrder(seg: Ctx, c: Ctx, t: Tree)
    ensures Order(Append(seg, c), t) == Order(c, seg.Plug(t))
  {
    if seg.Frame? {
      FillInOrder(Append(seg, c), t);
      AppendOrder(seg.up, c, seg.Fill(t));
    }
  }

  lemma SuccessorDepth(c: Ctx, t: Tree, seg: Ctx, s: Tree)
    requires t.Bin? && s.Bin? && seg.Plug(s) == t.right
    ensures seg.Depth() < Append(seg, Under(c, t.(node := s.node), OnRight)).Depth() <= Height(c.Plug(t))
  {
    AppendDepth(seg, Under(c, t.(node := s.node), OnRight));
    DepthBound(seg, s);
    DepthBound(c, t);
  }

  lemma {:induction false} AppendDepth(seg: Ctx, c: Ctx)
    ensures Append(seg, c).Depth() == seg.Depth() + c.Depth()
  {
    if seg.Frame? {
      AppendDepth(seg.up, c);
    }
  }

  lemma SuccessorLost(m: seq<Cell>, root: int, c: Ctx, t: Tree, seg: Ctx, s: Tree)
    requires RedBlack(c.Plug(t)) && t.Bin? && seg.Plug(s) == t.right && s.Bin? && s.left.Nil?
    requires At(m, root, Append(seg, Under(c, t.(node := s.node), OnRight)), s.right)
    ensures Lost(m, root, Append(seg, Under(c, t.(node := s.node), OnRight)), s.right, s.color)
  {
    var c1 := Under(c, t, OnRight);
    PlugAppend(seg, c1, s);
    LostFits(Append(seg, c1), s, OnRight);
    if s.color == Black {
      FitsRenamed(seg, c1, s.node, BlackHeight(s.right) + 1, false);
    } else {
      FitsRenamed(seg, c1, s.node, BlackHeight(s.right), s.right.IsRed());
    }
    FitsIffRedBlack(Append(seg, c1.(node := s.node)), s.right);
  }
}
