/** The colour conditions stated at the head of include/tree.h, for whole trees
    and for trees with a hole. */
module RBBalance {
  import opened Arena
  import opened RBShape

  /** Black nodes on the way from t to its leftmost leaf. */
  ghost function BlackHeight(t: Tree): nat {
    if t.Nil? then 0 else BlackHeight(t.left) + if t.color == Black then 1 else 0
  }

  /** Equal black counts on both sides of every node and no red node under a
      red parent. */
  ghost predicate Balanced(t: Tree) {
    t.Bin? ==>
      && Balanced(t.left) && Balanced(t.right)
      && BlackHeight(t.left) == BlackHeight(t.right)
      && (t.color == Red ==> !t.left.IsRed() && !t.right.IsRed())
  }

  ghost predicate RedBlack(t: Tree) {
    Balanced(t) && !t.IsRed()
  }

  /** Filling the hole of c with a balanced tree of black height h makes a
      red-black tree, where red says whether the root of the filling is red. */
  ghost predicate Fits(c: Ctx, h: nat, red: bool) {
    if c.Top? then !red else
      && Balanced(c.sib) && BlackHeight(c.sib) == h
      && (c.color == Red ==> !red && !c.sib.IsRed())
      && Fits(c.up, h + (if c.color == Black then 1 else 0), c.color == Red)
  }

  lemma {:induction false} FitsIffRedBlack(c: Ctx, t: Tree)
    ensures Balanced(t) && Fits(c, BlackHeight(t), t.IsRed()) <==> RedBlack(c.Plug(t))
  {
    if c.Frame? {
      FitsIffRedBlack(c.up, c.Fill(t));
    }
  }

  ghost function Paint(m: seq<Cell>, n: nat, color: Color): seq<Cell>
    requires n < |m|
  {
    m[n := m[n].(color := color)]
  }

  /** What the arena holds two levels above the focus. */
  lemma AboveFocus(m: seq<Cell>, root: int, c: Ctx, t: Tree)
    requires At(m, root, c, t) && c.Frame? && c.up.Frame?
    ensures
      var u := c.up.sib;
      && c.node < |m| && c.up.node < |m| && NULL <= u.Ptr() < |m|
      && (t.Bin? ==> t.node < |m| && m[t.node].parent == c.node)
      && m[c.node] == (if c.hole == OnLeft then Cell(t.Ptr(), c.sib.Ptr(), c.up.node, c.color)
                       else Cell(c.sib.Ptr(), t.Ptr(), c.up.node, c.color))
      && m[c.up.node] == (if c.up.hole == OnLeft then Cell(c.node, u.Ptr(), c.up.up.Ptr(), c.up.color)
                          else Cell(u.Ptr(), c.node, c.up.up.Ptr(), c.up.color))
      && (u.Bin? ==> m[u.node].color == u.color)
      && u.Ptr() != c.node && (t.Bin? ==> c.sib.Ptr() != t.node)
  {
    assert c.up.In(m, root, c.node);
    assert c.up.sib.In(m, c.up.node);
  }

  // ---- RB_INSERT_COLOR ----

  /** Uncle and parent black, grandparent red: the focus moves up two levels. */
  ghost function Lifted(c: Ctx, t: Tree): Tree
    requires c.Frame? && c.up.Frame? && c.up.sib.Bin?
  {
    c.up.(color := Red, sib := c.up.sib.(color := Black)).Fill(c.(color := Black).Fill(t))
  }

  lemma LiftedAt(m: seq<Cell>, root: int, c: Ctx, t: Tree)
    requires At(m, root, c, t) && c.Frame? && c.up.Frame? && c.up.sib.Bin?
    ensures c.up.sib.node < |m| && c.node < |m| && c.up.node < |m|
    ensures At(Paint(Paint(Paint(m, c.up.sib.node, Black), c.node, Black), c.up.node, Red), root, c.up.up, Lifted(c, t))
  {
    var t1 := c.Fill(t);
    MoveUp(m, root, c, t);
    var t2 := c.up.Fill(t1);
    MoveUp(m, root, c.up, t1);
    var other := c.up.hole.Other();
    MoveDown(m, root, c.up.up, t2, other);
    var cu := Under(c.up.up, t2, other);
    var u := c.up.sib;
    Painted(m, root, cu, u, Black);
    var m1 := Paint(m, u.node, Black);
    var u' := u.(color := Black);
    MoveUp(m1, root, cu, u');
    var t2' := cu.Fill(u');
    MoveDown(m1, root, c.up.up, t2', c.up.hole);
    var cp := Under(c.up.up, t2', c.up.hole);
    Painted(m1, root, cp, t1, Black);
    var m2 := Paint(m1, c.node, Black);
    MoveUp(m2, root, cp, t1.(color := Black));
    Painted(m2, root, c.up.up, cp.Fill(t1.(color := Black)), Red);
  }

  /** The state between two rounds of RB_INSERT_COLOR: t is red, and the edge
      above it is the only place where red may meet red. */
  ghost predicate RedEdge(m: seq<Cell>, root: int, c: Ctx, t: Tree) {
    At(m, root, c, t) && t.IsRed() && Balanced(t) && Fits(c, BlackHeight(t), false)
  }

  ghost function Order(c: Ctx, t: Tree): seq<nat> {
    c.Before() + t.InOrder() + c.After()
  }

  /** A red parent is never the root, so RB_INSERT_COLOR finds a grandparent. */
  lemma RedParent(m: seq<Cell>, root: int, c: Ctx, t: Tree)
    requires RedEdge(m, root, c, t)
    ensures At(m, root, c, t) && t.Bin? && t.node < |m| && m[t.node].parent == c.Ptr() && c.Ptr() < |m|
    ensures c.Frame? ==> m[c.node].color == c.color && (c.color == Red ==> c.up.Frame?)
  {
    assert c.Frame? ==> Fits(c.up, BlackHeight(t) + (if c.color == Black then 1 else 0), c.color == Red);
  }

  lemma LiftedRedEdge(m: seq<Cell>, root: int, c: Ctx, t: Tree)
    requires RedEdge(m, root, c, t) && c.Frame? && c.color == Red && c.up.Frame? && c.up.sib.IsRed()
    ensures c.up.sib.node < |m| && c.node < |m| && c.up.node < |m|
    ensures RedEdge(Paint(Paint(Paint(m, c.up.sib.node, Black), c.node, Black), c.up.node, Red), root, c.up.up,
                    Lifted(c, t))
    ensures Order(c.up.up, Lifted(c, t)) == Order(c, t)
  {
    LiftedAt(m, root, c, t);
    LiftedFits(c, t);
    FillInOrder(c, t);
    FillInOrder(c.up, c.Fill(t));
    assert c.(color := Black).Fill(t).InOrder() == c.Fill(t).InOrder();
    assert Lifted(c, t).InOrder() == c.up.Fill(c.Fill(t)).InOrder();
  }

  lemma LiftedFits(c: Ctx, t: Tree)
    requires t.IsRed() && Balanced(t) && Fits(c, BlackHeight(t), false)
    requires c.Frame? && c.color == Red && c.up.Frame? && c.up.sib.IsRed()
    ensures Lifted(c, t).IsRed() && Balanced(Lifted(c, t)) && Fits(c.up.up, BlackHeight(Lifted(c, t)), false)
  {}

  /** The rotation that lifts the child on the given side. */
  ghost function LiftChild(t: Tree, side: Side): Tree
    requires t.Bin? && t.Child(side).Bin?
  {
    if side == OnLeft then RotR(t) else RotL(t)
  }

  /** An inner grandchild is first turned outwards: the rotation at the parent
      leaves the old parent as the new focus. */
  lemma Turned(m: seq<Cell>, root: int, c: Ctx, t: Tree)
    requires t.IsRed() && Balanced(t) && c.Frame? && c.color == Red && Fits(c, BlackHeight(t), false)
    requires At(m, root, c.up, LiftChild(c.Fill(t), c.hole))
    ensures
      var t1 := LiftChild(c.Fill(t), c.hole);
      var side := c.hole.Other();
      && RedEdge(m, root, Under(c.up, t1, side), t1.Child(side))
      && t1.Child(side).node == c.node
      && Order(Under(c.up, t1, side), t1.Child(side)) == Order(c, t)
  {
    var pt := c.Fill(t);
    var t1 := LiftChild(pt, c.hole);
    var side := c.hole.Other();
    MoveDown(m, root, c.up, t1, side);
    FillInOrder(c, t);
    if c.hole == OnLeft { RotRInOrder(pt); } else { RotLInOrder(pt); }
    FillInOrder(Under(c.up, t1, side), t1.Child(side));
  }

  /** An outer grandchild: recolour, rotate at the grandparent, done. */
  ghost function Settle(c: Ctx, t: Tree): Tree
    requires c.Frame? && c.up.Frame? && c.up.hole == c.hole
  {
    LiftChild(c.up.(color := Red).Fill(c.(color := Black).Fill(t)), c.hole)
  }

  lemma SettledOrder(c: Ctx, t: Tree)
    requires c.Frame? && c.up.Frame? && c.up.hole == c.hole
    ensures Settle(c, t).Child(c.hole) == t
    ensures Order(Under(c.up.up, Settle(c, t), c.hole), t) == Order(c, t)
  {
    var t1 := c.(color := Black).Fill(t);
    var t2 := c.up.(color := Red).Fill(t1);
    FillInOrder(c, t);
    FillInOrder(c.up, c.Fill(t));
    assert t1.InOrder() == c.Fill(t).InOrder();
    assert t2.InOrder() == c.up.Fill(c.Fill(t)).InOrder();
    if c.hole == OnLeft { RotRInOrder(t2); } else { RotLInOrder(t2); }
    FillInOrder(Under(c.up.up, Settle(c, t), c.hole), t);
  }

  lemma Settled(m: seq<Cell>, root: int, c: Ctx, t: Tree)
    requires t.IsRed() && Balanced(t) && Fits(c, BlackHeight(t), false)
    requires c.Frame? && c.color == Red && c.up.Frame? && c.up.hole == c.hole && !c.up.sib.IsRed()
    requires At(m, root, c.up.up, Settle(c, t))
    ensures Settle(c, t).Child(c.hole) == t && Settle(c, t).color == Black
    ensures RedEdge(m, root, Under(c.up.up, Settle(c, t), c.hole), t)
    ensures Order(Under(c.up.up, Settle(c, t), c.hole), t) == Order(c, t)
  {
    SettledOrder(c, t);
    MoveDown(m, root, c.up.up, Settle(c, t), c.hole);
  }

  /** Parent black and grandparent red, as RB_SET_BLACKRED writes them. */
  lemma BlackRedAt(m: seq<Cell>, root: int, c: Ctx, t: Tree)
    requires At(m, root, c, t) && c.Frame? && c.up.Frame?
    ensures c.node < |m| && c.up.node < |m|
    ensures At(Paint(Paint(m, c.node, Black), c.up.node, Red), root, c.up.up,
               c.up.(color := Red).Fill(c.(color := Black).Fill(t)))
  {
    MoveUp(m, root, c, t);
    Painted(m, root, c.up, c.Fill(t), Black);
    var m1 := Paint(m, c.node, Black);
    MoveUp(m1, root, c.up, c.(color := Black).Fill(t));
    Painted(m1, root, c.up.up, c.up.Fill(c.(color := Black).Fill(t)), Red);
  }

  lemma {:induction false} RootIsBlack(m: seq<Cell>, root: int, c: Ctx, child: int, h: nat, red: bool)
    requires c.Frame? && c.In(m, root, child) && Fits(c, h, red)
    ensures 0 <= root < |m| && m[root].color == Black
  {
    if c.up.Frame? {
      RootIsBlack(m, root, c.up, c.node, h + (if c.color == Black then 1 else 0), c.color == Red);
    }
  }

  /** The last line of RB_INSERT_COLOR: the root turns black. */
  lemma RootBlackened(m: seq<Cell>, root: int, c: Ctx, t: Tree)
    requires RedEdge(m, root, c, t) && (c.Frame? ==> c.color == Black)
    ensures 0 <= root < |m|
    ensures
      var t' := if c.Top? then t.(color := Black) else t;
      At(Paint(m, root, Black), root, Top, c.Plug(t')) && RedBlack(c.Plug(t'))
  {
    if c.Top? {
      Painted(m, root, c, t, Black);
    } else {
      RootIsBlack(m, root, c, t.node, BlackHeight(t), false);
      assert Paint(m, root, Black) == m;
      Zip(m, root, c, t);
      FitsIffRedBlack(c, t);
    }
  }

  lemma BlackenedOrder(c: Ctx, t: Tree)
    requires t.Bin?
    ensures c.Plug(if c.Top? then t.(color := Black) else t).InOrder() == Order(c, t)
  {
    PlugInOrder(c, if c.Top? then t.(color := Black) else t);
  }

  // ---- the height bound ----

  ghost function Height(t: Tree): nat {
    if t.Nil? then 0
    else 1 + if Height(t.left) < Height(t.right) then Height(t.right) else Height(t.left)
  }

  lemma {:induction false} DepthBound(c: Ctx, t: Tree)
    ensures c.Depth() + Height(t) <= Height(c.Plug(t))
  {
    if c.Frame? {
      DepthBound(c.up, c.Fill(t));
    }
  }

  ghost function Pow2(n: nat): (r: nat)
    ensures r > 0
  {
    if n == 0 then 1 else 2 * Pow2(n - 1)
  }

  lemma {:induction false} Pow2Sum(a: nat, b: nat)
    ensures Pow2(a + b) == Pow2(a) * Pow2(b)
  {
    if a > 0 {
      Pow2Sum(a - 1, b);
    }
  }

  lemma {:induction false} Pow2Monotone(a: nat, b: nat)
    requires a <= b
    ensures Pow2(a) <= Pow2(b)
  {
    if a < b {
      Pow2Monotone(a, b - 1);
    }
  }

  /** Black nodes alone already fill a perfect tree, and red nodes at most
      double the height. */
  lemma {:induction false} BlackHeightBounds(t: Tree)
    requires Balanced(t)
    ensures Pow2(BlackHeight(t)) <= |t.InOrder()| + 1
    ensures Height(t) <= 2 * BlackHeight(t) + if t.IsRed() then 1 else 0
  {
    if t.Bin? {
      BlackHeightBounds(t.left);
      BlackHeightBounds(t.right);
    }
  }

  /** h <= 2 lg (n + 1), without the logarithm. */
  ghost predicate AtMostTwiceLog(h: nat, n: nat) {
    Pow2(h) <= (n + 1) * (n + 1)
  }

  lemma HeightBound(t: Tree)
    requires RedBlack(t)
    ensures AtMostTwiceLog(Height(t), |t.InOrder()|)
  {
    var b, n := BlackHeight(t), |t.InOrder()| + 1;
    BlackHeightBounds(t);
    Pow2Monotone(Height(t), b + b);
    Pow2Sum(b, b);
    Square(Pow2(b), n);
  }

  lemma Square(a: nat, b: nat)
    requires a <= b
    ensures a * a <= b * b
  {}

  /** The number of black nodes along a path of left and right turns, when the
      path ends at a leaf. */
  ghost function BlacksOn(t: Tree, path: seq<Side>): int {
    if t.Nil? then (if path == [] then 0 else -1)
    else if path == [] then -1
    else
      var below := BlacksOn(t.Child(path[0]), path[1..]);
      if below < 0 then -1 else below + if t.color == Black then 1 else 0
  }

  /** Every search path from the root to a leaf has the same number of black
      nodes, as the header comment of include/tree.h asks. */
  lemma {:induction false} EveryPathAlike(t: Tree, path: seq<Side>)
    requires Balanced(t) && BlacksOn(t, path) >= 0
    ensures BlacksOn(t, path) == BlackHeight(t)
  {
    if t.Bin? {
      EveryPathAlike(t.Child(path[0]), path[1..]);
    }
  }
}
