module RBTree {
  import opened Arena
  import opened RBShape
  import opened RBBalance
  import opened RBDeficit
  import opened RBSearch
  import opened Ordered

  class Head {
    var root: int
    const cell: array<Cell>
    const key: nat -> int
    ghost var tree: Tree

    /** The nodes of the tree in order. */
    ghost function Contents(): seq<nat>
      reads this
    {
      tree.InOrder()
    }

    ghost predicate Valid()
      reads this, cell
    {
      At(cell[..], root, Top, tree) && RedBlack(tree) && Sorted(Contents(), key)
    }

    constructor (capacity: nat, key: nat -> int)
      ensures Valid() && fresh(cell)
      ensures Contents() == [] && cell.Length == capacity && this.key == key
    {
      root := NULL;
      cell := new Cell[capacity](_ => Cell(NULL, NULL, NULL, Black));
      this.key := key;
      tree := Nil;
    }

    /** Parent p, or the head when there is none, points to now instead of was. */
    method ReplaceChild(p: int, was: nat, now: int)
      requires NULL <= p < cell.Length
      modifies this`root, cell
      ensures root == if p == NULL then now else old(root)
      ensures cell[..] == if p == NULL then old(cell[..])
                          else old(cell[..])[p := if old(cell[p]).left == was then old(cell[p]).(left := now)
                                                  else old(cell[p]).(right := now)]
    {
      if p != NULL {
        if was == cell[p].left {
          cell[p] := cell[p].(left := now);
        } else {
          cell[p] := cell[p].(right := now);
        }
      } else {
        root := now;
      }
    }

    method RotateLeft(elm: nat, ghost c: Ctx, ghost t: Tree) returns (tmp: nat)
      requires At(cell[..], root, c, t)
      requires t.Bin? && t.right.Bin? && t.node == elm
      modifies this`root, cell
      ensures At(cell[..], root, c, RotL(t))
      ensures tmp == t.right.node
    {
      ghost var m := cell[..];
      RotCells(m, root, c, t, OnLeft);
      tmp := cell[elm].right;
      cell[elm] := cell[elm].(right := cell[tmp].left);
      if cell[tmp].left != NULL {
        cell[cell[tmp].left] := cell[cell[tmp].left].(parent := elm);
      }
      cell[tmp] := cell[tmp].(parent := cell[elm].parent);
      ReplaceChild(cell[elm].parent, elm, tmp);
      cell[tmp] := cell[tmp].(left := elm);
      cell[elm] := cell[elm].(parent := tmp);
      RotLAt(m, cell[..], old(root), c, t);
    }

    method RotateRight(elm: nat, ghost c: Ctx, ghost t: Tree) returns (tmp: nat)
      requires At(cell[..], root, c, t)
      requires t.Bin? && t.left.Bin? && t.node == elm
      modifies this`root, cell
      ensures At(cell[..], root, c, RotR(t))
      ensures tmp == t.left.node
    {
      ghost var m := cell[..];
      RotCells(m, root, c, t, OnRight);
      tmp := cell[elm].left;
      cell[elm] := cell[elm].(left := cell[tmp].right);
      if cell[tmp].right != NULL {
        cell[cell[tmp].right] := cell[cell[tmp].right].(parent := elm);
      }
      cell[tmp] := cell[tmp].(parent := cell[elm].parent);
      ReplaceChild(cell[elm].parent, elm, tmp);
      cell[tmp] := cell[tmp].(right := elm);
      cell[elm] := cell[elm].(parent := tmp);
      RotRAt(m, cell[..], old(root), c, t);
    }

    /** One round of RB_INSERT_COLOR with the parent on the left. */
    method InsertFixLeft(elm0: nat, ghost c0: Ctx, ghost t0: Tree) returns (elm: nat, ghost c: Ctx, ghost t: Tree)
      requires RedEdge(cell[..], root, c0, t0) && t0.node == elm0
      requires c0.Frame? && c0.color == Red && c0.up.Frame? && c0.up.hole == OnLeft
      modifies this`root, cell
      ensures RedEdge(cell[..], root, c, t) && t.node == elm
      ensures Order(c, t) == Order(c0, t0)
      ensures c.Depth() < c0.Depth()
    {
      elm, c, t := elm0, c0, t0;
      hide At;
      AboveFocus(cell[..], root, c, t);
      var parent: nat := cell[elm].parent;
      var gparent: nat := cell[parent].parent;
      var uncle := cell[gparent].right;
      if uncle != NULL && cell[uncle].color == Red {
        LiftedRedEdge(cell[..], root, c, t);
        cell[uncle] := cell[uncle].(color := Black);
        cell[parent] := cell[parent].(color := Black);
        cell[gparent] := cell[gparent].(color := Red);
        elm := gparent;
        c, t := c.up.up, Lifted(c, t);
        return;
      }
      if cell[parent].right == elm {
        MoveUp(cell[..], root, c, t);
        var tmp := RotateLeft(parent, c.up, c.Fill(t));
        Turned(cell[..], root, c, t);
        t := LiftChild(c.Fill(t), OnRight).left;
        c := Under(c.up, LiftChild(c0.Fill(t0), OnRight), OnLeft);
        tmp := parent;
        parent := elm;
        elm := tmp;
      }
      BlackRedAt(cell[..], root, c, t);
      cell[parent] := cell[parent].(color := Black);
      cell[gparent] := cell[gparent].(color := Red);
      ghost var t2 := c.up.(color := Red).Fill(c.(color := Black).Fill(t));
      var tmp := RotateRight(gparent, c.up.up, t2);
      Settled(cell[..], root, c, t);
      c := Under(c.up.up, RotR(t2), OnLeft);
    }

    /** One round of RB_INSERT_COLOR with the parent on the right. */
    method InsertFixRight(elm0: nat, ghost c0: Ctx, ghost t0: Tree) returns (elm: nat, ghost c: Ctx, ghost t: Tree)
      requires RedEdge(cell[..], root, c0, t0) && t0.node == elm0
      requires c0.Frame? && c0.color == Red && c0.up.Frame? && c0.up.hole == OnRight
      modifies this`root, cell
      ensures RedEdge(cell[..], root, c, t) && t.node == elm
      ensures Order(c, t) == Order(c0, t0)
      ensures c.Depth() < c0.Depth()
    {
      elm, c, t := elm0, c0, t0;
      hide At;
      AboveFocus(cell[..], root, c, t);
      var parent: nat := cell[elm].parent;
      var gparent: nat := cell[parent].parent;
      var uncle := cell[gparent].left;
      if uncle != NULL && cell[uncle].color == Red {
        LiftedRedEdge(cell[..], root, c, t);
        cell[uncle] := cell[uncle].(color := Black);
        cell[parent] := cell[parent].(color := Black);
        cell[gparent] := cell[gparent].(color := Red);
        elm := gparent;
        c, t := c.up.up, Lifted(c, t);
        return;
      }
      if cell[parent].left == elm {
        MoveUp(cell[..], root, c, t);
        var tmp := RotateRight(parent, c.up, c.Fill(t));
        Turned(cell[..], root, c, t);
        t := LiftChild(c.Fill(t), OnLeft).right;
        c := Under(c.up, LiftChild(c0.Fill(t0), OnLeft), OnRight);
        tmp := parent;
        parent := elm;
        elm := tmp;
      }
      BlackRedAt(cell[..], root, c, t);
      cell[parent] := cell[parent].(color := Black);
      cell[gparent] := cell[gparent].(color := Red);
      ghost var t2 := c.up.(color := Red).Fill(c.(color := Black).Fill(t));
      var tmp := RotateLeft(gparent, c.up.up, t2);
      Settled(cell[..], root, c, t);
      c := Under(c.up.up, RotL(t2), OnRight);
    }

    /** One round of RB_INSERT_COLOR, below a red parent. */
    method InsertRound(elm0: nat, ghost c0: Ctx, ghost t0: Tree) returns (elm: nat, ghost c: Ctx, ghost t: Tree)
      requires RedEdge(cell[..], root, c0, t0) && t0.node == elm0 && c0.Frame? && c0.color == Red
      modifies this`root, cell
      ensures RedEdge(cell[..], root, c, t) && t.node == elm
      ensures Order(c, t) == Order(c0, t0)
      ensures c.Depth() < c0.Depth()
    {
      hide RedEdge, At, Order;
      RedParent(cell[..], root, c0, t0);
      var parent: nat := cell[elm0].parent;
      AboveFocus(cell[..], root, c0, t0);
      var gparent: nat := cell[parent].parent;
      if parent == cell[gparent].left {
        elm, c, t := InsertFixLeft(elm0, c0, t0);
      } else {
        elm, c, t := InsertFixRight(elm0, c0, t0);
      }
      RedParent(cell[..], root, c, t);
    }

    /** RB_INSERT_COLOR. Its loop runs no more often than the focus is deep. */
    method InsertColor(elm0: nat, ghost c0: Ctx, ghost t0: Tree) returns (ghost whole: Tree, ghost rounds: nat)
      requires RedEdge(cell[..], root, c0, t0) && t0.node == elm0
      modifies this`root, cell
      ensures At(cell[..], root, Top, whole) && RedBlack(whole)
      ensures whole.InOrder() == Order(c0, t0)
      ensures rounds <= c0.Depth()
    {
      hide RedEdge, At, RedBlack, Order;
      var elm := elm0;
      rounds := 0;
      ghost var c, t := c0, t0;
      RedParent(cell[..], root, c, t);
      while cell[elm].parent != NULL && cell[cell[elm].parent].color == Red
        invariant RedEdge(cell[..], root, c, t) && t.Bin? && t.node == elm < cell.Length
        invariant Order(c, t) == Order(c0, t0) && rounds + c.Depth() <= c0.Depth()
        invariant cell[elm].parent == c.Ptr() && (c.Frame? ==> c.node < cell.Length && cell[c.node].color == c.color)
        decreases c.Depth()
      {
        elm, c, t := InsertRound(elm, c, t);
        rounds := rounds + 1;
        RedParent(cell[..], root, c, t);
      }
      whole := c.Plug(if c.Top? then t.(color := Black) else t);
      BlackenedOrder(c, t);
      RootBlackened(cell[..], root, c, t);
      cell[root] := cell[root].(color := Black);
    }

    /** The descent of RB_INSERT: an empty place for k, or the node that has it. */
    method InsertPoint(k: int) returns (tmp: int, parent: int, comp: int, ghost steps: nat, ghost c: Ctx, ghost t: Tree)
      requires Valid()
      ensures Seeking(cell[..], root, c, t, Contents(), key, k) && c.Plug(t) == tree
      ensures tmp == t.Ptr() && (if t.Bin? then key(t.node) == k else parent == c.Ptr())
      ensures t.Nil? && c.Frame? ==> if c.hole == OnLeft then comp < 0 else comp > 0
      ensures if tmp == NULL then forall x :: x in Contents() ==> key(x) != k else tmp in Contents() && key(tmp) == k
      ensures AtMostTwiceLog(steps, |Contents()|) && c.Depth() <= steps
    {
      hide Seeking, Valid, AtMostTwiceLog, RedBlack;
      parent := NULL;
      comp := 0;
      tmp := root;
      c, t := Top, tree;
      steps := 0;
      ghost var m, s := cell[..], Contents();
      Started();
      while tmp != NULL
        invariant Seeking(m, root, c, t, s, key, k) && c.Plug(t) == tree
        invariant tmp == t.Ptr() && parent == c.Ptr()
        invariant c.Frame? ==> if c.hole == OnLeft then comp < 0 else comp > 0
        invariant steps + Height(t) <= Height(tree) && c.Depth() == steps
        decreases t
      {
        parent := tmp;
        comp := k - key(parent);
        steps := steps + 1;
        SeekDown(m, root, c, t, s, key, k);
        if comp < 0 {
          tmp := cell[tmp].left;
          c, t := Under(c, t, OnLeft), t.left;
        } else if comp > 0 {
          tmp := cell[tmp].right;
          c, t := Under(c, t, OnRight), t.right;
        } else {
          StepsBound(tree, steps);
          return;
        }
      }
      SoughtInVain(m, root, c, s, key, k);
      StepsBound(tree, steps);
    }

    /** RB_INSERT: null when elm went in at its sorted place, otherwise the node
        that already has its key. The descent takes at most 2 lg (n + 1) steps,
        and the recolouring no more rounds than that. */
    method Insert(elm: nat) returns (r: int, ghost at: nat, ghost steps: nat, ghost rounds: nat)
      requires Valid() && elm < cell.Length
      modifies this, cell
      ensures Valid()
      ensures r == NULL <==> forall x :: x in old(Contents()) ==> key(x) != key(elm)
      ensures r == NULL ==>
              at <= |old(Contents())| && Contents() == old(Contents())[..at] + [elm] + old(Contents())[at..]
      ensures r != NULL ==> r in old(Contents()) && key(r) == key(elm)
      ensures r != NULL ==> cell[..] == old(cell[..]) && root == old(root) && tree == old(tree)
      ensures AtMostTwiceLog(steps, |old(Contents())|) && rounds <= steps
    {
      ghost var c, t;
      var tmp, parent, comp;
      hide AtMostTwiceLog;
      tmp, parent, comp, steps, c, t := InsertPoint(key(elm));
      at := |c.Before()|;
      if tmp != NULL {
        assert t.node in t.InOrder();
        return tmp, at, steps, 0;
      }
      NotInCtx(c, key, elm);
      HungAt(cell[..], root, c, elm);
      cell[elm] := Cell(NULL, NULL, parent, Red);
      if parent != NULL {
        if comp < 0 {
          cell[parent] := cell[parent].(left := elm);
        } else {
          cell[parent] := cell[parent].(right := elm);
        }
      } else {
        root := elm;
      }
      InsertedSorted(c, elm, key);
      FitsIffRedBlack(c, Nil);
      tree, rounds := InsertColor(elm, c, Leaf(elm));
      return NULL, at, steps, rounds;
    }

    /** RB_REMOVE_COLOR, elm on the left: a red sibling becomes black. */
    method RemoveRedSiblingLeft(parent: nat, tmp0: nat, ghost c0: Ctx, ghost t: Tree) returns (tmp: nat, ghost c: Ctx)
      requires OneShort(cell[..], root, c0, t) && c0.Frame? && c0.hole == OnLeft
      requires c0.node == parent && c0.sib.IsRed() && c0.sib.node == tmp0
      modifies this`root, cell
      ensures OneShort(cell[..], root, c, t) && Order(c, t) == Order(c0, t)
      ensures c == BelowSibling(c0) && c.sib.Bin? && c.sib.color == Black && tmp == c.sib.node
    {
      PaintSib(cell[..], root, c0, t, Black);
      cell[tmp0] := cell[tmp0].(color := Black);
      ghost var c1 := c0.(sib := c0.sib.(color := Black));
      PaintParent(cell[..], root, c1, t, Red);
      cell[parent] := cell[parent].(color := Red);
      c1 := c1.(color := Red);
      MoveUp(cell[..], root, c1, t);
      tmp := RotateLeft(parent, c0.up, c1.Fill(t));
      RedSibling(cell[..], root, c0, t);
      c := BelowSibling(c0);
      SiblingExists(cell[..], root, c, t);
      tmp := cell[parent].right;
    }

    /** The outer nephew is black: the inner one is turned over the sibling. */
    method RemoveTurnSiblingLeft(parent: nat, tmp0: nat, ghost c: Ctx, ghost t: Tree) returns (tmp: nat)
      requires At(cell[..], root, c, t) && c.Frame? && c.hole == OnLeft && c.node == parent
      requires c.sib.Bin? && c.sib.node == tmp0 && c.sib.left.Bin?
      modifies this`root, cell
      ensures At(cell[..], root, TurnedSib(c), t)
      ensures tmp == TurnedSib(c).sib.node
    {
      NephewCells(cell[..], root, c, t);
      var oleft := cell[tmp0].left;
      if oleft != NULL {
        PaintNephew(cell[..], root, c, t, OnLeft, Black);
        cell[oleft] := cell[oleft].(color := Black);
      }
      ghost var c1 := c.(sib := c.sib.(left := c.sib.left.(color := Black)));
      PaintSib(cell[..], root, c1, t, Red);
      cell[tmp0] := cell[tmp0].(color := Red);
      c1 := c1.(sib := c1.sib.(color := Red));
      AtSibling(cell[..], root, c1, t);
      ghost var cs := Frame(c1.up, c1.node, c1.color, t, c1.hole.Other());
      var o := RotateRight(tmp0, cs, c1.sib);
      AtSibling(cell[..], root, cs, TurnedSib(c).sib);
      tmp := cell[parent].right;
    }

    /** The outer nephew is red: recolour and rotate at the parent. */
    method RemoveBorrowLeft(parent: nat, tmp: nat, ghost c: Ctx, ghost t: Tree)
      requires At(cell[..], root, c, t) && c.Frame? && c.hole == OnLeft && c.node == parent
      requires c.sib.Bin? && c.sib.node == tmp && c.sib.right.Bin?
      modifies this`root, cell
      ensures At(cell[..], root, c.up, Borrowed(c, t))
    {
      NephewCells(cell[..], root, c, t);
      PaintSib(cell[..], root, c, t, c.color);
      cell[tmp] := cell[tmp].(color := cell[parent].color);
      ghost var c1 := c.(sib := c.sib.(color := c.color));
      PaintParent(cell[..], root, c1, t, Black);
      cell[parent] := cell[parent].(color := Black);
      c1 := c1.(color := Black);
      NephewCells(cell[..], root, c1, t);
      if cell[tmp].right != NULL {
        PaintNephew(cell[..], root, c1, t, OnRight, Black);
        cell[cell[tmp].right] := cell[cell[tmp].right].(color := Black);
      }
      c1 := c1.(sib := c1.sib.(right := c1.sib.right.(color := Black)));
      MoveUp(cell[..], root, c1, t);
      var o := RotateLeft(parent, c.up, c1.Fill(t));
    }

    /** RB_REMOVE_COLOR, elm on the right: a red sibling becomes black. */
    method RemoveRedSiblingRight(parent: nat, tmp0: nat, ghost c0: Ctx, ghost t: Tree) returns (tmp: nat, ghost c: Ctx)
      requires OneShort(cell[..], root, c0, t) && c0.Frame? && c0.hole == OnRight
      requires c0.node == parent && c0.sib.IsRed() && c0.sib.node == tmp0
      modifies this`root, cell
      ensures OneShort(cell[..], root, c, t) && Order(c, t) == Order(c0, t)
      ensures c == BelowSibling(c0) && c.sib.Bin? && c.sib.color == Black && tmp == c.sib.node
    {
      PaintSib(cell[..], root, c0, t, Black);
      cell[tmp0] := cell[tmp0].(color := Black);
      ghost var c1 := c0.(sib := c0.sib.(color := Black));
      PaintParent(cell[..], root, c1, t, Red);
      cell[parent] := cell[parent].(color := Red);
      c1 := c1.(color := Red);
      MoveUp(cell[..], root, c1, t);
      tmp := RotateRight(parent, c0.up, c1.Fill(t));
      RedSibling(cell[..], root, c0, t);
      c := BelowSibling(c0);
      SiblingExists(cell[..], root, c, t);
      tmp := cell[parent].left;
    }

    /** The outer nephew is black: the inner one is turned over the sibling. */
    method RemoveTurnSiblingRight(parent: nat, tmp0: nat, ghost c: Ctx, ghost t: Tree) returns (tmp: nat)
      requires At(cell[..], root, c, t) && c.Frame? && c.hole == OnRight && c.node == parent
      requires c.sib.Bin? && c.sib.node == tmp0 && c.sib.right.Bin?
      modifies this`root, cell
      ensures At(cell[..], root, TurnedSib(c), t)
      ensures tmp == TurnedSib(c).sib.node
    {
      NephewCells(cell[..], root, c, t);
      var oright := cell[tmp0].right;
      if oright != NULL {
        PaintNephew(cell[..], root, c, t, OnRight, Black);
        cell[oright] := cell[oright].(color := Black);
      }
      ghost var c1 := c.(sib := c.sib.(right := c.sib.right.(color := Black)));
      PaintSib(cell[..], root, c1, t, Red);
      cell[tmp0] := cell[tmp0].(color := Red);
      c1 := c1.(sib := c1.sib.(color := Red));
      AtSibling(cell[..], root, c1, t);
      ghost var cs := Frame(c1.up, c1.node, c1.color, t, c1.hole.Other());
      var o := RotateLeft(tmp0, cs, c1.sib);
      AtSibling(cell[..], root, cs, TurnedSib(c).sib);
      tmp := cell[parent].left;
    }

    /** The outer nephew is red: recolour and rotate at the parent. */
    method RemoveBorrowRight(parent: nat, tmp: nat, ghost c: Ctx, ghost t: Tree)
      requires At(cell[..], root, c, t) && c.Frame? && c.hole == OnRight && c.node == parent
      requires c.sib.Bin? && c.sib.node == tmp && c.sib.left.Bin?
      modifies this`root, cell
      ensures At(cell[..], root, c.up, Borrowed(c, t))
    {
      NephewCells(cell[..], root, c, t);
      PaintSib(cell[..], root, c, t, c.color);
      cell[tmp] := cell[tmp].(color := cell[parent].color);
      ghost var c1 := c.(sib := c.sib.(color := c.color));
      PaintParent(cell[..], root, c1, t, Black);
      cell[parent] := cell[parent].(color := Black);
      c1 := c1.(color := Black);
      NephewCells(cell[..], root, c1, t);
      if cell[tmp].left != NULL {
        PaintNephew(cell[..], root, c1, t, OnLeft, Black);
        cell[cell[tmp].left] := cell[cell[tmp].left].(color := Black);
      }
      c1 := c1.(sib := c1.sib.(left := c1.sib.left.(color := Black)));
      MoveUp(cell[..], root, c1, t);
      var o := RotateRight(parent, c.up, c1.Fill(t));
    }

    /** A black sibling with a red child: the missing black node is found. */
    method RemoveSettleLeft(parent: nat, tmp0: nat, ghost c0: Ctx, ghost t: Tree) returns (ghost whole: Tree)
      requires OneShort(cell[..], root, c0, t) && c0.Frame? && c0.hole == OnLeft && !t.IsRed() && c0.node == parent
      requires c0.sib.Bin? && c0.sib.color == Black && c0.sib.node == tmp0
      requires c0.sib.left.IsRed() || c0.sib.right.IsRed()
      modifies this`root, cell
      ensures OneShort(cell[..], root, Top, whole) && whole.Ptr() == root
      ensures Order(Top, whole) == Order(c0, t)
    {
      var tmp := tmp0;
      ghost var c := c0;
      NephewCells(cell[..], root, c, t);
      if cell[tmp].right == NULL || cell[cell[tmp].right].color == Black {
        TurnedSibFits(c, BlackHeight(t) + 1);
        TurnedSibOrder(c, t);
        tmp := RemoveTurnSiblingLeft(parent, tmp, c, t);
        c := TurnedSib(c);
      } else {
        OuterRedFits(c, BlackHeight(t) + 1);
      }
      RemoveBorrowLeft(parent, tmp, c, t);
      BorrowedAt(cell[..], root, c, t);
      whole := c.up.Plug(Borrowed(c, t));
    }

    /** One round of RB_REMOVE_COLOR with elm on the left. */
    method RemoveFixLeft(parent0: nat, elm0: int, ghost c0: Ctx, ghost t0: Tree)
      returns (parent: int, elm: int, done: bool, ghost c: Ctx, ghost t: Tree)
      requires OneShort(cell[..], root, c0, t0) && c0.Frame? && c0.hole == OnLeft && !t0.IsRed()
      requires c0.node == parent0 && t0.Ptr() == elm0
      modifies this`root, cell
      ensures OneShort(cell[..], root, c, t) && Order(c, t) == Order(c0, t0)
      ensures elm == t.Ptr() && (done ==> c.Top?)
      ensures !done ==> parent == c.Ptr() && (c.Depth() < c0.Depth() || (c.Depth() == c0.Depth() && t.IsRed()))
    {
      c, t := c0, t0;
      parent, elm, done := parent0, elm0, false;
      hide OneShort, At, Order;
      SiblingExists(cell[..], root, c, t);
      var tmp: nat := cell[parent].right;
      NephewCells(cell[..], root, c, t);
      if cell[tmp].color == Red {
        tmp, c := RemoveRedSiblingLeft(parent, tmp, c, t);
        SiblingExists(cell[..], root, c, t);
        NephewCells(cell[..], root, c, t);
      }
      if (cell[tmp].left == NULL || cell[cell[tmp].left].color == Black) &&
         (cell[tmp].right == NULL || cell[cell[tmp].right].color == Black) {
        PushUp(cell[..], root, c, t);
        cell[tmp] := cell[tmp].(color := Red);
        c, t := c.up, PushedUp(c, t);
        SiblingExists(cell[..], root, c, t);
        elm := parent;
        parent := cell[elm].parent;
      } else {
        t := RemoveSettleLeft(parent, tmp, c, t);
        c := Top;
        elm := root;
        done := true;
      }
    }

    /** A black sibling with a red child: the missing black node is found. */
    method RemoveSettleRight(parent: nat, tmp0: nat, ghost c0: Ctx, ghost t: Tree) returns (ghost whole: Tree)
      requires OneShort(cell[..], root, c0, t) && c0.Frame? && c0.hole == OnRight && !t.IsRed() && c0.node == parent
      requires c0.sib.Bin? && c0.sib.color == Black && c0.sib.node == tmp0
      requires c0.sib.left.IsRed() || c0.sib.right.IsRed()
      modifies this`root, cell
      ensures OneShort(cell[..], root, Top, whole) && whole.Ptr() == root
      ensures Order(Top, whole) == Order(c0, t)
    {
      var tmp := tmp0;
      ghost var c := c0;
      NephewCells(cell[..], root, c, t);
      if cell[tmp].left == NULL || cell[cell[tmp].left].color == Black {
        TurnedSibFits(c, BlackHeight(t) + 1);
        TurnedSibOrder(c, t);
        tmp := RemoveTurnSiblingRight(parent, tmp, c, t);
        c := TurnedSib(c);
      } else {
        OuterRedFits(c, BlackHeight(t) + 1);
      }
      RemoveBorrowRight(parent, tmp, c, t);
      BorrowedAt(cell[..], root, c, t);
      whole := c.up.Plug(Borrowed(c, t));
    }

    /** One round of RB_REMOVE_COLOR with elm on the right. */
    method RemoveFixRight(parent0: nat, elm0: int, ghost c0: Ctx, ghost t0: Tree)
      returns (parent: int, elm: int, done: bool, ghost c: Ctx, ghost t: Tree)
      requires OneShort(cell[..], root, c0, t0) && c0.Frame? && c0.hole == OnRight && !t0.IsRed()
      requires c0.node == parent0 && t0.Ptr() == elm0
      modifies this`root, cell
      ensures OneShort(cell[..], root, c, t) && Order(c, t) == Order(c0, t0)
      ensures elm == t.Ptr() && (done ==> c.Top?)
      ensures !done ==> parent == c.Ptr() && (c.Depth() < c0.Depth() || (c.Depth() == c0.Depth() && t.IsRed()))
    {
      c, t := c0, t0;
      parent, elm, done := parent0, elm0, false;
      hide OneShort, At, Order;
      SiblingExists(cell[..], root, c, t);
      var tmp: nat := cell[parent].left;
      NephewCells(cell[..], root, c, t);
      if cell[tmp].color == Red {
        tmp, c := RemoveRedSiblingRight(parent, tmp, c, t);
        SiblingExists(cell[..], root, c, t);
        NephewCells(cell[..], root, c, t);
      }
      if (cell[tmp].left == NULL || cell[cell[tmp].left].color == Black) &&
         (cell[tmp].right == NULL || cell[cell[tmp].right].color == Black) {
        PushUp(cell[..], root, c, t);
        cell[tmp] := cell[tmp].(color := Red);
        c, t := c.up, PushedUp(c, t);
        SiblingExists(cell[..], root, c, t);
        elm := parent;
        parent := cell[elm].parent;
      } else {
        t := RemoveSettleRight(parent, tmp, c, t);
        c := Top;
        elm := root;
        done := true;
      }
    }

    /** One round of RB_REMOVE_COLOR. */
    method RemoveRound(parent0: nat, elm0: int, ghost c0: Ctx, ghost t0: Tree)
      returns (parent: int, elm: int, done: bool, ghost c: Ctx, ghost t: Tree)
      requires OneShort(cell[..], root, c0, t0) && parent0 == c0.Ptr() && elm0 == t0.Ptr() && !t0.IsRed()
      modifies this`root, cell
      ensures OneShort(cell[..], root, c, t) && Order(c, t) == Order(c0, t0)
      ensures elm == t.Ptr() && (if done then c.Top? else parent == c.Ptr())
      ensures c.Top? || c.Depth() < c0.Depth() || (c.Depth() == c0.Depth() && t.IsRed())
    {
      hide OneShort, Order, At;
      SiblingExists(cell[..], root, c0, t0);
      if cell[parent0].left == elm0 {
        parent, elm, done, c, t := RemoveFixLeft(parent0, elm0, c0, t0);
      } else {
        parent, elm, done, c, t := RemoveFixRight(parent0, elm0, c0, t0);
      }
    }

    /** RB_REMOVE_COLOR. Its loop runs no more often than the focus is deep. */
    method RemoveColor(parent0: int, elm0: int, ghost c0: Ctx, ghost t0: Tree)
      returns (ghost whole: Tree, ghost rounds: nat)
      requires OneShort(cell[..], root, c0, t0) && parent0 == c0.Ptr() && elm0 == t0.Ptr()
      modifies this`root, cell
      ensures At(cell[..], root, Top, whole) && RedBlack(whole)
      ensures whole.InOrder() == Order(c0, t0)
      ensures rounds <= c0.Depth()
    {
      hide OneShort, At, RedBlack, Order, Repairing;
      var parent, elm := parent0, elm0;
      ghost var c, t := c0, t0;
      rounds := 0;
      RepairStarts(c, t);
      SiblingExists(cell[..], root, c, t);
      while (elm == NULL || cell[elm].color == Black) && elm != root
        invariant OneShort(cell[..], root, c, t) && Order(c, t) == Order(c0, t0)
        invariant elm == t.Ptr() && parent == c.Ptr() && NULL <= elm < cell.Length
        invariant t.Bin? ==> cell[t.node].color == t.color
        invariant elm == root <==> c.Top?
        invariant Repairing(rounds, c, t, c0)
        decreases c.Depth(), if t.IsRed() then 0 else 1
      {
        ghost var c1, t1 := c, t;
        var done;
        parent, elm, done, c, t := RemoveRound(parent, elm, c, t);
        SiblingExists(cell[..], root, c, t);
        RepairedOnce(rounds, c1, t1, c, t, c0);
        rounds := rounds + 1;
        if done {
          break;
        }
      }
      RepairEnds(rounds, c, t, c0);
      Paid(cell[..], root, c, t);
      if elm != NULL {
        cell[elm] := cell[elm].(color := Black);
      }
      whole := c.Plug(Darken(t));
    }

    /** The child of elm, on the given side, takes the place of elm. */
    method Unlink(elm: nat, child: int, ghost c: Ctx, ghost t: Tree, ghost side: Side)
      returns (parent: int, color: Color)
      requires At(cell[..], root, c, t) && t.Bin? && t.node == elm
      requires t.Child(side.Other()).Nil? && t.Child(side).Ptr() == child
      modifies this`root, cell
      ensures At(cell[..], root, c, t.Child(side)) && elm < cell.Length && cell[elm] == old(cell[elm])
      ensures parent == c.Ptr() && color == t.color
    {
      SplicedAt(cell[..], root, c, t, side);
      parent := cell[elm].parent;
      color := cell[elm].color;
      if child != NULL {
        cell[child] := cell[child].(parent := parent);
      }
      ReplaceChild(parent, elm, child);
    }

    /** Node elm takes over the fields, the parent and the children of was. */
    method TakeOver(was: nat, elm: nat, ghost c: Ctx, ghost t: Tree)
      requires At(cell[..], root, c, t) && t.Bin? && t.node == was && t.left.Bin?
      requires elm < cell.Length && elm !in t.Nodes() && elm !in c.Nodes()
      modifies this`root, cell
      ensures At(cell[..], root, c, t.(node := elm))
    {
      ReplacedCells(cell[..], root, c, t, elm);
      ReplacedAt(cell[..], root, c, t, elm);
      cell[elm] := cell[was];
      ReplaceChild(cell[was].parent, was, elm);
      cell[cell[was].left] := cell[cell[was].left].(parent := elm);
      if cell[was].right != NULL {
        cell[cell[was].right] := cell[cell[was].right].(parent := elm);
      }
    }

    /** Down the left links from a subtree root. */
    method Leftmost(elm0: nat, ghost c0: Ctx, ghost t0: Tree)
      returns (elm: nat, ghost seg: Ctx, ghost t: Tree, ghost steps: nat)
      requires At(cell[..], root, c0, t0) && t0.Bin? && t0.node == elm0
      ensures At(cell[..], root, Append(seg, c0), t) && seg.Plug(t) == t0
      ensures t.Bin? && t.node == elm && t.left.Nil? && seg.Before() == [] && steps == seg.Depth()
    {
      elm, seg, t := elm0, Top, t0;
      var left := cell[elm].left;
      steps := 0;
      while left != NULL
        invariant At(cell[..], root, Append(seg, c0), t) && seg.Plug(t) == t0
        invariant t.Bin? && t.node == elm && left == t.left.Ptr() && seg.Before() == [] && steps == seg.Depth()
        decreases t
      {
        elm := left;
        steps := steps + 1;
        MoveDown(cell[..], root, Append(seg, c0), t, OnLeft);
        seg, t := Under(seg, t, OnLeft), t.left;
        left := cell[elm].left;
      }
    }

    /** RB_REMOVE of a node with at most one child, up to the repair. */
    method RemoveOuter(old_: nat, child0: int, ghost c: Ctx, ghost t: Tree, ghost side: Side)
      returns (parent: int, color: Color)
      requires At(cell[..], root, c, t) && RedBlack(c.Plug(t)) && t.Bin? && t.node == old_
      requires t.Child(side.Other()).Nil? && t.Child(side).Ptr() == child0
      modifies this`root, cell
      ensures Lost(cell[..], root, c, t.Child(side), color)
      ensures parent == c.Ptr() && Order(c, t.Child(side)) == Without(c, t)
    {
      hide At, RedBlack, Lost, Order, Without;
      parent, color := Unlink(old_, child0, c, t, side);
      OuterLost(cell[..], root, c, t, side);
    }

    /** RB_REMOVE of a node with two children, first half: its successor elm is
        taken out below it. The hole left by elm is seg below the right link. */
    method CutSuccessor(old_: nat, ghost c: Ctx, ghost t: Tree)
      returns (elm: nat, parent: int, child: int, color: Color, ghost seg: Ctx, ghost s: Tree, ghost steps: nat)
      requires At(cell[..], root, c, t) && t.Bin? && t.node == old_ && t.right.Bin?
      modifies this`root, cell
      ensures seg.Plug(s) == t.right && s.Bin? && s.node == elm && s.left.Nil? && seg.Before() == []
      ensures At(cell[..], root, c, t.(right := seg.Plug(s.right)))
      ensures elm < cell.Length && elm !in c.Nodes() && elm !in t.(right := seg.Plug(s.right)).Nodes()
      ensures child == s.right.Ptr() && color == s.color
      ensures parent == cell[elm].parent == Append(seg, Under(c, t, OnRight)).Ptr()
      ensures cell[elm].parent == old_ <==> seg.Top?
      ensures steps == seg.Depth()
    {
      MoveDown(cell[..], root, c, t, OnRight);
      ghost var c1 := Under(c, t, OnRight);
      elm, seg, s, steps := Leftmost(cell[old_].right, c1, t.right);
      AppendNodes(seg, c1, s.right);
      child := cell[elm].right;
      parent, color := Unlink(elm, child, Append(seg, c1), s, OnRight);
      ZipTo(cell[..], root, seg, c1, s.right);
      MoveUp(cell[..], root, c1, seg.Plug(s.right));
    }

    /** RB_REMOVE of a node with two children, up to the repair. */
    method RemoveInner(old_: nat, ghost c: Ctx, ghost t: Tree)
      returns (parent: int, child: int, color: Color, ghost c': Ctx, ghost t': Tree, ghost steps: nat)
      requires At(cell[..], root, c, t) && RedBlack(c.Plug(t)) && t.Bin? && t.node == old_
      requires t.left.Bin? && t.right.Bin?
      modifies this`root, cell
      ensures Lost(cell[..], root, c', t', color)
      ensures parent == c'.Ptr() && child == t'.Ptr() && Order(c', t') == Without(c, t)
      ensures steps <= c'.Depth() <= Height(c.Plug(t))
    {
      var elm;
      ghost var seg, s;
      elm, parent, child, color, seg, s, steps := CutSuccessor(old_, c, t);
      if cell[elm].parent == old_ {
        parent := elm;
      }
      ghost var u := t.(right := seg.Plug(s.right));
      TakeOver(old_, elm, c, u);
      MoveDown(cell[..], root, c, u.(node := elm), OnRight);
      c', t' := Append(seg, Under(c, t.(node := elm), OnRight)), s.right;
      UnzipTo(cell[..], root, seg, Under(c, t.(node := elm), OnRight), s.right);
      SuccessorOrder(c, t, seg, s);
      SuccessorLost(cell[..], root, c, t, seg, s);
      SuccessorDepth(c, t, seg, s);
    }

    /** RB_REMOVE of the node at the focus. */
    method RemoveFocus(elm: nat, ghost c: Ctx, ghost t: Tree)
      returns (ghost whole: Tree, ghost steps: nat, ghost rounds: nat)
      requires At(cell[..], root, c, t) && RedBlack(c.Plug(t)) && t.Bin? && t.node == elm
      modifies this`root, cell
      ensures At(cell[..], root, Top, whole) && RedBlack(whole) && whole.InOrder() == Without(c, t)
      ensures steps <= Height(c.Plug(t)) && rounds <= Height(c.Plug(t))
    {
      steps := 0;
      DepthBound(c, t);
      var parent, child, color;
      ghost var c', t' := c, t;
      FocusCells(cell[..], root, c, t);
      hide At, Lost, RedBlack, Order, Without;
      if cell[elm].left == NULL {
        child := cell[elm].right;
        parent, color := RemoveOuter(elm, child, c, t, OnRight);
        t' := t.right;
      } else if cell[elm].right == NULL {
        child := cell[elm].left;
        parent, color := RemoveOuter(elm, child, c, t, OnLeft);
        t' := t.left;
      } else {
        parent, child, color, c', t', steps := RemoveInner(elm, c, t);
      }
      whole, rounds := FinishRemove(parent, child, color, c', t');
    }

    /** The colour test after the splice, at the end of RB_REMOVE. */
    method FinishRemove(parent: int, child: int, color: Color, ghost c: Ctx, ghost t: Tree)
      returns (ghost whole: Tree, ghost rounds: nat)
      requires Lost(cell[..], root, c, t, color) && parent == c.Ptr() && child == t.Ptr()
      modifies this`root, cell
      ensures At(cell[..], root, Top, whole) && RedBlack(whole) && whole.InOrder() == Order(c, t)
      ensures rounds <= c.Depth()
    {
      rounds := 0;
      if color == Black {
        whole, rounds := RemoveColor(parent, child, c, t);
      } else {
        Zip(cell[..], root, c, t);
        PlugInOrder(c, t);
        whole := c.Plug(t);
      }
    }

    /** RB_REMOVE of a member: the sequence loses elm and nothing else. The walk
        to the successor and the repair each take at most 2 lg (n + 1) rounds. */
    method Remove(elm: nat) returns (r: nat, ghost at: nat, ghost steps: nat, ghost rounds: nat)
      requires Valid() && elm in Contents()
      modifies this, cell
      ensures Valid() && r == elm
      ensures at < |old(Contents())| && old(Contents())[at] == elm
      ensures Contents() == old(Contents())[..at] + old(Contents())[at + 1..]
      ensures AtMostTwiceLog(steps, |old(Contents())|) && AtMostTwiceLog(rounds, |old(Contents())|)
    {
      ghost var before := tree;
      ghost var c, t, i := RemovalPoint(cell[..], root, tree, elm, key);
      hide At, RedBlack, Sorted, Without, AtMostTwiceLog;
      tree, steps, rounds := RemoveFocus(elm, c, t);
      StepsBound(before, steps);
      StepsBound(before, rounds);
      return elm, i, steps, rounds;
    }

    /** RB_FIND. The number of rounds is at most 2 lg (n + 1). */
    method Find(k: int) returns (r: int, ghost steps: nat)
      requires Valid()
      ensures r != NULL ==> r in Contents() && key(r) == k
      ensures r == NULL ==> forall x :: x in Contents() ==> key(x) != k
      ensures AtMostTwiceLog(steps, |Contents()|)
    {
      var tmp := root;
      ghost var c, t := Top, tree;
      steps := 0;
      ghost var m, s := cell[..], Contents();
      Started();
      hide Seeking, Valid, AtMostTwiceLog;
      while tmp != NULL
        invariant Seeking(m, root, c, t, s, key, k) && tmp == t.Ptr()
        invariant steps + Height(t) <= Height(tree)
        decreases t
      {
        var comp := k - key(tmp);
        steps := steps + 1;
        SeekDown(m, root, c, t, s, key, k);
        if comp < 0 {
          tmp := cell[tmp].left;
          c, t := Under(c, t, OnLeft), t.left;
        } else if comp > 0 {
          tmp := cell[tmp].right;
          c, t := Under(c, t, OnRight), t.right;
        } else {
          StepsBound(tree, steps);
          return tmp, steps;
        }
      }
      SoughtInVain(m, root, c, s, key, k);
      StepsBound(tree, steps);
      return NULL, steps;
    }

    /** Every descent starts at the head. */
    lemma Started()
      requires Valid()
      ensures forall k :: Seeking(cell[..], root, Top, tree, Contents(), key, k)
      ensures root == tree.Ptr() && RedBlack(tree)
    {}

    /** RB_NFIND: the least node not below k, within the same number of rounds. */
    method NFind(k: int) returns (r: int, ghost steps: nat)
      requires Valid()
      ensures r != NULL ==>
              r in Contents() && k <= key(r) && forall x :: x in Contents() && k <= key(x) ==> key(r) <= key(x)
      ensures r == NULL ==> forall x :: x in Contents() ==> key(x) < k
      ensures AtMostTwiceLog(steps, |Contents()|)
    {
      hide Seeking, Valid, AtMostTwiceLog;
      var tmp := root;
      var res := NULL;
      ghost var c, t := Top, tree;
      steps := 0;
      ghost var m, s := cell[..], Contents();
      Started();
      while tmp != NULL
        invariant Seeking(m, root, c, t, s, key, k) && tmp == t.Ptr()
        invariant res == if c.After() == [] then NULL else c.After()[0]
        invariant steps + Height(t) <= Height(tree)
        decreases t
      {
        var comp := k - key(tmp);
        steps := steps + 1;
        SeekDown(m, root, c, t, s, key, k);
        if comp < 0 {
          res := tmp;
          tmp := cell[tmp].left;
          c, t := Under(c, t, OnLeft), t.left;
        } else if comp > 0 {
          tmp := cell[tmp].right;
          c, t := Under(c, t, OnRight), t.right;
        } else {
          StepsBound(tree, steps);
          return tmp, steps;
        }
      }
      LeastAfter(m, root, c, s, key, k);
      StepsBound(tree, steps);
      return res, steps;
    }

    /** RB_MIN for val < 0 and RB_MAX otherwise, in at most 2 lg (n + 1) steps. */
    method MinMax(val: int) returns (r: int, ghost steps: nat)
      requires Valid()
      ensures Contents() == [] ==> r == NULL
      ensures Contents() != [] ==> r == if val < 0 then Contents()[0] else Contents()[|Contents()| - 1]
      ensures AtMostTwiceLog(steps, |Contents()|)
    {
      hide AtMostTwiceLog, RedBlack, Sorted;
      var tmp := root;
      r := NULL;
      steps := 0;
      ghost var c, t := Top, tree;
      while tmp != NULL
        invariant At(cell[..], root, c, t) && tmp == t.Ptr() && r == c.Ptr()
        invariant Order(c, t) == Contents()
        invariant if val < 0 then c.Before() == [] && (c.Frame? ==> c.hole == OnLeft)
                  else c.After() == [] && (c.Frame? ==> c.hole == OnRight)
        invariant steps + Height(t) <= Height(tree)
        decreases t
      {
        r := tmp;
        steps := steps + 1;
        if val < 0 {
          MoveDown(cell[..], root, c, t, OnLeft);
          FillInOrder(Under(c, t, OnLeft), t.left);
          tmp := cell[tmp].left;
          c, t := Under(c, t, OnLeft), t.left;
        } else {
          MoveDown(cell[..], root, c, t, OnRight);
          FillInOrder(Under(c, t, OnRight), t.right);
          tmp := cell[tmp].right;
          c, t := Under(c, t, OnRight), t.right;
        }
      }
      StepsBound(tree, steps);
    }

    method Rightmost(elm0: nat, ghost c0: Ctx, ghost t0: Tree)
      returns (elm: nat, ghost seg: Ctx, ghost t: Tree, ghost steps: nat)
      requires At(cell[..], root, c0, t0) && t0.Bin? && t0.node == elm0
      ensures At(cell[..], root, Append(seg, c0), t) && seg.Plug(t) == t0
      ensures t.Bin? && t.node == elm && t.right.Nil? && seg.After() == [] && steps == seg.Depth()
    {
      elm, seg, t := elm0, Top, t0;
      var right := cell[elm].right;
      steps := 0;
      while right != NULL
        invariant At(cell[..], root, Append(seg, c0), t) && seg.Plug(t) == t0
        invariant t.Bin? && t.node == elm && right == t.right.Ptr() && seg.After() == [] && steps == seg.Depth()
        decreases t
      {
        elm := right;
        steps := steps + 1;
        MoveDown(cell[..], root, Append(seg, c0), t, OnRight);
        seg, t := Under(seg, t, OnRight), t.right;
        right := cell[elm].right;
      }
    }

    /** The first loop of RB_NEXT, when there is no right child: up the parent
        links until the node is a left child. */
    method UpFromRight(elm: nat, ghost c0: Ctx, ghost t0: Tree) returns (r: int, ghost steps: nat)
      requires At(cell[..], root, c0, t0) && t0.Bin? && t0.node == elm
      ensures r == if c0.After() == [] then NULL else c0.After()[0]
      ensures steps <= c0.Depth()
    {
      FocusCells(cell[..], root, c0, t0);
      r := elm;
      steps := 0;
      ghost var c, t := c0, t0;
      if cell[r].parent != NULL && r == cell[cell[r].parent].left {
        r := cell[r].parent;
      } else {
        while cell[r].parent != NULL && r == cell[cell[r].parent].right
          invariant At(cell[..], root, c, t) && t.Bin? && t.node == r < cell.Length && c.After() == c0.After()
          invariant steps + c.Depth() <= c0.Depth()
          decreases c.Depth()
        {
          r := cell[r].parent;
          steps := steps + 1;
          MoveUp(cell[..], root, c, t);
          c, t := c.up, c.Fill(t);
        }
        r := cell[r].parent;
      }
    }

    /** The first loop of RB_PREV, when there is no left child. */
    method UpFromLeft(elm: nat, ghost c0: Ctx, ghost t0: Tree) returns (r: int, ghost steps: nat)
      requires At(cell[..], root, c0, t0) && t0.Bin? && t0.node == elm
      ensures r == if c0.Before() == [] then NULL else c0.Before()[|c0.Before()| - 1]
      ensures steps <= c0.Depth()
    {
      FocusCells(cell[..], root, c0, t0);
      r := elm;
      steps := 0;
      ghost var c, t := c0, t0;
      if cell[r].parent != NULL && r == cell[cell[r].parent].right {
        r := cell[r].parent;
      } else {
        while cell[r].parent != NULL && r == cell[cell[r].parent].left
          invariant At(cell[..], root, c, t) && t.Bin? && t.node == r < cell.Length && c.Before() == c0.Before()
          invariant steps + c.Depth() <= c0.Depth()
          decreases c.Depth()
        {
          r := cell[r].parent;
          steps := steps + 1;
          MoveUp(cell[..], root, c, t);
          c, t := c.up, c.Fill(t);
        }
        r := cell[r].parent;
      }
    }

    /** RB_NEXT of a member, by child and parent links alone, in at most
        2 lg (n + 1) steps. */
    method Next(elm: nat) returns (r: int, ghost steps: nat)
      requires Valid() && elm in Contents()
      ensures IsNext(Contents(), elm, r)
      ensures AtMostTwiceLog(steps, |Contents()|)
    {
      ghost var c, t := Neighbours(cell[..], root, tree, elm);
      FocusCells(cell[..], root, c, t);
      DepthBound(c, t);
      hide IsNext, IsPrev, Valid, AtMostTwiceLog;
      if cell[elm].right != NULL {
        MoveDown(cell[..], root, c, t, OnRight);
        ghost var seg, s;
        r, seg, s, steps := Leftmost(cell[elm].right, Under(c, t, OnRight), t.right);
        LeftmostOrder(seg, s);
        DepthBound(seg, s);
      } else {
        r, steps := UpFromRight(elm, c, t);
      }
      StepsBound(tree, steps);
    }

    /** RB_PREV of a member, in at most 2 lg (n + 1) steps. */
    method Prev(elm: nat) returns (r: int, ghost steps: nat)
      requires Valid() && elm in Contents()
      ensures IsPrev(Contents(), elm, r)
      ensures AtMostTwiceLog(steps, |Contents()|)
    {
      ghost var c, t := Neighbours(cell[..], root, tree, elm);
      FocusCells(cell[..], root, c, t);
      DepthBound(c, t);
      hide IsNext, IsPrev, Valid, AtMostTwiceLog;
      if cell[elm].left != NULL {
        MoveDown(cell[..], root, c, t, OnLeft);
        ghost var seg, s;
        r, seg, s, steps := Rightmost(cell[elm].left, Under(c, t, OnLeft), t.left);
        RightmostOrder(seg, s);
        DepthBound(seg, s);
      } else {
        r, steps := UpFromLeft(elm, c, t);
      }
      StepsBound(tree, steps);
    }
  }
}
