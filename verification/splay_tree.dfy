/** The splay tree of include/tree.h. The last slot of the arena stands for the
    structure __node that SPLAY keeps on its stack. */
module SplayTree {
  import opened Arena
  import opened Ordered
  import opened SplayCost
  import opened SplayShape

  ghost predicate Untouched(m: seq<Cell>, m': seq<Cell>, s: set<nat>, dummy: nat) {
    |m| == |m'| && forall n: nat :: n < |m| && n != dummy && n !in s ==> m'[n] == m[n]
  }

  class Head {
    var root: int
    const cell: array<Cell>
    const key: nat -> int
    ghost var tree: Tree

    ghost function Contents(): seq<nat>
      reads this
    {
      tree.InOrder()
    }

    ghost function Dummy(): nat
      requires cell.Length > 0
    {
      cell.Length - 1
    }

    /** The arena holds tree t, apart from the stack structure. */
    ghost predicate Holds(t: Tree)
      reads cell
    {
      && cell.Length > 0 && t.In(cell[..]) && t.Distinct() && Dummy() !in t.Nodes()
      && Sorted(t.InOrder(), key)
    }

    ghost predicate Valid()
      reads this, cell
    {
      Holds(tree) && root == tree.Ptr()
    }

    constructor (capacity: nat, key: nat -> int)
      ensures Valid() && fresh(cell)
      ensures Contents() == [] && cell.Length == capacity + 1 && this.key == key
    {
      root := NULL;
      cell := new Cell[capacity + 1](_ => Cell(NULL, NULL));
      this.key := key;
      tree := Nil;
    }

    /** SPLAY_ROTATE_RIGHT during a splay. */
    method RotateRight(tmp: nat, ghost l: Spine, ghost t: Tree, ghost r: Spine, ghost s: seq<nat>, ghost k: int)
      requires cell.Length > 0 && Splaying(cell[..], Dummy(), l, t, r, s, key, k)
      requires root == t.node && t.left.Bin? && tmp == t.left.node
      modifies this`root, cell
      ensures Splaying(cell[..], Dummy(), l, RotR(t), r, s, key, k) && root == RotR(t).node
      ensures PartNodes(l, RotR(t), r) == PartNodes(l, t, r)
      ensures Untouched(old(cell[..]), cell[..], PartNodes(l, t, r), Dummy())
    {
      RootCells(cell[..], Dummy(), l, t, r, s, key, k);
      hide Splaying, PartNodes;
      RotRSplaying(cell[..], Dummy(), l, t, r, s, key, k);
      cell[root] := cell[root].(left := cell[tmp].right);
      cell[tmp] := cell[tmp].(right := root);
      root := tmp;
    }

    /** SPLAY_LINKLEFT. */
    method LinkLeft(tmp0: nat, ghost l: Spine, ghost t: Tree, ghost r: Spine, ghost s: seq<nat>, ghost k: int)
      returns (tmp: nat)
      requires cell.Length > 0 && Splaying(cell[..], Dummy(), l, t, r, s, key, k)
      requires root == t.node && t.left.Bin? && k < key(t.node) && tmp0 == r.Last(Dummy())
      modifies this`root, cell
      ensures Splaying(cell[..], Dummy(), l, t.left, Link(r, t.node, t.right), s, key, k)
      ensures root == t.left.node && tmp == t.node
      ensures PartNodes(l, t.left, Link(r, t.node, t.right)) == PartNodes(l, t, r)
      ensures Untouched(old(cell[..]), cell[..], PartNodes(l, t, r), Dummy())
    {
      RootCells(cell[..], Dummy(), l, t, r, s, key, k);
      hide Splaying, PartNodes;
      LinkLeftSplaying(cell[..], Dummy(), l, t, r, s, key, k);
      LinkLeftOrder(l, t, r);
      cell[tmp0] := cell[tmp0].(left := root);
      tmp := root;
      root := cell[root].left;
    }

    /** One round of SPLAY with the key below the root. */
    method SplayLeft(k: int, right0: nat, ghost s: seq<nat>, ghost l: Spine, ghost t0: Tree, ghost r0: Spine)
      returns (stop: bool, right: nat, ghost t: Tree, ghost r: Spine)
      requires cell.Length > 0 && Splaying(cell[..], Dummy(), l, t0, r0, s, key, k)
      requires root == t0.node && right0 == r0.Last(Dummy()) && k < key(t0.node)
      modifies this`root, cell
      ensures Splaying(cell[..], Dummy(), l, t, r, s, key, k)
      ensures root == t.node && right == r.Last(Dummy())
      ensures LeftRound(stop, t, r, t0, r0, key, k)
      ensures stop ==> MayStop(t, key, k)
      ensures !stop ==> Size(t) < Size(t0)
      ensures PartNodes(l, t, r) == PartNodes(l, t0, r0)
      ensures Untouched(old(cell[..]), cell[..], PartNodes(l, t0, r0), Dummy())
    {
      t, r, right, stop := t0, r0, right0, true;
      hide Splaying, PartNodes;
      RootCells(cell[..], Dummy(), l, t, r, s, key, k);
      var tmp := cell[root].left;
      if tmp == NULL {
        return;
      }
      if k - key(tmp) < 0 {
        RotateRight(tmp, l, t, r, s, k);
        t := RotR(t);
        RootCells(cell[..], Dummy(), l, t, r, s, key, k);
        if cell[root].left == NULL {
          return;
        }
      }
      right := LinkLeft(right, l, t, r, s, k);
      t, r := t.left, Link(r, t.node, t.right);
      stop := false;
    }

    /** SPLAY_ROTATE_LEFT during a splay. */
    method RotateLeft(tmp: nat, ghost l: Spine, ghost t: Tree, ghost r: Spine, ghost s: seq<nat>, ghost k: int)
      requires cell.Length > 0 && Splaying(cell[..], Dummy(), l, t, r, s, key, k)
      requires root == t.node && t.right.Bin? && tmp == t.right.node
      modifies this`root, cell
      ensures Splaying(cell[..], Dummy(), l, RotL(t), r, s, key, k) && root == RotL(t).node
      ensures PartNodes(l, RotL(t), r) == PartNodes(l, t, r)
      ensures Untouched(old(cell[..]), cell[..], PartNodes(l, t, r), Dummy())
    {
      RootCells(cell[..], Dummy(), l, t, r, s, key, k);
      hide Splaying, PartNodes;
      RotLSplaying(cell[..], Dummy(), l, t, r, s, key, k);
      cell[root] := cell[root].(right := cell[tmp].left);
      cell[tmp] := cell[tmp].(left := root);
      root := tmp;
    }

    /** SPLAY_LINKRIGHT. */
    method LinkRight(tmp0: nat, ghost l: Spine, ghost t: Tree, ghost r: Spine, ghost s: seq<nat>, ghost k: int)
      returns (tmp: nat)
      requires cell.Length > 0 && Splaying(cell[..], Dummy(), l, t, r, s, key, k)
      requires root == t.node && t.right.Bin? && key(t.node) < k && tmp0 == l.Last(Dummy())
      modifies this`root, cell
      ensures Splaying(cell[..], Dummy(), Link(l, t.node, t.left), t.right, r, s, key, k)
      ensures root == t.right.node && tmp == t.node
      ensures PartNodes(Link(l, t.node, t.left), t.right, r) == PartNodes(l, t, r)
      ensures Untouched(old(cell[..]), cell[..], PartNodes(l, t, r), Dummy())
    {
      RootCells(cell[..], Dummy(), l, t, r, s, key, k);
      hide Splaying, PartNodes;
      LinkRightSplaying(cell[..], Dummy(), l, t, r, s, key, k);
      LinkRightOrder(l, t, r);
      cell[tmp0] := cell[tmp0].(right := root);
      tmp := root;
      root := cell[root].right;
    }

    /** One round of SPLAY with the key above the root. */
    method SplayRight(k: int, left0: nat, ghost s: seq<nat>, ghost l0: Spine, ghost t0: Tree, ghost r: Spine)
      returns (stop: bool, left: nat, ghost l: Spine, ghost t: Tree)
      requires cell.Length > 0 && Splaying(cell[..], Dummy(), l0, t0, r, s, key, k)
      requires root == t0.node && left0 == l0.Last(Dummy()) && key(t0.node) < k
      modifies this`root, cell
      ensures Splaying(cell[..], Dummy(), l, t, r, s, key, k)
      ensures root == t.node && left == l.Last(Dummy())
      ensures RightRound(stop, l, t, l0, t0, key, k)
      ensures stop ==> MayStop(t, key, k)
      ensures !stop ==> Size(t) < Size(t0)
      ensures PartNodes(l, t, r) == PartNodes(l0, t0, r)
      ensures Untouched(old(cell[..]), cell[..], PartNodes(l0, t0, r), Dummy())
    {
      l, t, left, stop := l0, t0, left0, true;
      hide Splaying, PartNodes;
      RootCells(cell[..], Dummy(), l, t, r, s, key, k);
      var tmp := cell[root].right;
      if tmp == NULL {
        return;
      }
      if k - key(tmp) > 0 {
        RotateLeft(tmp, l, t, r, s, k);
        t := RotL(t);
        RootCells(cell[..], Dummy(), l, t, r, s, key, k);
        if cell[root].right == NULL {
          return;
        }
      }
      left := LinkRight(left, l, t, r, s, k);
      l, t := Link(l, t.node, t.left), t.right;
      stop := false;
    }

    /** The state between two rounds of a splay over the nodes all, which began
        with arena m: the three parts, where the next nodes are attached, and
        what was left alone. */
    ghost predicate Going(m: seq<Cell>, left: nat, right: nat, l: Spine, t: Tree, r: Spine, s: seq<nat>,
                          all: set<nat>, k: int)
      reads this, cell
    {
      && cell.Length > 0 && Splaying(cell[..], Dummy(), l, t, r, s, key, k)
      && root == t.node && left == l.Last(Dummy()) && right == r.Last(Dummy())
      && PartNodes(l, t, r) == all && Untouched(m, cell[..], all, Dummy())
    }

    /** One round of SPLAY, on the side where the key belongs. */
    method SplayRound(k: int, left0: nat, right0: nat, ghost m: seq<Cell>, ghost s: seq<nat>, ghost all: set<nat>,
                      ghost l0: Spine, ghost t0: Tree, ghost r0: Spine, ghost rounds: nat, ghost o: Outcome)
      returns (stop: bool, left: nat, right: nat, ghost l: Spine, ghost t: Tree, ghost r: Spine)
      requires Going(m, left0, right0, l0, t0, r0, s, all, k) && k != key(root) && OnWay(l0, t0, r0, rounds, o, key, k)
      modifies this`root, cell
      ensures Going(m, left, right, l, t, r, s, all, k)
      ensures if stop then MayStop(t, key, k) && o == Outcome(Assembled(l, t, r), rounds + 1)
              else Size(t) < Size(t0) && OnWay(l, t, r, rounds + 1, o, key, k)
    {
      l, t, r, left, right := l0, t0, r0, left0, right0;
      hide Splaying, PartNodes, OnWay, LeftRound, RightRound, Assembled, Untouched, MayStop, Size;
      RootCells(cell[..], Dummy(), l, t, r, s, key, k);
      ghost var m1 := cell[..];
      if k - key(root) < 0 {
        stop, right, t, r := SplayLeft(k, right, s, l, t, r);
        LeftOnWay(stop, t, r, t0, r0, l, rounds, o, key, k);
      } else {
        stop, left, l, t := SplayRight(k, left, s, l, t, r);
        RightOnWay(stop, l, t, l0, t0, r, rounds, o, key, k);
      }
      UntouchedTwice(m, m1, cell[..], all, Dummy());
    }

    /** What the guard of the loop reads. */
    lemma GoingRoot(m: seq<Cell>, left: nat, right: nat, l: Spine, t: Tree, r: Spine, s: seq<nat>, all: set<nat>,
                    k: int)
      requires Going(m, left, right, l, t, r, s, all, k)
      ensures 0 <= root < cell.Length && root == t.node && t.Bin?
    {}

    /** A splay starts with the whole tree in the middle. */
    lemma GoingStarts(m: seq<Cell>, t: Tree, k: int)
      requires cell.Length > 0 && |m| == cell.Length && cell[..] == m[Dummy() := Cell(NULL, NULL)]
      requires t.In(m) && t.Distinct() && Dummy() !in t.Nodes() && Sorted(t.InOrder(), key) && t.Bin? && root == t.node
      ensures Going(m, Dummy(), Dummy(), Empty, t, Empty, t.InOrder(), t.Nodes(), k)
    {
      SplayStarts(m, Dummy(), t, key, k);
    }

    /** SPLAY: the root ends up parting the rest of the tree at k. */
    method Splay(k: int, ghost t0: Tree) returns (ghost tree': Tree, ghost rounds: nat)
      requires Holds(t0) && t0.Bin? && root == t0.node
      modifies this`root, cell
      ensures Holds(tree') && tree'.Bin? && root == tree'.node
      ensures tree'.InOrder() == t0.InOrder() && tree'.Nodes() == t0.Nodes()
      ensures Parted(tree', key, k)
      ensures Outcome(tree', rounds) == Splayed(t0, key, k)
      ensures Untouched(old(cell[..]), cell[..], t0.Nodes(), Dummy())
    {
      ghost var m, s, all, o := cell[..], t0.InOrder(), t0.Nodes(), Splayed(t0, key, k);
      ghost var l, t, r := Empty, t0, Empty;
      var node := cell.Length - 1;
      var left: nat, right: nat := node, node;
      cell[node] := Cell(NULL, NULL);
      rounds := 0;
      ghost var there := false;
      GoingStarts(m, t0, k);
      SetsOut(t0, key, k);
      GoingRoot(m, left, right, l, t, r, s, all, k);
      hide *;
      while k != key(root)
        invariant Going(m, left, right, l, t, r, s, all, k) && t.Bin? && 0 <= root < cell.Length && root == t.node
        invariant OnWay(l, t, r, rounds, o, key, k) && !there
        decreases Size(t)
      {
        var stop;
        stop, left, right, l, t, r := SplayRound(k, left, right, m, s, all, l, t, r, rounds, o);
        GoingRoot(m, left, right, l, t, r, s, all, k);
        rounds := rounds + 1;
        if stop {
          there := true;
          break;
        }
      }
      if !there {
        Arrived(l, t, r, rounds, o, key, k);
      }
      tree' := Assemble(node, left, right, m, s, all, l, t, r, k);
    }

    /** SPLAY_ASSEMBLE. */
    method AssembleCells(node: nat, left: nat, right: nat)
      requires node < cell.Length && left < cell.Length && right < cell.Length && 0 <= root < cell.Length
      modifies cell
      ensures cell[..] == AssembledMem(old(cell[..]), root, left, right, node)
    {
      cell[left] := cell[left].(right := cell[root].left);
      cell[right] := cell[right].(left := cell[root].right);
      cell[root] := cell[root].(left := cell[node].right);
      cell[root] := cell[root].(right := cell[node].left);
    }

    /** What SPLAY_ASSEMBLE makes of the three parts once the loop may stop. */
    method Assemble(node: nat, left: nat, right: nat, ghost m: seq<Cell>, ghost s: seq<nat>, ghost all: set<nat>,
                    ghost l: Spine, ghost t: Tree, ghost r: Spine, ghost k: int)
      returns (ghost tree': Tree)
      requires Going(m, left, right, l, t, r, s, all, k) && MayStop(t, key, k) && node == Dummy()
      modifies cell
      ensures Holds(tree') && tree'.Bin? && root == tree'.node
      ensures tree' == Assembled(l, t, r) && tree'.InOrder() == s && tree'.Nodes() == all
      ensures Parted(tree', key, k)
      ensures Untouched(m, cell[..], all, node)
    {
      RootCells(cell[..], node, l, t, r, s, key, k);
      AssembledIn(cell[..], node, l, t, r);
      AssembledParted(l, t, r, s, key, k);
      AssembledUntouched(m, cell[..], root, left, right, node, all);
      tree' := Assembled(l, t, r);
      hide Splaying, Split, Parted, MayStop, PartNodes, Assembled, AssembledMem, Untouched;
      AssembleCells(node, left, right);
    }

    /** One round of SPLAY_MINMAX for the least node. */
    method MinRound(right0: nat, ghost s: seq<nat>, ghost l: Spine, ghost t0: Tree, ghost r0: Spine, ghost k: int)
      returns (stop: bool, right: nat, ghost t: Tree, ghost r: Spine)
      requires cell.Length > 0 && Splaying(cell[..], Dummy(), l, t0, r0, s, key, k)
      requires root == t0.node && right0 == r0.Last(Dummy()) && Beyond(s, key, k, -1)
      modifies this`root, cell
      ensures Splaying(cell[..], Dummy(), l, t, r, s, key, k)
      ensures root == t.node && right == r.Last(Dummy())
      ensures LeftRound(stop, t, r, t0, r0, key, k)
      ensures stop ==> MayStop(t, key, k)
      ensures !stop ==> Size(t) < Size(t0)
      ensures PartNodes(l, t, r) == PartNodes(l, t0, r0)
      ensures Untouched(old(cell[..]), cell[..], PartNodes(l, t0, r0), Dummy())
    {
      t, r, right, stop := t0, r0, right0, true;
      hide Splaying, PartNodes, Beyond;
      RootCells(cell[..], Dummy(), l, t, r, s, key, k);
      BeyondRoot(cell[..], Dummy(), l, t, r, s, key, k, -1);
      var tmp := cell[root].left;
      if tmp == NULL {
        return;
      }
      RotateRight(tmp, l, t, r, s, k);
      t := RotR(t);
      RootCells(cell[..], Dummy(), l, t, r, s, key, k);
      BeyondRoot(cell[..], Dummy(), l, t, r, s, key, k, -1);
      if cell[root].left == NULL {
        return;
      }
      right := LinkLeft(right, l, t, r, s, k);
      t, r := t.left, Link(r, t.node, t.right);
      stop := false;
    }

    /** One round of SPLAY_MINMAX for the greatest node. */
    method MaxRound(left0: nat, ghost s: seq<nat>, ghost l0: Spine, ghost t0: Tree, ghost r: Spine, ghost k: int)
      returns (stop: bool, left: nat, ghost l: Spine, ghost t: Tree)
      requires cell.Length > 0 && Splaying(cell[..], Dummy(), l0, t0, r, s, key, k)
      requires root == t0.node && left0 == l0.Last(Dummy()) && Beyond(s, key, k, 1)
      modifies this`root, cell
      ensures Splaying(cell[..], Dummy(), l, t, r, s, key, k)
      ensures root == t.node && left == l.Last(Dummy())
      ensures RightRound(stop, l, t, l0, t0, key, k)
      ensures stop ==> MayStop(t, key, k)
      ensures !stop ==> Size(t) < Size(t0)
      ensures PartNodes(l, t, r) == PartNodes(l0, t0, r)
      ensures Untouched(old(cell[..]), cell[..], PartNodes(l0, t0, r), Dummy())
    {
      l, t, left, stop := l0, t0, left0, true;
      hide Splaying, PartNodes, Beyond;
      RootCells(cell[..], Dummy(), l, t, r, s, key, k);
      BeyondRoot(cell[..], Dummy(), l, t, r, s, key, k, 1);
      var tmp := cell[root].right;
      if tmp == NULL {
        return;
      }
      RotateLeft(tmp, l, t, r, s, k);
      t := RotL(t);
      RootCells(cell[..], Dummy(), l, t, r, s, key, k);
      BeyondRoot(cell[..], Dummy(), l, t, r, s, key, k, 1);
      if cell[root].right == NULL {
        return;
      }
      left := LinkRight(left, l, t, r, s, k);
      l, t := Link(l, t.node, t.left), t.right;
      stop := false;
    }

    /** One round of SPLAY_MINMAX. */
    method MinMaxRound(comp: int, left0: nat, right0: nat, ghost m: seq<Cell>, ghost s: seq<nat>, ghost all: set<nat>,
                       ghost l0: Spine, ghost t0: Tree, ghost r0: Spine, ghost k: int, ghost rounds: nat,
                       ghost o: Outcome)
      returns (stop: bool, left: nat, right: nat, ghost l: Spine, ghost t: Tree, ghost r: Spine)
      requires Going(m, left0, right0, l0, t0, r0, s, all, k) && OnWay(l0, t0, r0, rounds, o, key, k)
      requires (comp == -1 || comp == 1) && Beyond(s, key, k, comp)
      modifies this`root, cell
      ensures Going(m, left, right, l, t, r, s, all, k)
      ensures if stop then MayStop(t, key, k) && o == Outcome(Assembled(l, t, r), rounds + 1)
              else Size(t) < Size(t0) && OnWay(l, t, r, rounds + 1, o, key, k)
    {
      l, t, r, left, right := l0, t0, r0, left0, right0;
      hide Splaying, PartNodes, OnWay, LeftRound, RightRound, Assembled, Untouched, MayStop, Size, Beyond;
      BeyondRoot(cell[..], Dummy(), l, t, r, s, key, k, comp);
      ghost var m1 := cell[..];
      if comp < 0 {
        stop, right, t, r := MinRound(right, s, l, t, r, k);
        LeftOnWay(stop, t, r, t0, r0, l, rounds, o, key, k);
      } else {
        stop, left, l, t := MaxRound(left, s, l, t, r, k);
        RightOnWay(stop, l, t, l0, t0, r, rounds, o, key, k);
      }
      UntouchedTwice(m, m1, cell[..], all, Dummy());
    }

    /** SPLAY_MINMAX: the least (comp < 0) or greatest node becomes the root. */
    method SplayMinMax(comp: int, ghost t0: Tree) returns (ghost tree': Tree, ghost rounds: nat)
      requires comp == -1 || comp == 1
      requires Holds(t0) && t0.Bin? && root == t0.node
      modifies this`root, cell
      ensures Holds(tree') && tree'.Bin? && root == tree'.node
      ensures tree'.InOrder() == t0.InOrder() && tree'.Nodes() == t0.Nodes()
      ensures if comp < 0 then tree'.left.Nil? else tree'.right.Nil?
      ensures Charged(t0, rounds, tree')
      ensures Untouched(old(cell[..]), cell[..], t0.Nodes(), Dummy())
    {
      ghost var m, s, all := cell[..], t0.InOrder(), t0.Nodes();
      ghost var l, t, r := Empty, t0, Empty;
      ghost var k := KeyBeyond(s, key, comp);
      ghost var o := Splayed(t0, key, k);
      var node := cell.Length - 1;
      var left: nat, right: nat := node, node;
      cell[node] := Cell(NULL, NULL);
      rounds := 0;
      GoingStarts(m, t0, k);
      SetsOut(t0, key, k);
      SplayCharged(t0, key, k);
      hide *;
      while true
        invariant Going(m, left, right, l, t, r, s, all, k) && OnWay(l, t, r, rounds, o, key, k)
        decreases Size(t)
      {
        var stop;
        stop, left, right, l, t, r := MinMaxRound(comp, left, right, m, s, all, l, t, r, k, rounds, o);
        rounds := rounds + 1;
        if stop {
          break;
        }
      }
      GoingRoot(m, left, right, l, t, r, s, all, k);
      tree' := Assemble(node, left, right, m, s, all, l, t, r, k);
      PartedBeyond(tree', key, k, comp);
    }

    /** The second half of SPLAY_INSERT: elm takes the place of the root of t. */
    method PutOnTop(elm: nat, ghost t: Tree) returns (ghost top: Tree, ghost at: nat)
      requires Holds(t) && Parted(t, key, key(elm)) && root == t.node
      requires elm < cell.Length - 1 && key(elm) != key(root)
      modifies this`root, cell
      ensures Holds(top) && root == top.Ptr()
      ensures at <= |t.InOrder()| && top.InOrder() == t.InOrder()[..at] + [elm] + t.InOrder()[at..]
      ensures top == Topped(t, elm, key)
    {
      hide Sorted;
      ghost var m := cell[..];
      RootHeld(m, t);
      at := ToppedOrder(t, elm, key);
      top := Topped(t, elm, key);
      ElmIsNew(t, elm, key);
      hide Parted, Topped;
      if key(elm) - key(root) < 0 {
        cell[elm] := cell[elm].(left := cell[root].left);
        cell[elm] := cell[elm].(right := root);
        cell[root] := cell[root].(left := NULL);
      } else {
        cell[elm] := cell[elm].(right := cell[root].right);
        cell[elm] := cell[elm].(left := root);
        cell[root] := cell[root].(right := NULL);
      }
      ToppedHeld(m, cell[..], t, elm, key);
      root := elm;
    }

    /** SPLAY_INSERT: null when elm became the root, otherwise the node that
        already has its key. */
    method Insert(elm: nat) returns (r: int, ghost at: nat, ghost rounds: nat)
      requires Valid() && elm < cell.Length - 1
      modifies this, cell
      ensures Valid()
      ensures r == NULL <==> forall x :: x in old(Contents()) ==> key(x) != key(elm)
      ensures r == NULL ==>
              at <= |old(Contents())| && Contents() == old(Contents())[..at] + [elm] + old(Contents())[at..]
      ensures r != NULL ==> r in old(Contents()) && key(r) == key(elm) && Contents() == old(Contents())
      ensures Spends(old(tree), rounds, tree, 2)
    {
      at, rounds := 0, 0;
      if root == NULL {
        cell[elm] := Cell(NULL, NULL);
        FirstSpends(elm);
        FirstHeld(cell[..], elm);
        tree := Bin(Nil, elm, Nil);
        root := elm;
        return NULL, at, rounds;
      }
      SplayCharged(tree, key, key(elm));
      tree, rounds := Splay(key(elm), tree);
      FindSpends(old(tree), rounds, tree);
      RootMatch(tree, key, key(elm));
      InsertSpends(old(tree), rounds, tree, elm, key);
      hide Spends, Charged, Splayed, Topped;
      if key(elm) - key(root) == 0 {
        SpendsMore(old(tree), rounds, tree, 1, 2);
        return root, at, rounds;
      }
      tree, at := PutOnTop(elm, tree);
      return NULL, at, rounds;
    }

    /** SPLAY_FIND. */
    method Find(k: int) returns (r: int, ghost rounds: nat)
      requires Valid()
      modifies this, cell
      ensures Valid() && Contents() == old(Contents())
      ensures r != NULL ==> r in Contents() && key(r) == k
      ensures r == NULL ==> forall x :: x in Contents() ==> key(x) != k
      ensures Spends(old(tree), rounds, tree, 1)
    {
      if root == NULL {
        return NULL, 0;
      }
      SplayCharged(tree, key, k);
      tree, rounds := Splay(k, tree);
      FindSpends(old(tree), rounds, tree);
      RootMatch(tree, key, k);
      if k - key(root) == 0 {
        return root, rounds;
      }
      return NULL, rounds;
    }

    /** SPLAY_MIN (val == -1) and SPLAY_MAX (val == 1). */
    method MinMax(val: int) returns (r: int, ghost rounds: nat)
      requires Valid() && (val == -1 || val == 1)
      modifies this, cell
      ensures Valid() && Contents() == old(Contents())
      ensures Contents() == [] ==> r == NULL
      ensures Contents() != [] ==> r == if val < 0 then Contents()[0] else Contents()[|Contents()| - 1]
      ensures Spends(old(tree), rounds, tree, 1)
    {
      if root == NULL {
        return NULL, 0;
      }
      tree, rounds := SplayMinMax(val, tree);
      FindSpends(old(tree), rounds, tree);
      return root, rounds;
    }

    /** SPLAY_NEXT of a member. */
    method Next(elm: nat) returns (r: int, ghost rounds: nat)
      requires Valid() && elm in Contents()
      modifies this, cell
      ensures Valid() && Contents() == old(Contents())
      ensures IsNext(Contents(), elm, r)
      ensures Spends(old(tree), rounds, tree, 1)
    {
      hide Spends, Charged, Splayed, Parted, Sorted, IsNext;
      SplayCharged(tree, key, key(elm));
      tree, rounds := Splay(key(elm), tree);
      FindSpends(old(tree), rounds, tree);
      RootMatch(tree, key, key(elm));
      RootHeld(cell[..], tree);
      NextOfRoot(tree);
      r := elm;
      if cell[r].right != NULL {
        r := Leftmost(cell[r].right, tree.right);
      } else {
        r := NULL;
      }
    }

    method Leftmost(elm: nat, ghost t0: Tree) returns (r: nat)
      requires t0.Bin? && t0.node == elm && t0.In(cell[..])
      ensures t0.InOrder() != [] && r == t0.InOrder()[0]
    {
      r := elm;
      ghost var t := t0;
      RootHeld(cell[..], t);
      while cell[r].left != NULL
        invariant t.Bin? && t.node == r < cell.Length && t.In(cell[..])
        invariant t.InOrder() != [] && t0.InOrder() != [] && t.InOrder()[0] == t0.InOrder()[0]
        decreases t
      {
        RootHeld(cell[..], t);
        r := cell[r].left;
        t := t.left;
        RootHeld(cell[..], t);
      }
      RootHeld(cell[..], t);
    }

    /** SPLAY_REMOVE: the node with the key of elm leaves the tree. The answer is
        elm, which is the node that left if and only if elm was a member. */
    method Remove(elm: nat) returns (r: int, ghost at: nat, ghost rounds: nat)
      requires Valid()
      modifies this, cell
      ensures Valid()
      ensures r != NULL <==> exists x :: x in old(Contents()) && key(x) == key(elm)
      ensures r == NULL ==> Contents() == old(Contents())
      ensures r != NULL ==> r == elm && at < |old(Contents())| && key(old(Contents())[at]) == key(elm)
      ensures r != NULL ==> (old(Contents())[at] == elm <==> elm in old(Contents()))
      ensures r != NULL ==> Contents() == old(Contents())[..at] + old(Contents())[at + 1..]
      ensures Spends(old(tree), rounds, tree, 2)
    {
      at, rounds := 0, 0;
      if root == NULL {
        return NULL, at, rounds;
      }
      SplayCharged(tree, key, key(elm));
      tree, rounds := Splay(key(elm), tree);
      FindSpends(old(tree), rounds, tree);
      RootMatch(tree, key, key(elm));
      hide Parted, Sorted, Spends, Charged, Splayed;
      if key(elm) - key(root) == 0 {
        at := |tree.left.InOrder()|;
        tree, rounds := DropRoot(key(elm), tree, old(tree), rounds);
        return elm, at, rounds;
      }
      SpendsMore(old(tree), rounds, tree, 1, 2);
      return NULL, at, rounds;
    }

    /** The root leaves a tree that was splayed for its key. */
    method DropRoot(k: int, ghost t: Tree, ghost before: Tree, ghost spent: nat)
      returns (ghost rest: Tree, ghost rounds: nat)
      requires Holds(t) && t.Bin? && root == t.node && k == key(t.node) && Charged(before, spent, t)
      modifies this`root, cell
      ensures Holds(rest) && root == rest.Ptr()
      ensures var at, s := |t.left.InOrder()|, t.InOrder();
        at < |s| && s[at] == t.node && rest.InOrder() == s[..at] + s[at + 1..]
      ensures Spends(before, rounds, rest, 2)
    {
      RootHeld(cell[..], t);
      RootTaken(t, key);
      hide Sorted, Charged, Spends;
      if cell[root].left == NULL {
        DropSpends(before, spent, t);
        root := cell[root].right;
        rest, rounds := t.right, spent;
      } else {
        rest, rounds := Rejoin(k, t, before, spent);
      }
    }

    /** The join in SPLAY_REMOVE: splaying for the same key again brings the
        greatest node below it to the top, which has no right child. */
    method Rejoin(k: int, ghost t: Tree, ghost before: Tree, ghost spent: nat)
      returns (ghost joined: Tree, ghost rounds: nat)
      requires Holds(t) && t.Bin? && root == t.node && t.left.Bin? && k == key(t.node) && Charged(before, spent, t)
      modifies this`root, cell
      ensures Holds(joined) && root == joined.Ptr()
      ensures joined.InOrder() == t.left.InOrder() + t.right.InOrder()
      ensures Spends(before, rounds, joined, 2)
    {
      RootHeld(cell[..], t);
      RootOrder(t, key);
      RootTaken(t, key);
      var tmp := cell[root].right;
      root := cell[root].left;
      ghost var m := cell[..];
      SplayCharged(t.left, key, k);
      ghost var l, more := Splay(k, t.left);
      NothingAbove(l, key, k);
      RemoveSpends(before, spent, t, more, l);
      RootHeld(cell[..], l);
      JoinedHeld(m, cell[..], l, t, Dummy());
      cell[root] := cell[root].(right := tmp);
      joined, rounds := l.(right := t.right), spent + more;
    }
  }

  /** Nodes 0 and 1 have the same key and 0 is in the tree: removing 1 takes out
      0 and answers 1. */
  method TakesOutAnother() returns (h: Head, r: int, ghost before: seq<nat>)
    ensures h.Valid() && before == [0] && r == 1 && h.Contents() == []
  {
    h := new Head(2, n => 0);
    ghost var at, rounds;
    r, at, rounds := h.Insert(0);
    before := h.Contents();
    assert before[0] in before && h.key(before[0]) == h.key(1);
    r, at, rounds := h.Remove(1);
  }

  lemma UntouchedTwice(m: seq<Cell>, m1: seq<Cell>, m2: seq<Cell>, s: set<nat>, dummy: nat)
    requires Untouched(m, m1, s, dummy) && Untouched(m1, m2, s, dummy)
    ensures Untouched(m, m2, s, dummy)
  {}

  lemma AssembledUntouched(m: seq<Cell>, m1: seq<Cell>, n: nat, left: nat, right: nat, dummy: nat, all: set<nat>)
    requires Untouched(m, m1, all, dummy) && n < |m1| && left < |m1| && right < |m1| && dummy < |m1|
    requires n in all && left in all + {dummy} && right in all + {dummy}
    ensures Untouched(m, AssembledMem(m1, n, left, right, dummy), all, dummy)
  {}

  lemma FirstHeld(m: seq<Cell>, n: nat)
    requires n < |m| && m[n] == Cell(NULL, NULL)
    ensures
      var t := Bin(Nil, n, Nil);
      t.In(m) && t.Distinct() && t.Nodes() == {n} && t.InOrder() == [n]
  {}

  lemma RootHeld(m: seq<Cell>, t: Tree)
    requires t.In(m) && t.Bin?
    ensures t.node < |m| && m[t.node] == Cell(t.left.Ptr(), t.right.Ptr()) && t.InOrder() != []
    ensures NULL <= t.left.Ptr() < |m| && NULL <= t.right.Ptr() < |m|
    ensures t.left.In(m) && t.right.In(m)
    ensures t.left.Bin? ==> t.InOrder()[0] == t.left.InOrder()[0] && t.left.InOrder() != []
    ensures t.left.Nil? ==> t.InOrder()[0] == t.node
    ensures t.right.Bin? ==> t.right.InOrder() != []
  {}

  /** After a splay for k, a node with key k is at the root or nowhere. */
  lemma RootMatch(t: Tree, key: nat -> int, k: int)
    requires Parted(t, key, k)
    ensures t.node in t.InOrder()
    ensures key(t.node) == k <==> exists x :: x in t.InOrder() && key(x) == k
    ensures forall x :: x in t.InOrder() && key(x) == k ==> x == t.node
  {}

  lemma ElmIsNew(t: Tree, elm: nat, key: nat -> int)
    requires Parted(t, key, key(elm)) && key(elm) != key(t.node)
    ensures elm !in t.Nodes()
  {
    TreeNodes(t, elm);
  }

  lemma NextOfRoot(t: Tree)
    requires t.Bin?
    ensures IsNext(t.InOrder(), t.node, if t.right.InOrder() == [] then NULL else t.right.InOrder()[0])
  {
    var s := t.InOrder();
    assert NextAt(s, t.node, if t.right.InOrder() == [] then NULL else t.right.InOrder()[0], |t.left.InOrder()|);
  }

  lemma RootTaken(t: Tree, key: nat -> int)
    requires t.Bin? && Sorted(t.InOrder(), key)
    ensures
      var at, s := |t.left.InOrder()|, t.InOrder();
      && at < |s| && s[at] == t.node
      && t.left.InOrder() + t.right.InOrder() == s[..at] + s[at + 1..]
    ensures Sorted(t.left.InOrder() + t.right.InOrder(), key)
  {
    TakenOut(t.left.InOrder(), t.node, t.right.InOrder(), key);
  }

  lemma NothingAbove(t: Tree, key: nat -> int, k: int)
    requires Parted(t, key, k) && AllBelow(t.InOrder(), key, k)
    ensures t.right.Nil?
  {
    PartedBeyond(t, key, k, 1);
  }

  lemma JoinedHeld(m: seq<Cell>, m': seq<Cell>, l: Tree, t: Tree, dummy: nat)
    requires t.In(m) && t.Distinct() && t.Bin? && dummy !in t.Nodes()
    requires l.In(m') && l.Distinct() && l.Bin? && l.right.Nil?
    requires l.Nodes() == t.left.Nodes() && l.InOrder() == t.left.InOrder()
    requires Untouched(m, m', t.left.Nodes(), dummy)
    ensures l.node < |m'|
    ensures l.(right := t.right).In(m'[l.node := m'[l.node].(right := t.right.Ptr())])
    ensures l.(right := t.right).Distinct() && dummy !in l.(right := t.right).Nodes()
    ensures l.(right := t.right).InOrder() == t.left.InOrder() + t.right.InOrder()
  {
    var m2 := m'[l.node := m'[l.node].(right := t.right.Ptr())];
    TreeFrame(m, m2, t.right);
    TreeFrame(m', m2, l.left);
    assert l.InOrder() == l.left.InOrder() + [l.node];
  }
}
