/** What a splay does to a tree, as a recursive function that says how many
    rounds it takes, and the amortised bound on those rounds. */
module SplayCost {
  import opened Arena
  import opened SplayShape

  ghost function Sub(t: Tree, side: Side): Tree
    requires t.Bin?
  {
    if side == OnLeft then t.left else t.right
  }

  /** The node n over near, on the given side, and far. */
  ghost function Over(side: Side, near: Tree, n: nat, far: Tree): Tree {
    if side == OnLeft then Bin(near, n, far) else Bin(far, n, near)
  }

  /** The rotation that lifts the child on the given side. */
  ghost function Lift(t: Tree, side: Side): Tree
    requires t.Bin? && Sub(t, side).Bin?
  {
    if side == OnLeft then RotR(t) else RotL(t)
  }

  ghost predicate Further(side: Side, k: int, at: int) {
    if side == OnLeft then k < at else at < k
  }

  datatype Outcome = Outcome(tree: Tree, rounds: nat)

  /** The root of u and its far subtree go to the other side of what was found
      below u on the near side. */
  ghost function Passed(o: Outcome, u: Tree, side: Side): Outcome
    requires o.tree.Bin? && u.Bin?
  {
    var far := side.Other();
    Outcome(Over(side, Sub(o.tree, side), o.tree.node, Over(side, Sub(o.tree, far), u.node, Sub(u, far))), o.rounds + 1)
  }

  ghost function Towards(t: Tree, key: nat -> int, k: int): Side
    requires t.Bin?
  {
    if k < key(t.node) then OnLeft else OnRight
  }

  /** The result of SPLAY and the number of rounds of its loop. */
  ghost function Splayed(t: Tree, key: nat -> int, k: int): (o: Outcome)
    requires t.Bin?
    ensures o.tree.Bin?
    decreases t
  {
    if k == key(t.node) then Outcome(t, 0)
    else
      var side := Towards(t, key, k);
      var near := Sub(t, side);
      if near.Nil? then Outcome(t, 1)
      else if !Further(side, k, key(near.node)) then Passed(Splayed(near, key, k), t, side)
      else if Sub(near, side).Nil? then Outcome(Lift(t, side), 1)
      else Passed(Splayed(Sub(near, side), key, k), Lift(t, side), side)
  }

  // ---- logarithms ----

  /** The binary logarithm, rounded down. */
  ghost function Lg(n: nat): nat {
    if n < 2 then 0 else 1 + Lg(n / 2)
  }

  lemma {:induction false} LgMonotone(a: nat, b: nat)
    requires a <= b
    ensures Lg(a) <= Lg(b)
  {
    if a >= 2 {
      LgMonotone(a / 2, b / 2);
    }
  }

  /** Two parts of a whole cannot both be as large as it is. */
  lemma LgParts(a: nat, b: nat, c: nat)
    requires 1 <= a && 1 <= b && a + b <= c
    ensures Lg(a) + Lg(b) <= 2 * Lg(c) - 1
  {}

  // ---- the potential ----

  ghost function Rank(t: Tree): nat {
    Lg(Size(t) + 1)
  }

  ghost function Potential(t: Tree): nat {
    if t.Nil? then 0 else Potential(t.left) + Potential(t.right) + Rank(t)
  }

  lemma OverParts(side: Side, near: Tree, n: nat, far: Tree)
    ensures
      var t := Over(side, near, n, far);
      && t.Bin? && t.node == n && Sub(t, side) == near && Sub(t, side.Other()) == far
      && Size(t) == Size(near) + 1 + Size(far)
      && Potential(t) == Potential(near) + Potential(far) + Rank(t)
  {}

  lemma Parts(t: Tree, side: Side)
    requires t.Bin?
    ensures
      var near, far := Sub(t, side), Sub(t, side.Other());
      && t == Over(side, near, t.node, far)
      && Size(t) == Size(near) + 1 + Size(far)
      && Potential(t) == Potential(near) + Potential(far) + Rank(t)
  {}

  lemma RankMonotone(a: Tree, b: Tree)
    requires Size(a) <= Size(b)
    ensures Rank(a) <= Rank(b)
  {
    hide Size, Lg;
    LgMonotone(Size(a) + 1, Size(b) + 1);
  }

  lemma RankParts(a: Tree, b: Tree, c: Tree)
    requires Size(a) + Size(b) < Size(c)
    ensures Rank(a) + Rank(b) <= 2 * Rank(c) - 1
  {
    hide Size, Lg;
    LgParts(Size(a) + 1, Size(b) + 1, Size(c) + 1);
  }

  ghost function Fringe(t: Tree): nat
    requires t.Bin?
  {
    Potential(t.left) + Potential(t.right)
  }

  /** The rounds are paid for by the fall of the potential and an allowance that
      is logarithmic in the size of the tree. The rank of the root, which does
      not change, is not counted in the potential of the result. */
  ghost predicate Affords(t: Tree, o: Outcome, spare: nat) {
    && o.tree.Bin? && Size(o.tree) == Size(t)
    && o.rounds + 2 * Fringe(o.tree) + spare <= 2 * Potential(t) + 4 * Rank(t) + 2
  }

  lemma AtRoot(t: Tree, rounds: nat)
    requires t.Bin? && rounds <= 1
    ensures Affords(t, Outcome(t, rounds), 1)
  {}

  lemma Lifted(t: Tree, side: Side)
    requires t.Bin? && Sub(t, side).Bin?
    ensures
      var n := Sub(t, side);
      var below := Over(side, Sub(n, side.Other()), t.node, Sub(t, side.Other()));
      && Lift(t, side) == Over(side, Sub(n, side), n.node, below)
      && Size(Lift(t, side)) == Size(t) && Size(below) < Size(t) && Size(below) + Size(Sub(n, side)) + 1 == Size(t)
      && Potential(t) == Potential(Sub(n, side)) + Potential(Sub(n, side.Other())) + Potential(Sub(t, side.Other()))
                         + Rank(n) + Rank(t)
      && Potential(below) == Potential(Sub(n, side.Other())) + Potential(Sub(t, side.Other())) + Rank(below)
  {}

  /** Nothing below the lifted child. */
  lemma LiftedRoot(t: Tree, side: Side)
    requires t.Bin? && Sub(t, side).Bin? && Sub(Sub(t, side), side).Nil?
    ensures Affords(t, Outcome(Lift(t, side), 1), 1)
  {
    Lifted(t, side);
    var n := Sub(t, side);
    var below := Over(side, Sub(n, side.Other()), t.node, Sub(t, side.Other()));
    RankMonotone(below, t);
    OverParts(side, Sub(n, side), n.node, below);
  }

  /** What was found below the near child passes the root. */
  lemma PassedParts(o: Outcome, u: Tree, side: Side)
    requires o.tree.Bin? && u.Bin? && Size(o.tree) == Size(Sub(u, side))
    ensures
      var p, far := Passed(o, u, side), side.Other();
      var below := Over(side, Sub(o.tree, far), u.node, Sub(u, far));
      && p.rounds == o.rounds + 1 && p.tree.Bin? && Size(p.tree) == Size(u)
      && Sub(p.tree, side) == Sub(o.tree, side) && Sub(p.tree, far) == below
      && Size(below) == Size(Sub(o.tree, far)) + 1 + Size(Sub(u, far)) && Size(below) < Size(u)
      && Potential(below) == Potential(Sub(o.tree, far)) + Potential(Sub(u, far)) + Rank(below)
  {}

  /** Two steps the same way. */
  lemma ZigZig(t: Tree, side: Side, o: Outcome)
    requires t.Bin? && Sub(t, side).Bin? && Sub(Sub(t, side), side).Bin?
    requires Affords(Sub(Sub(t, side), side), o, 0)
    ensures Affords(t, Passed(o, Lift(t, side), side), 0)
  {
    var n, u := Sub(t, side), Lift(t, side);
    var below := Over(side, Sub(n, side.Other()), t.node, Sub(t, side.Other()));
    Lifted(t, side);
    OverParts(side, Sub(n, side), n.node, below);
    PassedParts(o, u, side);
    var last := Over(side, Sub(o.tree, side.Other()), u.node, below);
    RankMonotone(last, t);
    RankParts(below, Sub(n, side), t);
    Parts(n, side);
    RankMonotone(Sub(n, side), n);
    hide Potential, Size, Rank, Over, Lift, Passed;
  }

  lemma FringeParts(t: Tree, side: Side)
    requires t.Bin?
    ensures Fringe(t) == Potential(Sub(t, side)) + Potential(Sub(t, side.Other()))
  {}

  /** One step, and the splay ends just below. */
  lemma OneStep(t: Tree, side: Side, o: Outcome)
    requires t.Bin? && Sub(t, side).Bin? && Affords(Sub(t, side), o, 1)
    ensures Affords(t, Passed(o, t, side), 0)
  {
    var p := Passed(o, t, side);
    PassedParts(o, t, side);
    Parts(t, side);
    FringeParts(o.tree, side);
    FringeParts(p.tree, side);
    RankMonotone(Sub(t, side), t);
    RankMonotone(Sub(p.tree, side.Other()), t);
    hide Potential, Size, Rank, Over, Passed, Fringe;
  }

  /** A step one way and then the other: the two nodes end up apart. */
  lemma ZigZag(t: Tree, side: Side, o: Outcome)
    requires t.Bin? && Sub(t, side).Bin? && Sub(Sub(t, side), side.Other()).Bin?
    requires Affords(Sub(Sub(t, side), side.Other()), o, 0)
    ensures Affords(t, Passed(Passed(o, Sub(t, side), side.Other()), t, side), 0)
  {
    var n, far := Sub(t, side), side.Other();
    var q := Passed(o, n, far);
    var p := Passed(q, t, side);
    PassedParts(o, n, far);
    PassedParts(q, t, side);
    Parts(t, side);
    Parts(n, far);
    Parts(p.tree, side);
    FringeParts(o.tree, side);
    FringeParts(p.tree, side);
    RankParts(Sub(p.tree, side), Sub(p.tree, far), t);
    RankMonotone(Sub(n, far), n);
    RankMonotone(Sub(n, far), t);
    hide Potential, Size, Rank, Over, Passed, Fringe;
  }

  /** A step one way and two the other. */
  lemma ZigZagZag(t: Tree, side: Side, o: Outcome)
    requires t.Bin? && Sub(t, side).Bin?
    requires Sub(Sub(t, side), side.Other()).Bin? && Sub(Sub(Sub(t, side), side.Other()), side.Other()).Bin?
    requires Affords(Sub(Sub(Sub(t, side), side.Other()), side.Other()), o, 0)
    ensures Affords(t, Passed(Passed(o, Lift(Sub(t, side), side.Other()), side.Other()), t, side), 0)
  {
    var n, far := Sub(t, side), side.Other();
    var x := Sub(n, far);
    var y := Sub(x, far);
    var u := Lift(n, far);
    Lifted(n, far);
    var below := Over(far, Sub(x, side), n.node, Sub(n, side));
    OverParts(far, y, x.node, below);
    var q := Passed(o, u, far);
    var p := Passed(q, t, side);
    PassedParts(o, u, far);
    PassedParts(q, t, side);
    Parts(t, side);
    Parts(n, far);
    Parts(x, far);
    Parts(p.tree, side);
    FringeParts(o.tree, side);
    FringeParts(p.tree, side);
    RankParts(Sub(p.tree, side), Sub(p.tree, far), t);
    RankParts(below, y, n);
    RankMonotone(y, x);
    RankMonotone(n, t);
    hide Potential, Size, Rank, Over, Passed, Fringe, Lift;
  }

  /** The amortised cost of SPLAY. */
  lemma {:induction false} SplayAffords(t: Tree, key: nat -> int, k: int)
    requires t.Bin?
    ensures Affords(t, Splayed(t, key, k), 0)
    decreases t
  {
    var side := Towards(t, key, k);
    var n := Sub(t, side);
    AtRoot(t, 0);
    AtRoot(t, 1);
    if k == key(t.node) || n.Nil? {
    } else if Further(side, k, key(n.node)) {
      if Sub(n, side).Nil? {
        LiftedRoot(t, side);
      } else {
        SplayAffords(Sub(n, side), key, k);
        ZigZig(t, side, Splayed(Sub(n, side), key, k));
      }
    } else {
      var far := side.Other();
      var x := Sub(n, far);
      AtRoot(n, 0);
      AtRoot(n, 1);
      if k == key(n.node) || x.Nil? {
        OneStep(t, side, Splayed(n, key, k));
      } else if !Further(far, k, key(x.node)) {
        SplayAffords(x, key, k);
        ZigZag(t, side, Splayed(x, key, k));
      } else if Sub(x, far).Nil? {
        LiftedRoot(n, far);
        OneStep(t, side, Splayed(n, key, k));
      } else {
        SplayAffords(Sub(x, far), key, k);
        ZigZagZag(t, side, Splayed(Sub(x, far), key, k));
      }
    }
    hide Affords;
  }

  /** What the rounds of one splay cost: they are paid for by the fall of the
      potential and an allowance logarithmic in the size of the tree. */
  ghost predicate Charged(t: Tree, rounds: nat, t': Tree) {
    Size(t') == Size(t) && rounds + 2 * Potential(t') <= 2 * Potential(t) + 6 * Rank(t) + 2
  }

  lemma SplayCharged(t: Tree, key: nat -> int, k: int)
    requires t.Bin?
    ensures Charged(t, Splayed(t, key, k).rounds, Splayed(t, key, k).tree)
  {
    SplayAffords(t, key, k);
    var o := Splayed(t, key, k);
    assert Potential(o.tree) == Fringe(o.tree) + Rank(o.tree);
  }

  // ---- the loop of SPLAY follows the function ----

  /** With spines l and r, middle tree t and the given rounds done, the loop is
      on its way to the outcome o. */
  ghost predicate OnWay(l: Spine, t: Tree, r: Spine, rounds: nat, o: Outcome, key: nat -> int, k: int) {
    t.Bin? && var rest := Splayed(t, key, k);
      o == Outcome(Assembled(l, rest.tree, r), rounds + rest.rounds)
  }

  /** One round with the key below the root of t0. */
  ghost predicate LeftRound(stop: bool, t: Tree, r: Spine, t0: Tree, r0: Spine, key: nat -> int, k: int) {
    t0.Bin? &&
    if t0.left.Nil? then stop && t == t0 && r == r0
    else
      var u := if k < key(t0.left.node) then RotR(t0) else t0;
      if u.left.Nil? then stop && t == u && r == r0
      else !stop && t == u.left && r == Link(r0, u.node, u.right)
  }

  ghost predicate RightRound(stop: bool, l: Spine, t: Tree, l0: Spine, t0: Tree, key: nat -> int, k: int) {
    t0.Bin? &&
    if t0.right.Nil? then stop && t == t0 && l == l0
    else
      var u := if key(t0.right.node) < k then RotL(t0) else t0;
      if u.right.Nil? then stop && t == u && l == l0
      else !stop && t == u.right && l == Link(l0, u.node, u.left)
  }

  lemma LeftOnWay(stop: bool, t: Tree, r: Spine, t0: Tree, r0: Spine, l: Spine, rounds: nat, o: Outcome,
                  key: nat -> int, k: int)
    requires LeftRound(stop, t, r, t0, r0, key, k) && k < key(t0.node) && OnWay(l, t0, r0, rounds, o, key, k)
    ensures if stop then t.Bin? && o == Outcome(Assembled(l, t, r), rounds + 1)
            else OnWay(l, t, r, rounds + 1, o, key, k)
  {
  }

  lemma RightOnWay(stop: bool, l: Spine, t: Tree, l0: Spine, t0: Tree, r: Spine, rounds: nat, o: Outcome,
                   key: nat -> int, k: int)
    requires RightRound(stop, l, t, l0, t0, key, k) && key(t0.node) < k && OnWay(l0, t0, r, rounds, o, key, k)
    ensures if stop then t.Bin? && o == Outcome(Assembled(l, t, r), rounds + 1)
            else OnWay(l, t, r, rounds + 1, o, key, k)
  {
  }

  /** At the start the loop is on its way to the splayed tree, and it is there
      when the key is at the root. */
  lemma SetsOut(t: Tree, key: nat -> int, k: int)
    requires t.Bin?
    ensures OnWay(Empty, t, Empty, 0, Splayed(t, key, k), key, k)
  {}

  lemma Arrived(l: Spine, t: Tree, r: Spine, rounds: nat, o: Outcome, key: nat -> int, k: int)
    requires OnWay(l, t, r, rounds, o, key, k) && k == key(t.node)
    ensures o == Outcome(Assembled(l, t, r), rounds)
  {}

  // ---- whole operations ----

  /** SPLAY_INSERT after its splay: the new root adds at most its own rank. */
  lemma ToppedPotential(t: Tree, n: nat, key: nat -> int)
    requires t.Bin?
    ensures Size(Topped(t, n, key)) == Size(t) + 1
    ensures Potential(Topped(t, n, key)) <= Potential(t) + Rank(Topped(t, n, key))
  {
    var low, high := t.(right := Nil), t.(left := Nil);
    OverParts(OnLeft, t.left, t.node, Nil);
    OverParts(OnLeft, Nil, t.node, t.right);
    OverParts(OnLeft, t.left, n, high);
    OverParts(OnLeft, low, n, t.right);
    Parts(t, OnLeft);
    RankMonotone(high, t);
    RankMonotone(low, t);
    assert Potential(Nil) == Size(Nil) == 0;
    hide Potential, Size, Rank;
  }

  /** SPLAY_REMOVE after its splays: hanging the larger nodes under l adds no
      more than the lost root gave. */
  lemma JoinedPotential(t: Tree, l: Tree)
    requires t.Bin? && l.Bin? && l.right.Nil? && Size(l) == Size(t.left)
    ensures Size(l.(right := t.right)) + 1 == Size(t)
    ensures Potential(l.(right := t.right)) <= Potential(l) + Potential(t.right) + Rank(t) - Rank(l)
  {
    RankMonotone(l.(right := t.right), t);
  }

  /** What one splay may cost in a tree of n nodes. */
  ghost function Allowance(n: nat): nat {
    6 * Lg(n + 1) + 2
  }

  /** An operation that turns tree t into t' in the given rounds costs no more
      than so many splays. */
  ghost predicate Spends(t: Tree, rounds: nat, t': Tree, splays: nat) {
    rounds + 2 * Potential(t') <=
    2 * Potential(t) + splays * Allowance(if Size(t) < Size(t') then Size(t') else Size(t))
  }

  lemma ScaledMore(few: nat, many: nat, a: nat)
    requires few <= many
    ensures few * a <= many * a
  {}

  lemma SpendsMore(t: Tree, rounds: nat, t': Tree, few: nat, many: nat)
    requires Spends(t, rounds, t', few) && few <= many
    ensures Spends(t, rounds, t', many)
  {
    ScaledMore(few, many, Allowance(if Size(t) < Size(t') then Size(t') else Size(t)));
    hide Potential, Size, Allowance;
  }

  lemma FindSpends(t: Tree, rounds: nat, t': Tree)
    requires Charged(t, rounds, t')
    ensures Spends(t, rounds, t', 1)
  {}

  lemma InsertSpends(t: Tree, rounds: nat, t': Tree, n: nat, key: nat -> int)
    requires Charged(t, rounds, t') && t'.Bin?
    ensures Spends(t, rounds, Topped(t', n, key), 2)
  {
    ToppedPotential(t', n, key);
    RankMonotone(t, Topped(t', n, key));
    hide Potential, Size, Lg, Topped;
  }

  lemma FirstSpends(n: nat)
    ensures Spends(Nil, 0, Bin(Nil, n, Nil), 2)
  {}

  /** A removal without the second splay. */
  lemma DropSpends(t: Tree, rounds: nat, t': Tree)
    requires Charged(t, rounds, t') && t'.Bin? && t'.left.Nil?
    ensures Spends(t, rounds, t'.right, 2)
  {}

  /** A removal with both splays. */
  lemma RemoveSpends(t: Tree, rounds: nat, t': Tree, rounds': nat, l: Tree)
    requires Charged(t, rounds, t') && t'.Bin? && t'.left.Bin?
    requires Charged(t'.left, rounds', l) && l.Bin? && l.right.Nil?
    ensures Spends(t, rounds + rounds', l.(right := t'.right), 2)
  {
    JoinedPotential(t', l);
    Parts(t', OnLeft);
    RankMonotone(t'.left, t);
    hide Potential, Size, Lg;
  }

  /** A look-up, which leaves the size alone, and a removal. */
  lemma SpendsBoth(t: Tree, rounds: nat, t': Tree, more: nat, t'': Tree)
    requires Spends(t, rounds, t', 1) && t'.InOrder() == t.InOrder() && Spends(t', more, t'', 2)
    ensures Spends(t, rounds + more, t'', 3)
  {
    SizeOfOrder(t);
    SizeOfOrder(t');
    AllowanceMonotone(Size(t), if Size(t) < Size(t'') then Size(t'') else Size(t));
    hide Potential, Size, Allowance;
  }

  /** One more splay. */
  lemma SpendsThen(t: Tree, rounds: nat, t': Tree, splays: nat, more: nat, t'': Tree)
    requires Spends(t, rounds, t', splays) && Spends(t', more, t'', 1)
    requires t'.InOrder() == t.InOrder() && t''.InOrder() == t.InOrder()
    ensures Spends(t, rounds + more, t'', splays + 1)
  {
    SizeOfOrder(t);
    SizeOfOrder(t');
    SizeOfOrder(t'');
    Times(splays, Allowance(Size(t)), Allowance(Size(t)));
    hide Potential, Size, Allowance;
  }

  /** Operations in a row: nothing is spent beyond the allowances, since the
      empty tree has no potential to fall back on. */
  ghost predicate Balance(rounds: nat, t: Tree, ops: nat, most: nat) {
    rounds + 2 * Potential(t) <= ops * (3 * Allowance(most))
  }

  lemma AllowanceMonotone(a: nat, b: nat)
    requires a <= b
    ensures Allowance(a) <= Allowance(b)
  {
    LgMonotone(a + 1, b + 1);
  }

  lemma Times(n: nat, a: nat, b: nat)
    requires a <= b
    ensures n * a <= n * b && (n + 1) * b == n * b + b
  {}

  lemma BalanceKept(rounds: nat, t: Tree, ops: nat, most: nat, r: nat, t': Tree, most': nat)
    requires Balance(rounds, t, ops, most) && Spends(t, r, t', 3)
    requires most <= most' && Size(t) <= most' && Size(t') <= most'
    ensures Balance(rounds + r, t', ops + 1, most')
  {
    AllowanceMonotone(most, most');
    AllowanceMonotone(if Size(t) < Size(t') then Size(t') else Size(t), most');
    Times(ops, 3 * Allowance(most), 3 * Allowance(most'));
    hide Potential, Size, Allowance;
  }

  lemma {:induction false} SizeOfOrder(t: Tree)
    ensures |t.InOrder()| == Size(t)
  {
    if t.Bin? {
      SizeOfOrder(t.left);
      SizeOfOrder(t.right);
    }
  }
}
