/** Whole runs of the splay tree against the reference set, and SPLAY_FOREACH. */
module SplayRun {
  import opened Arena
  import opened Ordered
  import opened SetSpec
  import opened SplayCost
  import opened SplayShape
  import opened SplayTree

  /** SPLAY_FOREACH: the tree changes shape between visits, the sequence does not. */
  method Foreach(h: Head) returns (visited: seq<nat>, ghost rounds: nat)
    requires h.Valid()
    modifies h, h.cell
    ensures h.Valid() && h.Contents() == old(h.Contents())
    ensures visited == h.Contents()
    ensures Spends(old(h.tree), rounds, h.tree, |visited| + 1)
  {
    hide h.Valid, Spends, Sorted, IsNext;
    ghost var s, key, t, i := h.Contents(), h.key, h.tree, 0;
    HeldSorted(h);
    visited := [];
    var x;
    x, rounds := h.MinMax(-1);
    while x != NULL
      invariant h.Valid() && h.Contents() == s
      invariant i <= |s| && visited == s[..i]
      invariant x == if i < |s| then s[i] else NULL
      invariant Spends(t, rounds, h.tree, i + 1)
      decreases |s| - i
    {
      visited := visited + [x];
      OneMore(s, i);
      ghost var before := h.tree;
      ghost var more;
      x, more := h.Next(x);
      SpendsThen(t, rounds, before, i + 1, more, h.tree);
      rounds := rounds + more;
      NextOf(s, key, i, x);
      i := i + 1;
    }
  }

  /** One operation on the tree. There is no splay counterpart of RB_NFIND, and
      a removal is only asked for members. */
  method Apply(h: Head, op: Op) returns (ans: int, ghost rounds: nat)
    requires h.Valid() && !op.NFind? && (op.Insert? ==> op.node < h.cell.Length - 1)
    modifies h, h.cell
    ensures h.Valid() && Step(old(Members(h.Contents())), h.key, op, ans, Members(h.Contents()))
    ensures Spends(old(h.tree), rounds, h.tree, 3)
  {
    hide Sorted, Spends;
    ghost var s, t := h.Contents(), h.tree;
    ghost var at;
    assert Sorted(s, h.key);
    hide h.Valid;
    match op
    case Insert(n) =>
      ans, at, rounds := h.Insert(n);
      SpendsMore(t, rounds, h.tree, 2, 3);
      if ans == NULL {
        AddedMembers(s, at, n);
      }
    case Remove(n) =>
      ans, rounds := h.Find(h.key(n));
      SpendsMore(t, rounds, h.tree, 1, 3);
      if ans == n {
        ghost var found := h.tree;
        ghost var more;
        ans, at, more := h.Remove(n);
        SpendsBoth(t, rounds, found, more, h.tree);
        rounds := rounds + more;
        KeyUnique(s, h.key, s[at], n);
        RemovedMembers(s, at, h.key);
      } else {
        if n in s { KeyUnique(s, h.key, ans, n); }
        ans := NULL;
      }
    case Find(k) =>
      ans, rounds := h.Find(k);
      SpendsMore(t, rounds, h.tree, 1, 3);
    case Min =>
      ans, rounds := h.MinMax(-1);
      SpendsMore(t, rounds, h.tree, 1, 3);
      if s != [] { EndsOfSorted(s, h.key); }
    case Max =>
      ans, rounds := h.MinMax(1);
      SpendsMore(t, rounds, h.tree, 1, 3);
      if s != [] { EndsOfSorted(s, h.key); }
  }

  /** Part of a run has been done: the answers so far, the sets so far, the
      rounds of all splays and the size of the largest set. */
  ghost predicate Underway(h: Head, ops: seq<Op>, answers: seq<int>, states: seq<set<nat>>, rounds: nat, most: nat)
    reads h, h.cell
  {
    h.Valid() && Tally(h.key, h.tree, ops, answers, states, rounds, most)
  }

  ghost predicate Tally(key: nat -> int, t: Tree, ops: seq<Op>, answers: seq<int>, states: seq<set<nat>>,
                        rounds: nat, most: nat)
  {
    && |answers| <= |ops|
    && IsRun(key, ops[..|answers|], answers, states) && states[|answers|] == Members(t.InOrder())
    && IsLargest(most, states) && Size(t) <= most && Balance(rounds, t, |answers|, most)
  }

  /** One operation more, which turns tree t into t'. */
  lemma TallyNext(key: nat -> int, t: Tree, ops: seq<Op>, answers: seq<int>, states: seq<set<nat>>,
                  rounds: nat, most: nat, ans: int, more: nat, t': Tree)
    returns (most': nat)
    requires Tally(key, t, ops, answers, states, rounds, most) && |answers| < |ops|
    requires Step(Members(t.InOrder()), key, ops[|answers|], ans, Members(t'.InOrder()))
    requires Spends(t, more, t', 3) && Sorted(t'.InOrder(), key)
    ensures Tally(key, t', ops, answers + [ans], states + [Members(t'.InOrder())], rounds + more, most')
  {
    hide Spends, Balance, Step, Sorted, Size, IsRun, IsLargest, Members;
    RunLength(key, ops[..|answers|], answers, states);
    RunExtended(key, ops, answers, states, ans, Members(t'.InOrder()));
    most' := LargestSoFar(most, states, t', key);
    BalanceKept(rounds, t, |answers|, most, more, t', most');
  }

  /** The next operation of a run. */
  method Advance(h: Head, ops: seq<Op>, answers0: seq<int>, ghost states0: seq<set<nat>>, ghost rounds0: nat,
                 ghost most0: nat)
    returns (answers: seq<int>, ghost states: seq<set<nat>>, ghost rounds: nat, ghost most: nat)
    requires Underway(h, ops, answers0, states0, rounds0, most0) && |answers0| < |ops|
    requires var op := ops[|answers0|]; !op.NFind? && (op.Insert? ==> op.node < h.cell.Length - 1)
    modifies h, h.cell
    ensures Underway(h, ops, answers, states, rounds, most) && |answers| == |answers0| + 1 <= |ops|
  {
    hide h.Valid, Tally, Spends, Step, Members, Sorted;
    ghost var before := h.tree;
    var ans;
    ghost var more;
    ans, more := Apply(h, ops[|answers0|]);
    HeldSorted(h);
    most := TallyNext(h.key, before, ops, answers0, states0, rounds0, most0, ans, more, h.tree);
    rounds := rounds0 + more;
    answers, states := answers0 + [ans], states0 + [Members(h.Contents())];
  }

  lemma HeldSorted(h: Head)
    requires h.Valid()
    ensures Sorted(h.tree.InOrder(), h.key)
  {}

  lemma RunLength(key: nat -> int, ops: seq<Op>, answers: seq<int>, states: seq<set<nat>>)
    requires IsRun(key, ops, answers, states)
    ensures |states| == |answers| + 1
  {}

  /** Any run from the empty tree answers as the finite set does. All its splays
      together take a number of rounds that is, per operation, logarithmic in
      the largest number of nodes the tree ever has. */
  method Run(capacity: nat, key: nat -> int, ops: seq<Op>)
    returns (h: Head, answers: seq<int>, ghost states: seq<set<nat>>, ghost rounds: nat, ghost most: nat)
    requires forall op :: op in ops ==> !op.NFind? && (op.Insert? ==> op.node < capacity)
    ensures fresh(h) && h.Valid() && h.key == key && IsRun(key, ops, answers, states)
    ensures states[|ops|] == Members(h.Contents())
    ensures IsLargest(most, states)
    ensures rounds <= |ops| * (18 * Lg(most + 1) + 6)
  {
    hide *;
    h := new Head(capacity, key);
    answers, states := [], [{}];
    rounds, most := 0, 0;
    SetsOff(h, ops);
    while |answers| < |ops|
      invariant fresh(h) && fresh(h.cell) && h.cell.Length == capacity + 1 && h.key == key
      invariant |answers| <= |ops| && Underway(h, ops, answers, states, rounds, most)
    {
      assert ops[|answers|] in ops;
      answers, states, rounds, most := Advance(h, ops, answers, states, rounds, most);
    }
    AllDone(h, ops, answers, states, rounds, most);
  }

  lemma SetsOff(h: Head, ops: seq<Op>)
    requires h.Valid() && h.Contents() == []
    ensures Underway(h, ops, [], [{}], 0, 0)
  {
    var states: seq<set<nat>> := [{}];
    assert {} in states;
    assert h.tree.Nil?;
  }

  lemma AllDone(h: Head, ops: seq<Op>, answers: seq<int>, states: seq<set<nat>>, rounds: nat, most: nat)
    requires Underway(h, ops, answers, states, rounds, most) && |answers| == |ops|
    ensures h.Valid() && IsRun(h.key, ops, answers, states) && states[|ops|] == Members(h.Contents())
    ensures IsLargest(most, states) && rounds <= |ops| * (18 * Lg(most + 1) + 6)
  {}

  /** The size of the largest of the given sets. */
  ghost predicate IsLargest(n: nat, states: seq<set<nat>>) {
    (forall s :: s in states ==> |s| <= n) && exists s :: s in states && |s| == n
  }

  lemma LargestSoFar(n: nat, states: seq<set<nat>>, t: Tree, key: nat -> int) returns (n': nat)
    requires IsLargest(n, states) && Sorted(t.InOrder(), key)
    ensures n' >= n && n' >= Size(t) && IsLargest(n', states + [Members(t.InOrder())])
  {
    SizeOfOrder(t);
    MembersSize(t.InOrder(), key);
    n' := if n < Size(t) then Size(t) else n;
    var all := states + [Members(t.InOrder())];
    assert all[|states|] == Members(t.InOrder());
    var s :| s in states && |s| == n;
    assert s in all;
  }
}
