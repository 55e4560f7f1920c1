/** Whole runs of the red-black tree against the reference set. */
module RBRun {
  import opened Arena
  import opened Ordered
  import opened RBBalance
  import opened RBTree
  import opened SetSpec

  /** One operation on the tree. A removal is only asked for members. */
  method Apply(h: Head, op: Op) returns (ans: int)
    requires h.Valid() && (op.Insert? ==> op.node < h.cell.Length)
    modifies h, h.cell
    ensures h.Valid() && Step(old(Members(h.Contents())), h.key, op, ans, Members(h.Contents()))
  {
    hide Sorted;
    ghost var s := h.Contents();
    ghost var at, steps, rounds;
    assert Sorted(s, h.key);
    hide h.Valid, AtMostTwiceLog;
    match op
    case Insert(n) =>
      ans, at, steps, rounds := h.Insert(n);
      if ans == NULL {
        AddedMembers(s, at, n);
      }
    case Remove(n) =>
      ans, steps := h.Find(h.key(n));
      if ans == n {
        ans, at, steps, rounds := h.Remove(n);
        RemovedMembers(s, at, h.key);
      } else {
        if n in s { KeyUnique(s, h.key, ans, n); }
        ans := NULL;
      }
    case Find(k) =>
      ans, steps := h.Find(k);
    case NFind(k) =>
      ans, steps := h.NFind(k);
    case Min =>
      ans, steps := h.MinMax(-1);
      if s != [] { EndsOfSorted(s, h.key); }
    case Max =>
      ans, steps := h.MinMax(1);
      if s != [] { EndsOfSorted(s, h.key); }
  }

  /** Any run from the empty tree answers as the finite set does. */
  method Run(capacity: nat, key: nat -> int, ops: seq<Op>)
    returns (h: Head, answers: seq<int>, ghost states: seq<set<nat>>)
    requires forall op :: op in ops && op.Insert? ==> op.node < capacity
    ensures fresh(h) && h.Valid() && h.key == key && IsRun(key, ops, answers, states)
    ensures states[|ops|] == Members(h.Contents())
  {
    h := new Head(capacity, key);
    answers, states := [], [{}];
    while |answers| < |ops|
      invariant |answers| <= |ops| && fresh(h) && fresh(h.cell) && h.Valid()
      invariant h.cell.Length == capacity && h.key == key
      invariant IsRun(key, ops[..|answers|], answers, states)
      invariant states[|answers|] == Members(h.Contents())
    {
      var op := ops[|answers|];
      var ans := Apply(h, op);
      RunExtended(key, ops, answers, states, ans, Members(h.Contents()));
      answers, states := answers + [ans], states + [Members(h.Contents())];
    }
    assert ops[..|ops|] == ops;
  }
}
