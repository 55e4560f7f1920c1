/** The two trees on the same run. */
module BothRuns {
  import RBRun
  import RBTree
  import SplayRun
  import SplayTree
  import opened Ordered
  import opened SetSpec

  /** A red-black tree and a splay tree given the same operations give the same
      answers and end with the same sequence. */
  method Compare(capacity: nat, key: nat -> int, ops: seq<Op>)
    returns (rb: RBTree.Head, sp: SplayTree.Head, answers: seq<int>, answers': seq<int>)
    requires forall op :: op in ops ==> !op.NFind? && (op.Insert? ==> op.node < capacity)
    ensures rb.Valid() && sp.Valid() && rb.Contents() == sp.Contents()
    ensures answers' == answers
    ensures exists states :: IsRun(key, ops, answers, states) && states[|ops|] == Members(rb.Contents())
  {
    ghost var s, t, rounds, most;
    rb, answers, s := RBRun.Run(capacity, key, ops);
    sp, answers', t, rounds, most := SplayRun.Run(capacity, key, ops);
    assert Sorted(rb.Contents(), key) && Sorted(sp.Contents(), key);
    hide IsRun, rb.Valid, sp.Valid, Sorted;
    RunsAgree(key, ops, answers, s, answers', t);
    assert forall x :: x in rb.Contents() <==> x in Members(rb.Contents());
    assert forall x :: x in sp.Contents() <==> x in Members(sp.Contents());
    SameMembersSameOrder(rb.Contents(), sp.Contents(), key);
  }
}
