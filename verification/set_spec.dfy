/** The reference both trees are measured against: a finite set of nodes with
    different keys, and what each operation may answer. */
module SetSpec {
  import opened Arena
  import opened Ordered

  datatype Op =
    | Insert(node: nat)
    | Remove(node: nat)
    | Find(k: int)
    | NFind(k: int)
    | Min
    | Max

  ghost predicate DistinctKeys(s: set<nat>, key: nat -> int) {
    forall x, y :: x in s && y in s && key(x) == key(y) ==> x == y
  }

  ghost predicate IsLeast(r: nat, s: set<nat>, key: nat -> int, from: int) {
    r in s && from <= key(r) && forall x :: x in s && from <= key(x) ==> key(r) <= key(x)
  }

  /** In state s, operation op may answer ans and leave s'. Removing a node that
      is not a member is not an operation of the program; a run skips it. */
  ghost predicate Step(s: set<nat>, key: nat -> int, op: Op, ans: int, s': set<nat>) {
    match op
    case Insert(n) =>
      if ans == NULL then s' == s + {n} && forall x :: x in s ==> key(x) != key(n)
      else ans in s && key(ans) == key(n) && s' == s
    case Remove(n) =>
      if ans == NULL then n !in s && s' == s else ans == n && n in s && s' == s - {n}
    case Find(k) =>
      s' == s && if ans == NULL then forall x :: x in s ==> key(x) != k else ans in s && key(ans) == k
    case NFind(k) =>
      s' == s && if ans == NULL then forall x :: x in s ==> key(x) < k else ans >= 0 && IsLeast(ans, s, key, k)
    case Min =>
      s' == s && if ans == NULL then s == {} else ans in s && forall x :: x in s ==> key(ans) <= key(x)
    case Max =>
      s' == s && if ans == NULL then s == {} else ans in s && forall x :: x in s ==> key(x) <= key(ans)
  }

  /** A run of ops from the empty set, with its answers and states. */
  ghost predicate IsRun(key: nat -> int, ops: seq<Op>, answers: seq<int>, states: seq<set<nat>>) {
    && |answers| == |ops| && |states| == |ops| + 1 && states[0] == {}
    && forall i :: 0 <= i < |ops| ==> Step(states[i], key, ops[i], answers[i], states[i + 1])
  }

  lemma StepDetermined(s: set<nat>, key: nat -> int, op: Op, a: int, t: set<nat>, b: int, u: set<nat>)
    requires DistinctKeys(s, key) && Step(s, key, op, a, t) && Step(s, key, op, b, u)
    ensures a == b && t == u && DistinctKeys(t, key)
  {}

  lemma {:induction false} AgreeUpTo(key: nat -> int, ops: seq<Op>, a: seq<int>, s: seq<set<nat>>, b: seq<int>,
                                     t: seq<set<nat>>, n: nat)
    requires IsRun(key, ops, a, s) && IsRun(key, ops, b, t) && n <= |ops|
    ensures s[n] == t[n] && DistinctKeys(s[n], key) && (n > 0 ==> a[n - 1] == b[n - 1])
  {
    if n > 0 {
      AgreeUpTo(key, ops, a, s, b, t, n - 1);
      StepDetermined(s[n - 1], key, ops[n - 1], a[n - 1], s[n], b[n - 1], t[n]);
    }
  }

  /** The reference leaves no freedom: any two programs that follow it give the
      same answers to the same operations. */
  lemma RunsAgree(key: nat -> int, ops: seq<Op>, a: seq<int>, s: seq<set<nat>>, b: seq<int>, t: seq<set<nat>>)
    requires IsRun(key, ops, a, s) && IsRun(key, ops, b, t)
    ensures a == b && s == t
  {
    forall n | 0 <= n <= |ops| ensures s[n] == t[n] && (n > 0 ==> a[n - 1] == b[n - 1]) {
      AgreeUpTo(key, ops, a, s, b, t, n);
    }
    forall i | 0 <= i < |ops| ensures a[i] == b[i] {
      AgreeUpTo(key, ops, a, s, b, t, i + 1);
    }
  }

  ghost function Members(s: seq<nat>): set<nat> {
    set x | x in s
  }

  lemma EndsOfSorted(s: seq<nat>, key: nat -> int)
    requires Sorted(s, key) && s != []
    ensures forall x :: x in s ==> key(s[0]) <= key(x) <= key(s[|s| - 1])
  {}

  lemma {:induction false} MembersSize(s: seq<nat>, key: nat -> int)
    requires Sorted(s, key)
    ensures |Members(s)| == |s|
  {
    if s != [] {
      var n := |s| - 1;
      assert s == s[..n] + [s[n]];
      MembersSize(s[..n], key);
      assert s[n] !in s[..n];
      assert Members(s) == Members(s[..n]) + {s[n]};
    }
  }

  lemma RunExtended(key: nat -> int, ops: seq<Op>, a: seq<int>, s: seq<set<nat>>, ans: int, t: set<nat>)
    requires |a| < |ops| && IsRun(key, ops[..|a|], a, s) && Step(s[|a|], key, ops[|a|], ans, t)
    ensures IsRun(key, ops[..|a| + 1], a + [ans], s + [t])
  {}

  lemma AddedMembers(s: seq<nat>, at: nat, n: nat)
    requires at <= |s|
    ensures Members(s[..at] + [n] + s[at..]) == Members(s) + {n}
  {}

  lemma RemovedMembers(s: seq<nat>, at: nat, key: nat -> int)
    requires Sorted(s, key) && at < |s|
    ensures Members(s[..at] + s[at + 1..]) == Members(s) - {s[at]}
  {}

  lemma {:induction false} SameMembersSameOrder(a: seq<nat>, b: seq<nat>, key: nat -> int)
    requires Sorted(a, key) && Sorted(b, key) && forall x :: x in a <==> x in b
    ensures a == b
  {
    if a == [] {
      SomeMember(b);
    } else if b == [] {
      SomeMember(a);
    } else {
      SameFirst(a, b, key);
      RestSorted(a, key);
      RestSorted(b, key);
      forall x ensures x in a[1..] <==> x in b[1..] {
        RestMembers(a, key, x);
        RestMembers(b, key, x);
      }
      SameMembersSameOrder(a[1..], b[1..], key);
      FirstAndRest(a);
      FirstAndRest(b);
    }
  }

  lemma SomeMember(s: seq<nat>)
    ensures s != [] ==> exists x :: x in s
  {
    if s != [] {
      assert s[0] in s;
    }
  }

  lemma FirstAndRest(s: seq<nat>)
    requires s != []
    ensures s == [s[0]] + s[1..]
  {}

  lemma RestSorted(s: seq<nat>, key: nat -> int)
    requires Sorted(s, key) && s != []
    ensures Sorted(s[1..], key)
  {}

  lemma SameFirst(a: seq<nat>, b: seq<nat>, key: nat -> int)
    requires Sorted(a, key) && Sorted(b, key) && a != [] && b != [] && forall x :: x in a <==> x in b
    ensures a[0] == b[0]
  {
    EndsOfSorted(a, key);
    EndsOfSorted(b, key);
    assert a[0] in b && b[0] in a;
    KeyUnique(a, key, a[0], b[0]);
  }

  lemma RestMembers(a: seq<nat>, key: nat -> int, x: nat)
    requires Sorted(a, key) && a != []
    ensures x in a[1..] <==> x in a && x != a[0]
  {}
}
