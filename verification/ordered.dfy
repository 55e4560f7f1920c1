/** Sequences of nodes in key order, the common abstraction of both trees. */
module Ordered {
  import opened Arena

  ghost predicate Sorted(s: seq<nat>, key: nat -> int) {
    forall i, j :: 0 <= i < j < |s| ==> key(s[i]) < key(s[j])
  }

  ghost predicate AllBelow(s: seq<nat>, key: nat -> int, k: int) {
    forall x :: x in s ==> key(x) < k
  }

  ghost predicate AllAbove(s: seq<nat>, key: nat -> int, k: int) {
    forall x :: x in s ==> k < key(x)
  }

  lemma SortedAround(a: seq<nat>, x: nat, b: seq<nat>, key: nat -> int)
    ensures Sorted(a + [x] + b, key) <==>
            Sorted(a, key) && Sorted(b, key) && AllBelow(a, key, key(x)) && AllAbove(b, key, key(x))
  {
    var s := a + [x] + b;
    assert s[|a|] == x;
    assert forall i :: 0 <= i < |a| ==> s[i] == a[i];
    assert forall i :: 0 <= i < |b| ==> s[|a| + 1 + i] == b[i];
    if Sorted(s, key) {
      forall i | 0 <= i < |a| ensures key(a[i]) < key(x) {
        assert key(s[i]) < key(s[|a|]);
      }
      forall i | 0 <= i < |b| ensures key(x) < key(b[i]) {
        assert key(s[|a|]) < key(s[|a| + 1 + i]);
      }
      forall i, j | 0 <= i < j < |b| ensures key(b[i]) < key(b[j]) {
        assert key(s[|a| + 1 + i]) < key(s[|a| + 1 + j]);
      }
    } else if Sorted(a, key) && Sorted(b, key) && AllBelow(a, key, key(x)) && AllAbove(b, key, key(x)) {
      forall i, j | 0 <= i < j < |s| ensures key(s[i]) < key(s[j]) {
        Placed(a, x, b, key, i, j);
      }
    }
  }

  lemma Placed(a: seq<nat>, x: nat, b: seq<nat>, key: nat -> int, i: nat, j: nat)
    requires Sorted(a, key) && Sorted(b, key) && AllBelow(a, key, key(x)) && AllAbove(b, key, key(x))
    requires i < j < |a + [x] + b|
    ensures key((a + [x] + b)[i]) < key((a + [x] + b)[j])
  {
    var s := a + [x] + b;
    assert i < |a| ==> s[i] == a[i] && a[i] in a;
    assert i > |a| ==> s[i] == b[i - |a| - 1];
    assert j < |a| ==> s[j] == a[j];
    assert j > |a| ==> s[j] == b[j - |a| - 1] && b[j - |a| - 1] in b;
  }

  /** Taking one element out of a sorted sequence. */
  lemma TakenOut(l: seq<nat>, x: nat, r: seq<nat>, key: nat -> int)
    requires Sorted(l + [x] + r, key)
    ensures var s := l + [x] + r; s[|l|] == x && s[..|l|] + s[|l| + 1..] == l + r
    ensures Sorted(l + r, key)
  {}

  lemma SortedParts(a: seq<nat>, b: seq<nat>, key: nat -> int)
    requires Sorted(a + b, key)
    ensures Sorted(a, key) && Sorted(b, key)
  {
    var s := a + b;
    assert forall i :: 0 <= i < |a| ==> s[i] == a[i];
    forall i, j | 0 <= i < j < |b| ensures key(b[i]) < key(b[j]) {
      assert s[|a| + i] == b[i] && s[|a| + j] == b[j];
    }
  }

  ghost predicate NextAt(s: seq<nat>, x: nat, r: int, i: int) {
    0 <= i < |s| && s[i] == x && r == if i + 1 < |s| then s[i + 1] else NULL
  }

  ghost predicate PrevAt(s: seq<nat>, x: nat, r: int, i: int) {
    0 <= i < |s| && s[i] == x && r == if i > 0 then s[i - 1] else NULL
  }

  /** r is the element after x, or NULL at the end. */
  ghost predicate IsNext(s: seq<nat>, x: nat, r: int) {
    exists i :: NextAt(s, x, r, i)
  }

  ghost predicate IsPrev(s: seq<nat>, x: nat, r: int) {
    exists i :: PrevAt(s, x, r, i)
  }

  lemma IndexUnique(s: seq<nat>, key: nat -> int, i: nat, j: nat)
    requires Sorted(s, key) && i < |s| && j < |s| && s[i] == s[j]
    ensures i == j
  {}

  lemma KeyUnique(s: seq<nat>, key: nat -> int, x: nat, y: nat)
    requires Sorted(s, key) && x in s && y in s && key(x) == key(y)
    ensures x == y
  {}

  /** On a sorted sequence the two steps undo each other. */
  lemma NextPrevInverse(s: seq<nat>, key: nat -> int, x: nat, y: nat)
    requires Sorted(s, key)
    ensures IsNext(s, x, y) <==> IsPrev(s, y, x)
  {
    if IsNext(s, x, y) {
      var i :| NextAt(s, x, y, i);
      assert PrevAt(s, y, x, i + 1);
    }
    if IsPrev(s, y, x) {
      var i :| PrevAt(s, y, x, i);
      assert NextAt(s, x, y, i - 1);
    }
  }

  /** The next element is the least one above x. */
  lemma NextIsLeastAbove(s: seq<nat>, key: nat -> int, x: nat, r: int)
    requires Sorted(s, key) && x in s
    ensures IsNext(s, x, r) <==>
            if r >= 0 then r in s && key(x) < key(r) && forall y :: y in s && key(x) < key(y) ==> key(r) <= key(y)
            else r == NULL && forall y :: y in s ==> key(y) <= key(x)
  {
    var i :| 0 <= i < |s| && s[i] == x;
    var n: int := if i + 1 < |s| then s[i + 1] else NULL;
    forall j | 0 <= j < |s| ensures key(x) < key(s[j]) <==> i < j {
      if i < j { assert key(s[i]) < key(s[j]); }
      if j < i { assert key(s[j]) < key(s[i]); }
    }
    forall j | i + 1 < j < |s| ensures key(s[i + 1]) < key(s[j]) {}
    assert NextAt(s, x, n, i);
  }

  /** The previous element is the greatest one below x. */
  lemma PrevIsGreatestBelow(s: seq<nat>, key: nat -> int, x: nat, r: int)
    requires Sorted(s, key) && x in s
    ensures IsPrev(s, x, r) <==>
            if r >= 0 then r in s && key(r) < key(x) && forall y :: y in s && key(y) < key(x) ==> key(y) <= key(r)
            else r == NULL && forall y :: y in s ==> key(x) <= key(y)
  {
    var i :| 0 <= i < |s| && s[i] == x;
    var p: int := if i > 0 then s[i - 1] else NULL;
    forall j | 0 <= j < |s| ensures key(s[j]) < key(x) <==> j < i {
      if j < i { assert key(s[j]) < key(s[i]); }
      if i < j { assert key(s[i]) < key(s[j]); }
    }
    forall j | 0 <= j < i - 1 ensures key(s[j]) < key(s[i - 1]) {}
    assert PrevAt(s, x, p, i);
  }

  lemma NextOf(s: seq<nat>, key: nat -> int, i: nat, r: int)
    requires Sorted(s, key) && i < |s| && IsNext(s, s[i], r)
    ensures r == if i + 1 < |s| then s[i + 1] else NULL
  {}

  lemma PrevOf(s: seq<nat>, key: nat -> int, i: nat, r: int)
    requires Sorted(s, key) && i < |s| && IsPrev(s, s[i], r)
    ensures r == if i > 0 then s[i - 1] else NULL
  {}

  lemma OneMore(s: seq<nat>, i: nat)
    requires i < |s|
    ensures s[..i] + [s[i]] == s[..i + 1]
  {}

  /** s without the members of gone. */
  ghost function Keep(s: seq<nat>, gone: set<nat>): seq<nat> {
    if s == [] then []
    else if s[|s| - 1] in gone then Keep(s[..|s| - 1], gone)
    else Keep(s[..|s| - 1], gone) + [s[|s| - 1]]
  }

  lemma {:induction false} KeepMembers(s: seq<nat>, gone: set<nat>, x: nat)
    ensures x in Keep(s, gone) <==> x in s && x !in gone
  {
    if s != [] {
      KeepMembers(s[..|s| - 1], gone, x);
      assert s == s[..|s| - 1] + [s[|s| - 1]];
    }
  }

  lemma {:induction false} KeepAll(s: seq<nat>, gone: set<nat>)
    requires forall x :: x in s ==> x !in gone
    ensures Keep(s, gone) == s
  {
    if s != [] {
      KeepAll(s[..|s| - 1], gone);
      assert s == s[..|s| - 1] + [s[|s| - 1]];
    }
  }

  lemma {:induction false} KeepConcat(a: seq<nat>, b: seq<nat>, gone: set<nat>)
    ensures Keep(a + b, gone) == Keep(a, gone) + Keep(b, gone)
  {
    if b == [] {
      assert a + b == a;
    } else {
      KeepConcat(a, b[..|b| - 1], gone);
      assert (a + b)[..|a + b| - 1] == a + b[..|b| - 1];
    }
  }

  /** Dropping one more member takes exactly that member out. */
  lemma KeepOneLess(s: seq<nat>, gone: set<nat>, k: seq<nat>, at: nat, key: nat -> int)
    requires Sorted(s, key) && k == Keep(s, gone) && at < |k|
    ensures k[..at] + k[at + 1..] == Keep(s, gone + {k[at]})
  {
    var x := k[at];
    KeepMembers(s, gone, x);
    var i :| 0 <= i < |s| && s[i] == x;
    var a, b := s[..i], s[i + 1..];
    assert s == a + [x] + b;
    SortedAround(a, x, b, key);
    KeepAround(a, x, b, gone);
    OnlyOnce(Keep(a, gone), Keep(b, gone), x, at, a, b, gone);
  }

  lemma KeepAround(a: seq<nat>, x: nat, b: seq<nat>, gone: set<nat>)
    requires x !in a && x !in b && x !in gone
    ensures Keep(a + [x] + b, gone) == Keep(a, gone) + [x] + Keep(b, gone)
    ensures Keep(a + [x] + b, gone + {x}) == Keep(a, gone) + Keep(b, gone)
  {
    KeepConcat(a + [x], b, gone);
    KeepConcat(a, [x], gone);
    KeepConcat(a + [x], b, gone + {x});
    KeepConcat(a, [x], gone + {x});
    KeepSame(a, gone, x);
    KeepSame(b, gone, x);
    assert Keep([x], gone) == [x] && Keep([x], gone + {x}) == [] by { assert [x][..0] == []; }
    hide Keep;
  }

  lemma {:induction false} KeepSame(s: seq<nat>, gone: set<nat>, x: nat)
    requires x !in s
    ensures Keep(s, gone + {x}) == Keep(s, gone)
  {
    if s != [] {
      KeepSame(s[..|s| - 1], gone, x);
    }
  }

  lemma TakeOut(a: seq<nat>, x: nat, b: seq<nat>)
    ensures (a + [x] + b)[..|a|] + (a + [x] + b)[|a| + 1..] == a + b
  {}

  lemma OnlyOnce(ka: seq<nat>, kb: seq<nat>, x: nat, at: nat, a: seq<nat>, b: seq<nat>, gone: set<nat>)
    requires ka == Keep(a, gone) && kb == Keep(b, gone) && x !in a && x !in b
    requires at < |ka + [x] + kb| && (ka + [x] + kb)[at] == x
    ensures at == |ka| && (ka + [x] + kb)[..at] + (ka + [x] + kb)[at + 1..] == ka + kb
  {
    KeepMembers(a, gone, x);
    KeepMembers(b, gone, x);
    var k := ka + [x] + kb;
    hide Keep;
    assert forall i :: 0 <= i < |ka| ==> k[i] in ka;
    assert forall i :: |ka| < i < |k| ==> k[i] == kb[i - |ka| - 1];
    TakeOut(ka, x, kb);
  }

  lemma {:induction false} KeepSorted(s: seq<nat>, gone: set<nat>, key: nat -> int)
    requires Sorted(s, key)
    ensures Sorted(Keep(s, gone), key)
  {
    if s != [] {
      var n := |s| - 1;
      assert forall i :: 0 <= i < n ==> s[..n][i] == s[i];
      KeepSorted(s[..n], gone, key);
      forall x | x in Keep(s[..n], gone) ensures key(x) < key(s[n]) {
        KeepMembers(s[..n], gone, x);
      }
    }
  }
}
