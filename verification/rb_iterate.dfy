/** The RB_FOREACH loops. */
module RBIterate {
  import opened Arena
  import opened Ordered
  import opened RBTree

  /** RB_FOREACH. */
  method Foreach(h: Head) returns (visited: seq<nat>)
    requires h.Valid()
    ensures visited == h.Contents()
  {
    ghost var s := h.Contents();
    visited := [];
    ghost var steps;
    var x;
    x, steps := h.MinMax(-1);
    while x != NULL
      invariant |visited| <= |s| && visited == s[..|visited|]
      invariant x == if |visited| < |s| then s[|visited|] else NULL
      decreases |s| - |visited|
    {
      ghost var i := |visited|;
      visited := visited + [x];
      x, steps := h.Next(x);
      NextOf(s, h.key, i, x);
    }
  }

  /** RB_FOREACH_REVERSE. */
  method ForeachReverse(h: Head) returns (visited: seq<nat>)
    requires h.Valid()
    ensures |visited| == |h.Contents()|
    ensures forall i :: 0 <= i < |visited| ==> visited[i] == h.Contents()[|visited| - 1 - i]
  {
    ghost var s := h.Contents();
    visited := [];
    ghost var steps;
    var x;
    x, steps := h.MinMax(1);
    while x != NULL
      invariant |visited| <= |s| && forall i :: 0 <= i < |visited| ==> visited[i] == s[|s| - 1 - i]
      invariant x == if |visited| < |s| then s[|s| - 1 - |visited|] else NULL
      decreases |s| - |visited|
    {
      ghost var i := |s| - 1 - |visited|;
      visited := visited + [x];
      x, steps := h.Prev(x);
      PrevOf(s, h.key, i, x);
    }
  }

  // ---- loops whose body may remove nodes ----

  /** v is s from position k on, or from position k back to the front. */
  ghost predicate Route(s: seq<nat>, v: seq<nat>, k: int, back: bool) {
    && (if back then -1 <= k < |s| && |v| == k + 1 else 0 <= k <= |s| && |v| == |s| - k)
    && forall i :: 0 <= i < |v| ==> v[i] == s[if back then k - i else k + i]
  }

  ghost function TheRoute(s: seq<nat>, k: int, back: bool): (v: seq<nat>)
    requires if back then -1 <= k < |s| else 0 <= k <= |s|
    ensures Route(s, v, k, back)
  {
    if back then seq(k + 1, i requires 0 <= i <= k => s[k - i]) else s[k..]
  }

  /** The node after v[i] on the route. */
  ghost function After(v: seq<nat>, i: int): int
    requires -1 <= i
  {
    if i + 1 < |v| then v[i + 1] else NULL
  }

  ghost predicate Follows(s: seq<nat>, x: nat, y: int, back: bool) {
    if back then IsPrev(s, x, y) else IsNext(s, x, y)
  }

  /** The node visited in round i is among those chosen in round j, i <= j < n. */
  ghost predicate ChosenAt(v: seq<nat>, chosen: nat -> set<nat>, n: nat, x: nat, i: int, j: int) {
    0 <= i <= j < n <= |v| && v[i] == x && x in chosen(j)
  }

  ghost predicate GoneBy(v: seq<nat>, chosen: nat -> set<nat>, n: nat, gone: set<nat>) {
    forall x :: x in gone <==> exists i, j :: ChosenAt(v, chosen, n, x, i, j)
  }

  /** The loop state after n rounds: what is left of the original sequence s are
      the nodes not chosen in an earlier round. */
  ghost predicate Midway(h: Head, s: seq<nat>, v: seq<nat>, k: int, back: bool, n: nat,
                         chosen: nat -> set<nat>, gone: set<nat>)
    reads h, h.cell
  {
    && h.Valid() && Sorted(s, h.key) && n <= |v| && Route(s, v, k, back)
    && h.Contents() == Keep(s, gone) && GoneBy(v, chosen, n, gone)
  }

  /** RB_FOREACH_SAFE with a body that, in round i, removes those nodes of
      chosen(i) that have been visited and are still there. Every original node
      is visited once and in order; the nodes left are those never chosen from
      their own round on. */
  method ForeachSafe(h: Head, chosen: nat -> set<nat>) returns (visited: seq<nat>, ghost gone: set<nat>)
    requires h.Valid()
    modifies h, h.cell
    ensures h.Valid()
    ensures visited == old(h.Contents())
    ensures h.Contents() == Keep(visited, gone)
    ensures GoneBy(visited, chosen, |visited|, gone)
  {
    ghost var steps;
    var x;
    x, steps := h.MinMax(-1);
    visited, gone := SafeLoop(h, x, false, chosen, 0);
  }

  /** RB_FOREACH_REVERSE_SAFE, with the same kind of body. */
  method ForeachReverseSafe(h: Head, chosen: nat -> set<nat>) returns (visited: seq<nat>, ghost gone: set<nat>)
    requires h.Valid()
    modifies h, h.cell
    ensures h.Valid()
    ensures |visited| == |old(h.Contents())|
    ensures forall i :: 0 <= i < |visited| ==> visited[i] == old(h.Contents())[|visited| - 1 - i]
    ensures h.Contents() == Keep(old(h.Contents()), gone)
    ensures GoneBy(visited, chosen, |visited|, gone)
  {
    ghost var steps;
    var x;
    x, steps := h.MinMax(1);
    visited, gone := SafeLoop(h, x, true, chosen, |h.Contents()| - 1);
  }

  /** RB_FOREACH_FROM: the same loop from any member on. */
  method ForeachFrom(h: Head, y: int, chosen: nat -> set<nat>) returns (visited: seq<nat>, ghost gone: set<nat>)
    requires h.Valid() && (y == NULL || (y >= 0 && y in h.Contents()))
    modifies h, h.cell
    ensures h.Valid()
    ensures y == NULL ==> visited == []
    ensures y != NULL ==> exists k :: 0 <= k < |old(h.Contents())| && old(h.Contents())[k] == y
                                      && visited == old(h.Contents())[k..]
    ensures h.Contents() == Keep(old(h.Contents()), gone)
    ensures GoneBy(visited, chosen, |visited|, gone)
  {
    ghost var s := h.Contents();
    ghost var k: int := |s|;
    if y != NULL {
      k :| 0 <= k < |s| && s[k] == y;
    }
    visited, gone := SafeLoop(h, y, false, chosen, k);
    assert visited == s[k..];
  }

  /** RB_FOREACH_REVERSE_FROM. */
  method ForeachReverseFrom(h: Head, y: int, chosen: nat -> set<nat>)
    returns (visited: seq<nat>, ghost gone: set<nat>, ghost k: int)
    requires h.Valid() && (y == NULL || (y >= 0 && y in h.Contents()))
    modifies h, h.cell
    ensures h.Valid()
    ensures if y == NULL then k == -1 else 0 <= k < |old(h.Contents())| && old(h.Contents())[k] == y
    ensures |visited| == k + 1 && forall i :: 0 <= i <= k ==> visited[i] == old(h.Contents())[k - i]
    ensures h.Contents() == Keep(old(h.Contents()), gone)
    ensures GoneBy(visited, chosen, |visited|, gone)
  {
    ghost var s := h.Contents();
    k := -1;
    if y != NULL {
      k :| 0 <= k < |s| && s[k] == y;
    }
    visited, gone := SafeLoop(h, y, true, chosen, k);
  }

  /** The loop of all four, from x at position k. */
  method SafeLoop(h: Head, x0: int, back: bool, chosen: nat -> set<nat>, ghost k: int)
    returns (visited: seq<nat>, ghost gone: set<nat>)
    requires h.Valid()
    requires if back then -1 <= k < |h.Contents()| else 0 <= k <= |h.Contents()|
    requires x0 == if 0 <= k < |h.Contents()| then h.Contents()[k] else NULL
    modifies h, h.cell
    ensures h.Valid() && Route(old(h.Contents()), visited, k, back)
    ensures h.Contents() == Keep(old(h.Contents()), gone) && GoneBy(visited, chosen, |visited|, gone)
  {
    hide h.Valid, Keep, GoneBy, Sorted;
    ghost var s := h.Contents();
    ghost var v := TheRoute(s, k, back);
    visited, gone := [], {};
    AllThere(h, v, k, back, chosen);
    var x := x0;
    while x != NULL
      invariant Midway(h, s, v, k, back, |visited|, chosen, gone) && visited == v[..|visited|]
      invariant x == After(v, |visited| - 1)
      decreases |v| - |visited|
    {
      x, visited, gone := SafeRound(h, s, v, k, back, visited, x, chosen, gone);
    }
    assert v[..|v|] == v;
  }

  lemma AllThere(h: Head, v: seq<nat>, k: int, back: bool, chosen: nat -> set<nat>)
    requires h.Valid() && Route(h.Contents(), v, k, back)
    ensures Midway(h, h.Contents(), v, k, back, 0, chosen, {})
  {
    KeepAll(h.Contents(), {});
  }

  /** One round: save the node after x, then run the body. */
  method SafeRound(h: Head, ghost s: seq<nat>, ghost v: seq<nat>, ghost k: int, back: bool, visited0: seq<nat>,
                   x: nat, chosen: nat -> set<nat>, ghost gone0: set<nat>)
    returns (y: int, visited: seq<nat>, ghost gone: set<nat>)
    requires Midway(h, s, v, k, back, |visited0|, chosen, gone0) && visited0 == v[..|visited0|]
    requires |visited0| < |v| && x == v[|visited0|]
    modifies h, h.cell
    ensures Midway(h, s, v, k, back, |visited|, chosen, gone) && visited == v[..|visited|]
    ensures |visited| == |visited0| + 1 && y == After(v, |visited| - 1)
  {
    hide GoneBy, h.Valid, Sorted, Keep, IsNext, IsPrev, Took, Route;
    ghost var i := |visited0|;
    ghost var steps;
    StillThere(s, v, k, back, gone0, chosen, i, h.key);
    if back {
      y, steps := h.Prev(x);
    } else {
      y, steps := h.Next(x);
    }
    SavedNode(s, v, k, back, gone0, chosen, i, y, h.key);
    visited := visited0 + [x];
    OneMore(v, i);
    InRoute(s, v, k, back, i + 1);
    gone := RemoveChosen(h, s, visited, chosen(|visited0|), gone0);
    GoneSoFar(v, chosen, i, gone0, gone);
  }

  ghost predicate Took(before: set<nat>, after: set<nat>, visited: seq<nat>, pick: set<nat>) {
    forall x :: x in after <==> x in before || (x in visited && x in pick)
  }

  lemma InRoute(s: seq<nat>, v: seq<nat>, k: int, back: bool, n: nat)
    requires Route(s, v, k, back) && n <= |v|
    ensures forall x :: x in v[..n] ==> x in s
  {}

  /** Nothing from the current node on has been removed. */
  lemma StillThere(s: seq<nat>, v: seq<nat>, k: int, back: bool, gone: set<nat>, chosen: nat -> set<nat>, n: nat,
                   key: nat -> int)
    requires Sorted(s, key) && Route(s, v, k, back) && n < |v| && GoneBy(v, chosen, n, gone)
    ensures forall j :: n <= j < |v| ==> v[j] in Keep(s, gone) && v[j] !in gone
  {
    forall j | n <= j < |v| ensures v[j] in Keep(s, gone) && v[j] !in gone {
      forall i | 0 <= i < |v| && v[i] == v[j] ensures i == j {
        IndexUnique(s, key, if back then k - i else k + i, if back then k - j else k + j);
      }
      KeepMembers(s, gone, v[j]);
    }
  }

  lemma RouteFollows(s: seq<nat>, v: seq<nat>, k: int, back: bool, n: nat)
    requires Route(s, v, k, back) && n < |v|
    ensures Follows(s, v[n], After(v, n), back)
  {
    if back {
      assert PrevAt(s, v[n], After(v, n), k - n);
    } else {
      assert NextAt(s, v[n], After(v, n), k + n);
    }
  }

  /** A neighbour that stays is still the neighbour when others have gone. */
  lemma NeighbourStays(s: seq<nat>, gone: set<nat>, x: nat, y: int, back: bool, key: nat -> int)
    requires Sorted(s, key) && Follows(s, x, y, back) && x in s && x !in gone && (y >= 0 ==> y !in gone)
    ensures Follows(Keep(s, gone), x, y, back)
  {
    KeepSorted(s, gone, key);
    forall z ensures z in Keep(s, gone) <==> z in s && z !in gone {
      KeepMembers(s, gone, z);
    }
    hide Sorted, IsNext, IsPrev, Keep;
    if back {
      PrevIsGreatestBelow(s, key, x, y);
      PrevIsGreatestBelow(Keep(s, gone), key, x, y);
    } else {
      NextIsLeastAbove(s, key, x, y);
      NextIsLeastAbove(Keep(s, gone), key, x, y);
    }
  }

  /** The node saved in the thinned tree is the next one of the original route. */
  lemma SavedNode(s: seq<nat>, v: seq<nat>, k: int, back: bool, gone: set<nat>, chosen: nat -> set<nat>, n: nat,
                  y: int, key: nat -> int)
    requires Sorted(s, key) && Route(s, v, k, back) && n < |v| && GoneBy(v, chosen, n, gone)
    requires Follows(Keep(s, gone), v[n], y, back)
    ensures y == After(v, n)
  {
    StillThere(s, v, k, back, gone, chosen, n, key);
    RouteFollows(s, v, k, back, n);
    NeighbourStays(s, gone, v[n], After(v, n), back, key);
    KeepSorted(s, gone, key);
    OneNeighbour(Keep(s, gone), v[n], y, After(v, n), back, key);
  }

  lemma OneNeighbour(s: seq<nat>, x: nat, y: int, z: int, back: bool, key: nat -> int)
    requires Sorted(s, key) && Follows(s, x, y, back) && Follows(s, x, z, back)
    ensures y == z
  {
    if back {
      var i :| PrevAt(s, x, y, i);
      PrevOf(s, key, i, z);
    } else {
      var i :| NextAt(s, x, y, i);
      NextOf(s, key, i, z);
    }
  }

  lemma GoneSoFar(v: seq<nat>, chosen: nat -> set<nat>, n: nat, before: set<nat>, gone: set<nat>)
    requires n < |v| && GoneBy(v, chosen, n, before)
    requires Took(before, gone, v[..n + 1], chosen(n))
    ensures GoneBy(v, chosen, n + 1, gone)
  {
    var n' := n + 1;
    forall x ensures x in gone <==> exists i, j :: ChosenAt(v, chosen, n', x, i, j) {
      if x in v[..n'] && x in chosen(n) {
        var i :| 0 <= i < n + 1 && v[i] == x;
        assert ChosenAt(v, chosen, n', x, i, n);
      }
      if x in before {
        var i, j :| ChosenAt(v, chosen, n, x, i, j);
        assert ChosenAt(v, chosen, n', x, i, j);
      }
      if i, j :| ChosenAt(v, chosen, n', x, i, j) {
        if j < n {
          assert ChosenAt(v, chosen, n, x, i, j);
        } else {
          assert v[..n'][i] == x;
        }
      }
    }
  }

  lemma TookOne(before: set<nat>, gone: set<nat>, visited: seq<nat>, k: nat, pick: set<nat>)
    requires k < |visited| && Took(before, gone, visited[..k], pick)
    ensures visited[k] in pick && visited[k] !in gone ==> Took(before, gone + {visited[k]}, visited[..k + 1], pick)
    ensures visited[k] !in pick || visited[k] in gone ==> Took(before, gone, visited[..k + 1], pick)
  {}

  /** The loop body: RB_REMOVE of each chosen node that was visited and is left. */
  method RemoveChosen(h: Head, ghost s: seq<nat>, visited: seq<nat>, pick: set<nat>, ghost gone0: set<nat>)
    returns (ghost gone: set<nat>)
    requires h.Valid() && h.Contents() == Keep(s, gone0) && Sorted(s, h.key)
    requires forall x :: x in visited ==> x in s
    modifies h, h.cell
    ensures h.Valid() && h.Contents() == Keep(s, gone)
    ensures Took(gone0, gone, visited, pick)
  {
    gone := gone0;
    var k := 0;
    assert Took(gone0, gone0, [], pick);
    assert visited[..0] == [] && visited[..|visited|] == visited;
    hide h.Valid, Sorted, Keep, Took;
    while k < |visited|
      invariant k <= |visited|
      invariant h.Valid() && h.Contents() == Keep(s, gone)
      invariant Took(gone0, gone, visited[..k], pick)
    {
      var x := visited[k];
      var r;
      ghost var steps;
      r, steps := h.Find(h.key(x));
      KeepMembers(s, gone, x);
      if r != NULL {
        KeepMembers(s, gone, r);
        KeyUnique(s, h.key, r, x);
      }
      TookOne(gone0, gone, visited, k, pick);
      if x in pick && r == x {
        ghost var before := h.Contents();
        ghost var at, walk, rounds;
        r, at, walk, rounds := h.Remove(x);
        KeepOneLess(s, gone, before, at, h.key);
        gone := gone + {x};
      }
      k := k + 1;
    }
  }
}
