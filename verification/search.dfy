/** The depth-first walk behind `_state::get_list` and `_graph_walker`, over any node
    type: a node already in the list leaves the list unchanged; otherwise the node is
    appended and its successors are walked in order, each with the list the previous
    one left behind. */
module Search {
  import opened Collections

  /** The walk stays inside a finite space: every node satisfying `ok` is in `space`,
      and the successors of such a node satisfy `ok` too. */
  ghost predicate Confined<T(!new)>(succ: T -> seq<T>, ok: T -> bool, space: set<T>)
  {
    && (forall x :: ok(x) ==> x in space)
    && (forall x, i {:trigger succ(x)[i]} :: ok(x) && 0 <= i < |succ(x)| ==> ok(succ(x)[i]))
  }

  /** A list of distinct nodes, all satisfying `ok`. */
  ghost predicate ListOk<T(!new)>(ok: T -> bool, list: seq<T>)
  {
    NoDup(list) && forall i :: 0 <= i < |list| ==> ok(list[i])
  }

  ghost function Unvisited<T>(space: set<T>, list: seq<T>): nat
  {
    |space - Elems(list)|
  }

  lemma PrefixElems<T>(a: seq<T>, b: seq<T>)
    requires a <= b
    ensures Elems(a) <= Elems(b)
  {
    forall y | y in Elems(a) ensures y in Elems(b) {
      var i :| 0 <= i < |a| && a[i] == y;
      assert b[i] == y;
    }
  }

  /** Visit `x`: the list grows by the nodes first reached from `x`. */
  function Visit<T(==,!new)>(succ: T -> seq<T>, ghost ok: T -> bool, ghost space: set<T>, x: T, list: seq<T>): (r: seq<T>)
    requires Confined(succ, ok, space)
    requires ok(x) && ListOk(ok, list)
    ensures ListOk(ok, r) && list <= r && x in r
    decreases Unvisited(space, list), 0, 0
  {
    if x in list then list
    else
      ElemsSnoc(list, x);
      PoolShrinks(space, Elems(list), {x}, x);
      var r := VisitFrom(succ, ok, space, succ(x), 0, list + [x]);
      assert (list + [x])[|list|] == x;
      r
  }

  /** Visit `xs[k..]` in order, threading the list. */
  function VisitFrom<T(==,!new)>(succ: T -> seq<T>, ghost ok: T -> bool, ghost space: set<T>, xs: seq<T>, k: nat, list: seq<T>): (r: seq<T>)
    requires Confined(succ, ok, space)
    requires k <= |xs| && (forall i :: 0 <= i < |xs| ==> ok(xs[i]))
    requires ListOk(ok, list)
    ensures ListOk(ok, r) && list <= r
    decreases Unvisited(space, list), 1, |xs| - k
  {
    if k == |xs| then list
    else
      var l2 := Visit(succ, ok, space, xs[k], list);
      PrefixElems(list, l2);
      PoolMonotone(space, Elems(list), Elems(l2));
      VisitFrom(succ, ok, space, xs, k + 1, l2)
  }

  /** All successors of `x` are in `list`. */
  ghost predicate SuccsIn<T>(succ: T -> seq<T>, x: T, list: seq<T>)
  {
    forall i :: 0 <= i < |succ(x)| ==> succ(x)[i] in list
  }

  /** The nodes of `r` from position `from` on have all their successors in `r`. */
  ghost predicate ClosedFrom<T>(succ: T -> seq<T>, r: seq<T>, from: nat)
  {
    forall j :: from <= j < |r| ==> SuccsIn(succ, r[j], r)
  }

  lemma SuccsInGrows<T>(succ: T -> seq<T>, x: T, a: seq<T>, b: seq<T>)
    requires SuccsIn(succ, x, a) && a <= b
    ensures SuccsIn(succ, x, b)
  {
    PrefixElems(a, b);
    forall i | 0 <= i < |succ(x)| ensures succ(x)[i] in b {
      assert succ(x)[i] in Elems(a);
    }
  }

  /** Every node the visit appends has all its successors in the result. */
  lemma {:induction false} VisitClosed<T(!new)>(succ: T -> seq<T>, ok: T -> bool, space: set<T>, x: T, list: seq<T>)
    requires Confined(succ, ok, space)
    requires ok(x) && ListOk(ok, list)
    ensures ClosedFrom(succ, Visit(succ, ok, space, x, list), |list|)
    decreases Unvisited(space, list), 0, 0
  {
    if x !in list {
      ElemsSnoc(list, x);
      PoolShrinks(space, Elems(list), {x}, x);
      var l1 := list + [x];
      VisitFromClosed(succ, ok, space, succ(x), 0, l1);
      var r := VisitFrom(succ, ok, space, succ(x), 0, l1);
      assert Visit(succ, ok, space, x, list) == r;
      assert r[|list|] == l1[|list|] == x;
      ClosedFromExtend(succ, r, |list|);
    }
  }

  lemma ClosedFromExtend<T>(succ: T -> seq<T>, r: seq<T>, n: nat)
    requires n < |r| && ClosedFrom(succ, r, n + 1) && SuccsIn(succ, r[n], r)
    ensures ClosedFrom(succ, r, n)
  {
  }

  lemma {:induction false} VisitFromClosed<T(!new)>(succ: T -> seq<T>, ok: T -> bool, space: set<T>, xs: seq<T>, k: nat, list: seq<T>)
    requires Confined(succ, ok, space)
    requires k <= |xs| && (forall i :: 0 <= i < |xs| ==> ok(xs[i]))
    requires ListOk(ok, list)
    ensures var r := VisitFrom(succ, ok, space, xs, k, list);
            && ClosedFrom(succ, r, |list|)
            && forall i :: k <= i < |xs| ==> xs[i] in r
    decreases Unvisited(space, list), 1, |xs| - k
  {
    if k < |xs| {
      var l2 := Visit(succ, ok, space, xs[k], list);
      PrefixElems(list, l2);
      PoolMonotone(space, Elems(list), Elems(l2));
      VisitClosed(succ, ok, space, xs[k], list);
      VisitFromClosed(succ, ok, space, xs, k + 1, l2);
      var r := VisitFrom(succ, ok, space, xs, k, list);
      assert r == VisitFrom(succ, ok, space, xs, k + 1, l2);
      forall j | |list| <= j < |r| ensures SuccsIn(succ, r[j], r) {
        if j < |l2| {
          assert r[j] == l2[j];
          SuccsInGrows(succ, r[j], l2, r);
        }
      }
      forall i | k <= i < |xs| ensures xs[i] in r {
        if i == k {
          var p :| 0 <= p < |l2| && l2[p] == xs[k];
          assert r[p] == l2[p];
        }
      }
    }
  }

  /** `y` is a successor of some node of `r` before position `j`. */
  ghost predicate ReachedBefore<T>(succ: T -> seq<T>, r: seq<T>, j: nat, y: T)
    requires j <= |r|
  {
    exists i, m :: 0 <= i < j && 0 <= m < |succ(r[i])| && succ(r[i])[m] == y
  }

  /** The nodes of `r` from position `from` on are each a successor of an earlier node. */
  ghost predicate DiscoveredFrom<T>(succ: T -> seq<T>, r: seq<T>, from: nat)
  {
    forall j :: from <= j < |r| ==> ReachedBefore(succ, r, j, r[j])
  }

  lemma ReachedGrows<T>(succ: T -> seq<T>, a: seq<T>, b: seq<T>, j: nat, y: T)
    requires j <= |a| && a <= b
    requires ReachedBefore(succ, a, j, y)
    ensures ReachedBefore(succ, b, j, y)
  {
    var i, m :| 0 <= i < j && 0 <= m < |succ(a[i])| && succ(a[i])[m] == y;
    assert b[i] == a[i];
  }

  /** Visiting a successor of a node already in the list appends only nodes that are
      successors of earlier nodes. */
  lemma {:induction false} VisitDiscovers<T(!new)>(succ: T -> seq<T>, ok: T -> bool, space: set<T>, x: T, list: seq<T>)
    requires Confined(succ, ok, space)
    requires ok(x) && ListOk(ok, list)
    requires ReachedBefore(succ, list, |list|, x)
    ensures DiscoveredFrom(succ, Visit(succ, ok, space, x, list), |list|)
    decreases Unvisited(space, list), 0, 0
  {
    if x !in list {
      ElemsSnoc(list, x);
      PoolShrinks(space, Elems(list), {x}, x);
      var l1 := list + [x];
      VisitFromDiscovers(succ, ok, space, x, 0, l1, |list|);
      var r := VisitFrom(succ, ok, space, succ(x), 0, l1);
      assert Visit(succ, ok, space, x, list) == r;
      assert r[|list|] == l1[|list|] == x;
      ReachedGrows(succ, list, r, |list|, x);
      DiscoveredExtend(succ, r, |list|);
    }
  }

  lemma DiscoveredExtend<T>(succ: T -> seq<T>, r: seq<T>, n: nat)
    requires n < |r| && ReachedBefore(succ, r, n, r[n]) && DiscoveredFrom(succ, r, n + 1)
    ensures DiscoveredFrom(succ, r, n)
  {
  }

  lemma {:induction false} VisitFromDiscovers<T(!new)>(succ: T -> seq<T>, ok: T -> bool, space: set<T>, x: T, k: nat, list: seq<T>, src: nat)
    requires Confined(succ, ok, space)
    requires ok(x) && k <= |succ(x)|
    requires ListOk(ok, list)
    requires src < |list| && list[src] == x
    ensures DiscoveredFrom(succ, VisitFrom(succ, ok, space, succ(x), k, list), |list|)
    decreases Unvisited(space, list), 1, |succ(x)| - k
  {
    var xs := succ(x);
    if k < |xs| {
      var l2 := Visit(succ, ok, space, xs[k], list);
      PrefixElems(list, l2);
      PoolMonotone(space, Elems(list), Elems(l2));
      assert ReachedBefore(succ, list, |list|, xs[k]);
      VisitDiscovers(succ, ok, space, xs[k], list);
      assert l2[src] == x;
      VisitFromDiscovers(succ, ok, space, x, k + 1, l2, src);
      var r := VisitFrom(succ, ok, space, xs, k + 1, l2);
      assert VisitFrom(succ, ok, space, xs, k, list) == r;
      DiscoveredJoin(succ, list, l2, r);
    }
  }

  lemma DiscoveredJoin<T>(succ: T -> seq<T>, list: seq<T>, l2: seq<T>, r: seq<T>)
    requires list <= l2 <= r
    requires DiscoveredFrom(succ, l2, |list|) && DiscoveredFrom(succ, r, |l2|)
    ensures DiscoveredFrom(succ, r, |list|)
  {
    forall j | |list| <= j < |r| ensures ReachedBefore(succ, r, j, r[j]) {
      if j < |l2| {
        assert r[j] == l2[j];
        ReachedGrows(succ, l2, r, j, r[j]);
      }
    }
  }

  /** The walk from a root: the root first, then every node the walk reaches. The list
      is closed under successors, and every node but the root is a successor of an
      earlier one. */
  lemma WalkFromRoot<T(!new)>(succ: T -> seq<T>, ok: T -> bool, space: set<T>, x: T)
    requires Confined(succ, ok, space) && ok(x)
    ensures var r := Visit(succ, ok, space, x, []);
            && |r| >= 1 && r[0] == x
            && ClosedFrom(succ, r, 0)
            && DiscoveredFrom(succ, r, 1)
  {
    var empty: seq<T> := [];
    VisitClosed(succ, ok, space, x, empty);
    ElemsSnoc(empty, x);
    PoolShrinks(space, Elems(empty), {x}, x);
    VisitFromDiscovers(succ, ok, space, x, 0, [x], 0);
    var r := Visit(succ, ok, space, x, empty);
    assert r == VisitFrom(succ, ok, space, succ(x), 0, empty + [x]);
    assert empty + [x] == [x];
    assert r[0] == [x][0];
  }
}
