/** The recursion scheme shared by FIRST and FOLLOW: gather the symbols a node
    contributes directly, then recurse into each successor node that is not already
    on the stack of nodes being processed, pushing it. The stack is what makes the
    compile-time recursion finite on recursive grammars. */
module Guarded {
  import opened Collections

  /** A gathering problem: the finite set of nodes that can be recursed into, what
      each node contributes directly, and each node's successors in order. */
  datatype Problem = Problem(nodes: set<int>, base: int -> set<int>, succ: int -> seq<int>)

  /** The nodes not yet on the stack: the termination measure. */
  function Remaining(p: Problem, stack: seq<int>): nat
  {
    |p.nodes - Elems(stack)|
  }

  /** Recursing into `x` (a node not on the stack) shrinks what remains. */
  lemma PushShrinks(p: Problem, stack: seq<int>, x: int)
    requires x in p.nodes && x !in stack
    ensures Remaining(p, stack + [x]) < Remaining(p, stack)
  {
    ElemsSnoc(stack, x);
    PoolShrinks(p.nodes, Elems(stack), {x}, x);
  }

  /** The gathered set of node `n` with `stack` the nodes being processed. */
  function Gather(p: Problem, n: int, stack: seq<int>): set<int>
    decreases Remaining(p, stack), 1, 0
  {
    p.base(n) + GatherFrom(p, p.succ(n), 0, stack)
  }

  /** The contributions of successors `xs[k..]`: a successor on the stack, or one that
      is not a node, contributes nothing. */
  function GatherFrom(p: Problem, xs: seq<int>, k: nat, stack: seq<int>): set<int>
    requires k <= |xs|
    decreases Remaining(p, stack), 0, |xs| - k
  {
    if k == |xs| then {}
    else
      var x := xs[k];
      var here := if x in p.nodes && x !in stack then PushShrinks(p, stack, x); Gather(p, x, stack + [x]) else {};
      here + GatherFrom(p, xs, k + 1, stack)
  }

  /** A walk from p[0] along successor edges whose every later node is a node of the
      problem and is not on `stack`. */
  ghost predicate IsWalk(p: Problem, stack: seq<int>, w: seq<int>)
  {
    && |w| >= 1
    && forall i :: 1 <= i < |w| ==> w[i] in p.nodes && w[i] !in stack && w[i] in p.succ(w[i - 1])
  }

  /** Reference definition: `t` is contributed by some node a walk from `n` reaches. */
  ghost predicate Reachable(p: Problem, n: int, stack: seq<int>, t: int)
  {
    exists w :: IsWalk(p, stack, w) && w[0] == n && t in p.base(w[|w| - 1])
  }

  lemma WalkPrepend(p: Problem, stack: seq<int>, n: int, w: seq<int>)
    requires |w| >= 1 && IsWalk(p, stack + [w[0]], w)
    requires w[0] in p.nodes && w[0] !in stack && w[0] in p.succ(n)
    ensures IsWalk(p, stack, [n] + w)
  {
    var v := [n] + w;
    forall i | 1 <= i < |v| ensures v[i] in p.nodes && v[i] !in stack && v[i] in p.succ(v[i - 1]) {
      if i >= 2 {
        assert v[i] == w[i - 1] && v[i - 1] == w[i - 2];
        assert w[i - 1] !in stack + [w[0]];
      }
    }
  }

  /** Soundness: everything gathered is contributed by a reachable node. */
  lemma {:induction false} GatherSound(p: Problem, n: int, stack: seq<int>, t: int)
    requires t in Gather(p, n, stack)
    ensures Reachable(p, n, stack, t)
    decreases Remaining(p, stack), 1, 0
  {
    if t in p.base(n) {
      assert IsWalk(p, stack, [n]);
    } else {
      var i := GatherFromSound(p, p.succ(n), 0, stack, t);
      var x := p.succ(n)[i];
      PushShrinks(p, stack, x);
      GatherSound(p, x, stack + [x], t);
      var w :| IsWalk(p, stack + [x], w) && w[0] == x && t in p.base(w[|w| - 1]);
      WalkPrepend(p, stack, n, w);
      assert ([n] + w)[|[n] + w| - 1] == w[|w| - 1];
    }
  }

  lemma {:induction false} GatherFromSound(p: Problem, xs: seq<int>, k: nat, stack: seq<int>, t: int) returns (i: nat)
    requires k <= |xs|
    requires t in GatherFrom(p, xs, k, stack)
    ensures k <= i < |xs| && xs[i] in p.nodes && xs[i] !in stack
    ensures t in Gather(p, xs[i], stack + [xs[i]])
    decreases |xs| - k
  {
    var x := xs[k];
    if x in p.nodes && x !in stack && t in Gather(p, x, stack + [x]) {
      i := k;
    } else {
      i := GatherFromSound(p, xs, k + 1, stack, t);
    }
  }

  /** Every eligible successor's gathered set is part of the successors' contribution. */
  lemma {:induction false} GatherFromContains(p: Problem, xs: seq<int>, k: nat, i: nat, stack: seq<int>)
    requires k <= i < |xs|
    requires xs[i] in p.nodes && xs[i] !in stack
    ensures Gather(p, xs[i], stack + [xs[i]]) <= GatherFrom(p, xs, k, stack)
    decreases i - k
  {
    if k < i {
      GatherFromContains(p, xs, k + 1, i, stack);
    }
  }

  /** Completeness: whatever a reachable node contributes is gathered. A walk that
      comes back to its second node is cut at the last visit, so that the recursion
      (which pushes that node) still covers it. */
  lemma {:induction false} GatherComplete(p: Problem, stack: seq<int>, w: seq<int>, t: int)
    requires IsWalk(p, stack, w)
    requires t in p.base(w[|w| - 1])
    ensures t in Gather(p, w[0], stack)
    decreases |w|
  {
    if |w| > 1 {
      var n := w[0];
      var x := w[1];
      var j := LastIndex(w, x, 1);
      var v := w[j..];
      assert v[0] == x && v[|v| - 1] == w[|w| - 1];
      assert IsWalk(p, stack + [x], v) by {
        forall i | 1 <= i < |v| ensures v[i] in p.nodes && v[i] !in stack + [x] && v[i] in p.succ(v[i - 1]) {
          assert v[i] == w[j + i] && v[i - 1] == w[j + i - 1];
        }
      }
      GatherComplete(p, stack + [x], v, t);
      var k :| 0 <= k < |p.succ(n)| && p.succ(n)[k] == x;
      GatherFromContains(p, p.succ(n), 0, k, stack);
    }
  }

  /** The last index at or after `from` where `x` occurs (x occurs at `from`). */
  function LastIndex(w: seq<int>, x: int, from: nat): (j: nat)
    requires from < |w| && w[from] == x
    ensures from <= j < |w| && w[j] == x
    ensures forall i :: j < i < |w| ==> w[i] != x
    decreases |w| - from
  {
    if exists i :: from < i < |w| && w[i] == x then
      var i :| from < i < |w| && w[i] == x;
      LastIndex(w, x, i)
    else from
  }

  /** The path characterisation of the gathered set. */
  lemma GatherIsReachability(p: Problem, n: int, stack: seq<int>, t: int)
    ensures t in Gather(p, n, stack) <==> Reachable(p, n, stack, t)
  {
    if t in Gather(p, n, stack) {
      GatherSound(p, n, stack, t);
    }
    if Reachable(p, n, stack, t) {
      var w :| IsWalk(p, stack, w) && w[0] == n && t in p.base(w[|w| - 1]);
      GatherComplete(p, stack, w, t);
    }
  }

  /** Everything gathered is contributed by some node; if each node's contribution
      lies in a set, so does the gathered set. */
  lemma GatherWithin(p: Problem, n: int, stack: seq<int>, bound: set<int>)
    requires forall m, x :: x in p.base(m) ==> x in bound
    ensures Gather(p, n, stack) <= bound
  {
    forall t | t in Gather(p, n, stack) ensures t in bound {
      GatherSound(p, n, stack, t);
      var w :| IsWalk(p, stack, w) && w[0] == n && t in p.base(w[|w| - 1]);
      var m := w[|w| - 1];
      assert t in p.base(m);
      assert t in bound;
    }
  }
}
