/** Sequence helpers standing in for the type-list utilities the source relies on
    (`make_unique`, `find_if`, `get_type_index`, `is_in_list`). */
module Collections {

  datatype Option<+T> = None | Some(value: T)

  /** The elements of a sequence, as a set. */
  function Elems<T>(xs: seq<T>): set<T>
  {
    set x | x in xs
  }

  /** No element occurs twice. */
  predicate NoDup<T(==)>(xs: seq<T>)
  {
    forall i, j :: 0 <= i < j < |xs| ==> xs[i] != xs[j]
  }

  /** `make_unique`: keeps the first occurrence of every element, in order. */
  function Dedup<T(==,!new)>(xs: seq<T>): (r: seq<T>)
    ensures NoDup(r)
    ensures Elems(r) == Elems(xs)
    ensures forall x :: x in r <==> x in xs
    ensures |r| <= |xs|
  {
    if xs == [] then []
    else
      var front := Dedup(xs[..|xs| - 1]);
      var last := xs[|xs| - 1];
      ElemsSnoc(xs[..|xs| - 1], last);
      ElemsSnoc(front, last);
      assert xs == xs[..|xs| - 1] + [last];
      if last in front then front else front + [last]
  }

  lemma ElemsSnoc<T>(xs: seq<T>, x: T)
    ensures Elems(xs + [x]) == Elems(xs) + {x}
  {
    assert forall y :: y in xs + [x] <==> y in xs || y == x;
  }

  lemma ElemsConcat<T>(xs: seq<T>, ys: seq<T>)
    ensures Elems(xs + ys) == Elems(xs) + Elems(ys)
  {
    assert forall y :: y in xs + ys <==> y in xs || y in ys;
  }

  lemma DedupOfNoDup<T(!new)>(xs: seq<T>)
    requires NoDup(xs)
    ensures Dedup(xs) == xs
  {
    if xs != [] {
      DedupOfNoDup(xs[..|xs| - 1]);
      assert xs[|xs| - 1] !in xs[..|xs| - 1];
      assert xs == xs[..|xs| - 1] + [xs[|xs| - 1]];
    }
  }

  /** Position of the first occurrence of `x`, or -1 (`get_type_index`). */
  function IndexOf<T(==)>(xs: seq<T>, x: T): (r: int)
    ensures -1 <= r < |xs|
    ensures r == -1 <==> x !in xs
    ensures r >= 0 ==> xs[r] == x && x !in xs[..r]
  {
    if xs == [] then -1
    else if xs[0] == x then 0
    else
      var k := IndexOf(xs[1..], x);
      assert k >= 0 ==> xs[1..][..k] == xs[1..k + 1];
      if k == -1 then -1 else k + 1
  }

  /** A duplicate-free sequence is no longer than the set it is drawn from. */
  lemma NoDupLength<T>(xs: seq<T>, s: set<T>)
    requires NoDup(xs)
    requires Elems(xs) <= s
    ensures |xs| <= |s|
    decreases |xs|
  {
    if xs != [] {
      var x := xs[0];
      assert forall y :: y in xs[1..] ==> y in xs;
      assert x !in xs[1..] by {
        forall j | 0 <= j < |xs[1..]| ensures xs[1..][j] != x {
          assert xs[1..][j] == xs[j + 1];
        }
      }
      assert NoDup(xs[1..]) by {
        forall i, j | 0 <= i < j < |xs[1..]| ensures xs[1..][i] != xs[1..][j] {
          assert xs[1..][i] == xs[i + 1] && xs[1..][j] == xs[j + 1];
        }
      }
      NoDupLength(xs[1..], s - {x});
    }
  }

  /** All sequences of length at most `n` over `s`: a finite set. */
  ghost function SeqsUpTo<T>(s: set<T>, n: nat): set<seq<T>>
  {
    if n == 0 then {[]}
    else SeqsUpTo(s, n - 1) + (set x, t | x in s && t in SeqsUpTo(s, n - 1) :: [x] + t)
  }

  lemma InSeqsUpTo<T>(xs: seq<T>, s: set<T>, n: nat)
    requires |xs| <= n
    requires Elems(xs) <= s
    ensures xs in SeqsUpTo(s, n)
  {
    if n > 0 && xs != [] {
      assert Elems(xs[1..]) <= s by {
        forall y | y in xs[1..] ensures y in xs { }
      }
      InSeqsUpTo(xs[1..], s, n - 1);
      assert xs == [xs[0]] + xs[1..];
    } else if n > 0 {
      InSeqsUpTo(xs, s, n - 1);
    }
  }

  /** Removing a fresh non-empty batch from a finite pool shrinks what is left of it. */
  lemma PoolShrinks<T>(pool: set<T>, seen: set<T>, added: set<T>, x: T)
    requires x in added && x in pool && x !in seen
    ensures |pool - (seen + added)| < |pool - seen|
  {
    var a := pool - (seen + added);
    var b := pool - seen;
    assert a <= b - {x};
    assert |b - {x}| == |b| - 1;
    SubsetCard(a, b - {x});
  }

  lemma SubsetCard<T>(a: set<T>, b: set<T>)
    requires a <= b
    ensures |a| <= |b|
  {
    if a != {} {
      var x :| x in a;
      SubsetCard(a - {x}, b - {x});
    }
  }

  lemma PoolMonotone<T>(pool: set<T>, seen: set<T>, more: set<T>)
    requires seen <= more
    ensures |pool - more| <= |pool - seen|
  {
    SubsetCard(pool - more, pool - seen);
  }
  /** `filter_by<Pred>`: the elements satisfying `p`, in order. */
  function Filter<T(!new)>(xs: seq<T>, p: T -> bool): (r: seq<T>)
    ensures |r| <= |xs|
    ensures forall x :: x in r <==> x in xs && p(x)
    ensures forall k :: 0 <= k < |r| ==> p(r[k])
    ensures NoDup(xs) ==> NoDup(r)
  {
    if xs == [] then []
    else
      var front := Filter(xs[..|xs| - 1], p);
      var last := xs[|xs| - 1];
      assert xs == xs[..|xs| - 1] + [last];
      if p(last) then front + [last] else front
  }

  /** Applies `f` to every element; one failure makes the whole result fail (a
      template instantiation that does not compile). */
  function MapAll<A, B>(xs: seq<A>, f: A -> Option<B>): (r: Option<seq<B>>)
    ensures r.Some? <==> forall k :: 0 <= k < |xs| ==> f(xs[k]).Some?
    ensures r.Some? ==> |r.value| == |xs| && forall k :: 0 <= k < |xs| ==> Some(r.value[k]) == f(xs[k])
  {
    if xs == [] then Some([])
    else
      match (f(xs[0]), MapAll(xs[1..], f))
      case (Some(y), Some(ys)) => Some([y] + ys)
      case (None, _) => None
      case (_, None) =>
        var k :| 0 <= k < |xs[1..]| && f(xs[1..][k]).None?;
        assert f(xs[k + 1]).None?;
        None
  }

  /** A list with one more element is duplicate-free iff the list is and the element
      is new. */
  lemma NoDupSnoc<T>(xs: seq<T>, x: T)
    ensures NoDup(xs + [x]) <==> NoDup(xs) && x !in xs
  {
    var ys := xs + [x];
    assert forall i :: 0 <= i < |xs| ==> ys[i] == xs[i];
    if NoDup(ys) {
      forall i | 0 <= i < |xs| ensures xs[i] != x {
        assert ys[i] != ys[|xs|];
      }
    }
  }
}
