/**
 * How a sequence relates to the set and multiset of its elements: the
 * bookkeeping between a container's `originals` list and its `values` set.
 */
module SeqSets {
  /** The set of elements of a sequence. */
  function Elements<T>(xs: seq<T>): set<T> {
    set x | x in xs
  }

  /** No element occurs twice. */
  predicate Distinct<T(==)>(xs: seq<T>) {
    forall i, j :: 0 <= i < j < |xs| ==> xs[i] != xs[j]
  }

  /** Appending one element adds exactly that element to the set. */
  lemma ElementsSnoc<T>(xs: seq<T>, x: T)
    ensures Elements(xs + [x]) == Elements(xs) + {x}
  {
    forall y ensures y in Elements(xs + [x]) <==> y in Elements(xs) + {x} {
      if y in xs + [x] && y != x {
        var k :| 0 <= k < |xs + [x]| && (xs + [x])[k] == y;
        assert xs[k] == y;
      }
      if y in xs {
        var k :| 0 <= k < |xs| && xs[k] == y;
        assert (xs + [x])[k] == y;
      }
    }
  }

  /** Concatenation unites the sets. */
  lemma ElementsAppend<T>(xs: seq<T>, ys: seq<T>)
    ensures Elements(xs + ys) == Elements(xs) + Elements(ys)
  {
    forall y ensures y in Elements(xs + ys) <==> y in Elements(xs) + Elements(ys) {
      if y in xs {
        var k :| 0 <= k < |xs| && xs[k] == y;
        assert (xs + ys)[k] == y;
      }
      if y in ys {
        var k :| 0 <= k < |ys| && ys[k] == y;
        assert (xs + ys)[|xs| + k] == y;
      }
    }
  }

  /** A sequence has at least as many entries as distinct elements. */
  lemma {:induction false} ElementsBounded<T>(xs: seq<T>)
    ensures |Elements(xs)| <= |xs|
    decreases |xs|
  {
    if xs != [] {
      var init := xs[..|xs| - 1];
      assert xs == init + [xs[|xs| - 1]];
      ElementsSnoc(init, xs[|xs| - 1]);
      ElementsBounded(init);
    }
  }

  /** In a sequence without repeats every element is counted once, and nothing else is counted. */
  lemma {:induction false} DistinctCounts<T>(xs: seq<T>, x: T)
    requires Distinct(xs)
    ensures multiset(xs)[x] == if x in xs then 1 else 0
    decreases |xs|
  {
    if xs != [] {
      var last := xs[|xs| - 1];
      var init := xs[..|xs| - 1];
      assert xs == init + [last];
      assert Distinct(init);
      DistinctCounts(init, x);
      if x == last {
        forall j | 0 <= j < |init| ensures init[j] != x {
          assert xs[j] != xs[|xs| - 1];
        }
      }
    }
  }

  /** Two sequences without repeats that hold the same elements are permutations of each other. */
  lemma DistinctPermutation<T>(a: seq<T>, b: seq<T>)
    requires Distinct(a) && Distinct(b)
    requires Elements(a) == Elements(b)
    ensures multiset(a) == multiset(b)
  {
    forall x ensures multiset(a)[x] == multiset(b)[x] {
      DistinctCounts(a, x);
      DistinctCounts(b, x);
      assert x in a <==> x in Elements(a);
      assert x in b <==> x in Elements(b);
    }
  }

  /** A subset is no larger than its superset. */
  lemma SubsetCardinality<T>(a: set<T>, b: set<T>)
    requires a <= b
    ensures |a| <= |b|
  {
    assert b == a + (b - a);
    assert a * (b - a) == {};
  }

  /** A set has more than one element exactly when it holds two different ones. */
  lemma TwoDistinct<T>(s: set<T>)
    ensures |s| > 1 <==> exists x, y :: x in s && y in s && x != y
  {
    if |s| > 1 {
      var x :| x in s;
      assert |s - {x}| == |s| - 1;
      var y :| y in s - {x};
      assert x in s && y in s && x != y;
    }
    forall x, y | x in s && y in s && x != y ensures |s| > 1 {
      SubsetCardinality({x, y}, s);
    }
  }

  /** A subset as large as its superset is the whole superset. */
  lemma SubsetSameSize<T>(a: set<T>, b: set<T>)
    requires a <= b && |a| == |b|
    ensures a == b
  {
    assert b == a + (b - a);
    assert a * (b - a) == {};
    assert |b - a| == 0;
  }
}
