/**
 * Integer sums: `reduce(0, +)` over a list of added values and over a set
 * of unique values, and the truncated integer average of the statistics text.
 * Integers are unbounded here; the source's `Int` may overflow.
 */
module Sums {
  import opened Ordering
  import opened SeqSets
  import opened RangeView

  /** `xs.reduce(0, +)`: a left fold, so the last element is added last. */
  function SeqSum(xs: seq<int>): int
    decreases |xs|
  {
    if xs == [] then 0 else SeqSum(xs[..|xs| - 1]) + xs[|xs| - 1]
  }

  /** The sum of a concatenation is the sum of the parts. */
  lemma {:induction false} SeqSumAppend(a: seq<int>, b: seq<int>)
    ensures SeqSum(a + b) == SeqSum(a) + SeqSum(b)
    decreases |b|
  {
    if b != [] {
      var init := b[..|b| - 1];
      assert (a + b)[..|a + b| - 1] == a + init;
      SeqSumAppend(a, init);
    } else {
      assert a + b == a;
    }
  }

  /** Taking one entry out of the list takes its value out of the sum. */
  lemma SeqSumRemove(xs: seq<int>, k: nat)
    requires k < |xs|
    ensures SeqSum(xs) == SeqSum(xs[..k] + xs[k + 1..]) + xs[k]
  {
    assert xs == (xs[..k] + [xs[k]]) + xs[k + 1..];
    SeqSumAppend(xs[..k] + [xs[k]], xs[k + 1..]);
    SeqSumAppend(xs[..k], [xs[k]]);
    SeqSumAppend(xs[..k], xs[k + 1..]);
    assert SeqSum([xs[k]]) == xs[k] by {
      assert [xs[k]][..0] == [];
    }
  }

  /** The order of the entries does not change the sum. */
  lemma {:induction false} SeqSumPermutation(a: seq<int>, b: seq<int>)
    requires multiset(a) == multiset(b)
    ensures SeqSum(a) == SeqSum(b)
    decreases |a|
  {
    if a == [] {
      assert |b| == |multiset(b)| == 0;
    } else {
      var x := a[|a| - 1];
      var init := a[..|a| - 1];
      assert a == init + [x];
      assert x in multiset(b);
      var k :| 0 <= k < |b| && b[k] == x;
      var rest := b[..k] + b[k + 1..];
      assert b == b[..k] + [x] + b[k + 1..];
      assert multiset(rest) == multiset(b) - multiset{x};
      assert multiset(init) == multiset(a) - multiset{x};
      SeqSumPermutation(init, rest);
      SeqSumRemove(b, k);
    }
  }

  /** Every entry within `[lo, hi]` puts the sum within `|xs| * [lo, hi]`. */
  lemma {:induction false} SeqSumBounds(xs: seq<int>, lo: int, hi: int)
    requires forall i :: 0 <= i < |xs| ==> lo <= xs[i] <= hi
    ensures |xs| * lo <= SeqSum(xs) <= |xs| * hi
    decreases |xs|
  {
    if xs != [] {
      SeqSumBounds(xs[..|xs| - 1], lo, hi);
      assert |xs| * lo == (|xs| - 1) * lo + lo;
      assert |xs| * hi == (|xs| - 1) * hi + hi;
    }
  }

  /** `Set<Int>.sum`: the sum of the unique values, each counted once. */
  function SetSum(s: set<int>): int {
    SeqSum(SortedInts(s))
  }

  /** A strictly ascending list of integers has no repeats. */
  lemma AscendingDistinct(xs: seq<int>)
    requires StrictlySorted(xs, IntLess)
    ensures Distinct(xs)
  {
  }

  /** A set's sum equals the sum of any duplicate-free list of its elements. */
  lemma SetSumOfDistinct(s: set<int>, xs: seq<int>)
    requires Distinct(xs) && Elements(xs) == s
    ensures SetSum(s) == SeqSum(xs)
  {
    var sorted := SortedInts(s);
    AscendingDistinct(sorted);
    assert Elements(sorted) == s;
    DistinctPermutation(sorted, xs);
    SeqSumPermutation(sorted, xs);
  }

  /** Inserting a new value adds it to the set's sum; inserting a present one changes nothing. */
  lemma SetSumInsert(s: set<int>, x: int)
    ensures SetSum(s + {x}) == if x in s then SetSum(s) else SetSum(s) + x
  {
    if x !in s {
      var sorted := SortedInts(s);
      AscendingDistinct(sorted);
      ElementsSnoc(sorted, x);
      assert Elements(sorted) == s;
      SetSumOfDistinct(s + {x}, sorted + [x]);
      SeqSumAppend(sorted, [x]);
      assert [x][..0] == [];
    } else {
      assert s + {x} == s;
    }
  }

  /** `Int(Double(a) / Double(n))`: the quotient truncated toward zero. */
  function TruncDiv(a: int, n: int): int
    requires n > 0
  {
    if a >= 0 then a / n else -((-a) / n)
  }

  /** The truncated quotient stays between any bounds the exact quotient has. */
  lemma TruncDivBetween(a: int, n: int, lo: int, hi: int)
    requires n > 0
    requires n * lo <= a <= n * hi
    ensures lo <= TruncDiv(a, n) <= hi
  {
    if a >= 0 {
      FloorAtLeast(a, n, lo);
      FloorAtMost(a, n, hi);
    } else {
      FloorAtLeast(-a, n, -hi);
      FloorAtMost(-a, n, -lo);
    }
  }

  lemma FloorAtLeast(a: int, n: int, lo: int)
    requires n > 0 && n * lo <= a
    ensures lo <= a / n
  {
    var q := a / n;
    assert a == n * q + a % n;
    assert n * lo < n * (q + 1);
    MultiplyCancel(n, lo, q + 1);
  }

  lemma FloorAtMost(a: int, n: int, hi: int)
    requires n > 0 && a <= n * hi
    ensures a / n <= hi
  {
    var q := a / n;
    assert a == n * q + a % n;
    assert n * q <= n * hi;
    MultiplyCancel(n, q, hi + 1);
  }

  /** Dividing both sides of a strict inequality by a positive factor. */
  lemma MultiplyCancel(n: int, x: int, y: int)
    requires n > 0 && n * x < n * y
    ensures x < y
  {
    assert n * (y - x) == n * y - n * x;
  }

  /** The average the statistics text prints: 0 for no entries, else the truncated mean. */
  function Average(xs: seq<int>): int {
    if xs == [] then 0 else TruncDiv(SeqSum(xs), |xs|)
  }

  /** The printed average lies between the lowest and the highest entry. */
  lemma AverageInRange(xs: seq<int>, lo: int, hi: int)
    requires forall i :: 0 <= i < |xs| ==> lo <= xs[i] <= hi
    requires xs != []
    ensures lo <= Average(xs) <= hi
  {
    SeqSumBounds(xs, lo, hi);
    TruncDivBetween(SeqSum(xs), |xs|, lo, hi);
  }
}
