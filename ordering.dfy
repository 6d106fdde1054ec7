/**
 * Sorting of a set by a strict total order, and the extremes of a set.
 * This models Swift's `Set.sorted()` together with the `lowest`/`highest`
 * extension on `Set where Element: Comparable`.
 */
module Ordering {
  import opened Wrappers

  /** `lt` is a strict total order: irreflexive, transitive, and total on distinct elements. */
  ghost predicate IsStrictTotalOrder<T(!new)>(lt: (T, T) -> bool) {
    (forall a :: !lt(a, a)) &&
    (forall a, b, c :: lt(a, b) && lt(b, c) ==> lt(a, c)) &&
    (forall a, b :: a != b ==> lt(a, b) || lt(b, a))
  }

  /** Every element is below every later one (so the sequence has no duplicates). */
  predicate StrictlySorted<T>(s: seq<T>, lt: (T, T) -> bool) {
    forall i, j :: 0 <= i < j < |s| ==> lt(s[i], s[j])
  }

  predicate IsLeast<T(==,!new)>(m: T, s: set<T>, lt: (T, T) -> bool) {
    m in s && forall x :: x in s && x != m ==> lt(m, x)
  }

  lemma {:induction false} LeastExists<T(!new)>(s: set<T>, lt: (T, T) -> bool)
    requires s != {} && IsStrictTotalOrder(lt)
    ensures exists m :: IsLeast(m, s, lt)
    decreases s
  {
    var y :| y in s;
    if s == {y} {
      assert IsLeast(y, s, lt);
    } else {
      var rest := s - {y};
      LeastExists(rest, lt);
      var m :| IsLeast(m, rest, lt);
      if lt(y, m) {
        forall x | x in s && x != y ensures lt(y, x) {
          if x != m {
            assert lt(m, x);
          }
        }
        assert IsLeast(y, s, lt);
      } else {
        assert IsLeast(m, s, lt);
      }
    }
  }

  /** The elements of `s` in ascending order (Swift's `sorted()`); see SortedCorrect. */
  function Sorted<T(==,!new)>(s: set<T>, lt: (T, T) -> bool): (r: seq<T>)
    requires IsStrictTotalOrder(lt)
    ensures |r| == |s|
    decreases s
  {
    if s == {} then []
    else
      LeastExists(s, lt);
      var m :| IsLeast(m, s, lt);
      [m] + Sorted(s - {m}, lt)
  }

  /** Sorting yields exactly the elements of the set, in strictly ascending order. */
  lemma {:induction false} SortedCorrect<T(!new)>(s: set<T>, lt: (T, T) -> bool)
    requires IsStrictTotalOrder(lt)
    ensures forall x :: x in Sorted(s, lt) <==> x in s
    ensures StrictlySorted(Sorted(s, lt), lt)
    decreases s
  {
    if s != {} {
      LeastExists(s, lt);
      var m :| IsLeast(m, s, lt);
      var rest := Sorted(s - {m}, lt);
      assert Sorted(s, lt) == [m] + rest;
      SortedCorrect(s - {m}, lt);
    }
  }

  /** The first element of a strictly sorted sequence is below every other element. */
  lemma HeadIsLeast<T(!new)>(a: seq<T>, lt: (T, T) -> bool)
    requires |a| > 0 && StrictlySorted(a, lt)
    ensures forall x :: x in a ==> x == a[0] || lt(a[0], x)
  {
    forall x | x in a ensures x == a[0] || lt(a[0], x) {
      var k :| 0 <= k < |a| && a[k] == x;
      if k > 0 {
        assert lt(a[0], a[k]);
      }
    }
  }

  lemma TailElements<T(!new)>(a: seq<T>, lt: (T, T) -> bool, x: T)
    requires IsStrictTotalOrder(lt)
    requires |a| > 0 && StrictlySorted(a, lt)
    ensures x in a[1..] <==> x in a && x != a[0]
  {
    if x in a[1..] {
      var k :| 0 <= k < |a| - 1 && a[1..][k] == x;
      assert lt(a[0], a[k + 1]);
    }
    if x in a && x != a[0] {
      var k :| 0 <= k < |a| && a[k] == x;
      assert a[1..][k - 1] == x;
    }
  }

  /** A strictly sorted sequence is determined by its elements. */
  lemma {:induction false} SortedUnique<T(!new)>(a: seq<T>, b: seq<T>, lt: (T, T) -> bool)
    requires IsStrictTotalOrder(lt)
    requires StrictlySorted(a, lt) && StrictlySorted(b, lt)
    requires forall x :: x in a <==> x in b
    ensures a == b
    decreases |a|
  {
    if a != [] {
      assert a[0] in b;
    }
    if b != [] {
      assert b[0] in a;
    }
    if a != [] && b != [] {
      HeadIsLeast(a, lt);
      HeadIsLeast(b, lt);
      assert a[0] in b && b[0] in a;
      assert a[0] == b[0];
      forall x ensures x in a[1..] <==> x in b[1..] {
        TailElements(a, lt, x);
        TailElements(b, lt, x);
      }
      SortedUnique(a[1..], b[1..], lt);
    }
  }

  /** Sorting the elements of a strictly sorted sequence gives that sequence back. */
  lemma SortedOfSorted<T(!new)>(xs: seq<T>, s: set<T>, lt: (T, T) -> bool)
    requires IsStrictTotalOrder(lt) && StrictlySorted(xs, lt)
    requires forall x :: x in xs <==> x in s
    ensures Sorted(s, lt) == xs
  {
    SortedCorrect(s, lt);
    SortedUnique(Sorted(s, lt), xs, lt);
  }

  /** The least element of `s` (Swift's `sorted().first`); absent exactly for the empty set. */
  function Lowest<T(==,!new)>(s: set<T>, lt: (T, T) -> bool): (r: Option<T>)
    requires IsStrictTotalOrder(lt)
    ensures r.None? <==> s == {}
    ensures r.Some? ==> r.value in s && forall x :: x in s ==> x == r.value || lt(r.value, x)
  {
    SortedCorrect(s, lt);
    var sorted := Sorted(s, lt);
    if |sorted| == 0 then None else Some(sorted[0])
  }

  /** The greatest element of `s` (Swift's `sorted().last`); absent exactly for the empty set. */
  function Highest<T(==,!new)>(s: set<T>, lt: (T, T) -> bool): (r: Option<T>)
    requires IsStrictTotalOrder(lt)
    ensures r.None? <==> s == {}
    ensures r.Some? ==> r.value in s && forall x :: x in s ==> x == r.value || lt(x, r.value)
  {
    SortedCorrect(s, lt);
    var sorted := Sorted(s, lt);
    if |sorted| == 0 then None else Some(sorted[|sorted| - 1])
  }

  /** Swift's `<` on `Int`. */
  function IntLess(a: int, b: int): bool {
    a < b
  }

  lemma IntLessIsOrder()
    ensures IsStrictTotalOrder(IntLess)
  {
  }

  /**
   * Swift's `<` on `String`, modelled as lexicographic order on characters
   * (a proper prefix is smaller).
   */
  function StringLess(a: string, b: string): bool
    decreases |a|
  {
    if |a| == 0 then |b| > 0
    else if |b| == 0 then false
    else if a[0] != b[0] then a[0] < b[0]
    else StringLess(a[1..], b[1..])
  }

  lemma {:induction false} StringLessIrreflexive(a: string)
    ensures !StringLess(a, a)
    decreases |a|
  {
    if |a| > 0 {
      StringLessIrreflexive(a[1..]);
    }
  }

  lemma {:induction false} StringLessTransitive(a: string, b: string, c: string)
    requires StringLess(a, b) && StringLess(b, c)
    ensures StringLess(a, c)
    decreases |a|
  {
    if |a| > 0 && a[0] == b[0] && b[0] == c[0] {
      StringLessTransitive(a[1..], b[1..], c[1..]);
    }
  }

  lemma {:induction false} StringLessTotal(a: string, b: string)
    requires a != b
    ensures StringLess(a, b) || StringLess(b, a)
    decreases |a|
  {
    if |a| > 0 && |b| > 0 && a[0] == b[0] {
      assert a == [a[0]] + a[1..] && b == [b[0]] + b[1..];
      StringLessTotal(a[1..], b[1..]);
    }
  }

  lemma StringLessIsOrder()
    ensures IsStrictTotalOrder(StringLess)
  {
    forall a ensures !StringLess(a, a) {
      StringLessIrreflexive(a);
    }
    forall a, b, c | StringLess(a, b) && StringLess(b, c) ensures StringLess(a, c) {
      StringLessTransitive(a, b, c);
    }
    forall a, b | a != b ensures StringLess(a, b) || StringLess(b, a) {
      StringLessTotal(a, b);
    }
  }
}
