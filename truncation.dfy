/**
 * The truncating `formattedDescription(limitRangesTo:)` that the source
 * repeats for sets of String, Double and RawRepresentable enums. The three
 * copies differ only in how one element is rendered, so it is modelled once
 * over an ordered element type and a `render` function: the string itself,
 * the number's text, or the enum's `rawValue`.
 */
module Truncation {
  import opened Wrappers
  import opened Ordering
  import opened Text

  /** Default limit of the parameterless `formattedDescription` for strings and enums. */
  const DEFAULT_LABEL_LIMIT := 4   // String and enum sets

  /** Each element rendered as '<text>', in order. */
  function QuotedAll<T>(xs: seq<T>, render: T -> string): (qs: seq<string>)
    ensures |qs| == |xs|
    ensures forall i :: 0 <= i < |xs| ==> qs[i] == Quote(render(xs[i]))
  {
    seq(|xs|, i requires 0 <= i < |xs| => Quote(render(xs[i])))
  }

  /**
   * How many of the `n` sorted elements the loop lists before its `break`
   * (taken after the element at index `limit - 2` unless that is the
   * second-to-last element).
   */
  function ListedCount(n: nat, limit: int): nat {
    if 2 <= limit < n then limit - 1 else n
  }

  /** The elements in display order: the listed ones, then the last one after " ... " when truncated. */
  function ShownOf<T>(sorted: seq<T>, limit: int): seq<T>
    requires |sorted| > 0
  {
    sorted[..ListedCount(|sorted|, limit)] + (if |sorted| > limit then [sorted[|sorted| - 1]] else [])
  }

  /** The text built from the sorted elements. */
  function TextOf<T>(sorted: seq<T>, render: T -> string, limit: int): string
    requires |sorted| > 0
  {
    var listed := Join(QuotedAll(sorted, render)[..ListedCount(|sorted|, limit)], ", ");
    if |sorted| > limit then listed + " ... " + Quote(render(sorted[|sorted| - 1])) else listed
  }

  /** The text the formatter returns for a non-empty set. */
  function Truncated<T(==,!new)>(s: set<T>, lt: (T, T) -> bool, render: T -> string, limit: int): string
    requires s != {}
    requires IsStrictTotalOrder(lt)
  {
    TextOf(Sorted(s, lt), render, limit)
  }

  /** The elements a non-empty set's text shows, in order. */
  function Shown<T(==,!new)>(s: set<T>, lt: (T, T) -> bool, limit: int): seq<T>
    requires s != {}
    requires IsStrictTotalOrder(lt)
  {
    ShownOf(Sorted(s, lt), limit)
  }

  /**
   * `formattedDescription(limitRangesTo:)`: quote the sorted elements one by
   * one, stop early once `limit - 1` are listed (unless only the last one
   * would remain), and append " ... '<last>'" when the set is larger than
   * `limit`. An empty set makes the source force-unwrap nil.
   */
  method FormattedDescription<T(==,!new)>(s: set<T>, lt: (T, T) -> bool, render: T -> string, limit: int)
    returns (str: string)
    requires s != {}
    requires IsStrictTotalOrder(lt)
    ensures str == Truncated(s, lt, render, limit)
  {
    var sortedArray := Sorted(s, lt);
    var n := |sortedArray|;
    ghost var parts := QuotedAll(sortedArray, render);
    var retStr: Option<string> := None;
    var listed := 0;
    while listed < n
      invariant listed <= ListedCount(n, limit)
      invariant listed == ListedCount(n, limit) ==> listed == n
      invariant retStr == if listed == 0 then None else Some(Join(parts[..listed], ", "))
    {
      var idx := listed;
      var quoted := Quote(render(sortedArray[idx]));
      assert quoted == parts[idx];
      ListStep(parts, idx, retStr);
      CountStep(n, limit, idx);
      retStr := if retStr == None then Some(quoted) else Some(retStr.value + ", " + quoted);
      listed := listed + 1;
      if idx + 1 == limit - 1 && idx + 1 != n - 1 {
        break;
      }
    }
    if n > limit && retStr != None {
      retStr := Some(retStr.value + " ... " + Quote(render(sortedArray[n - 1])));
    }
    str := retStr.value;
  }

  /** One more quoted element joins the listing with ", " (none before the first). */
  lemma ListStep(parts: seq<string>, idx: nat, retStr: Option<string>)
    requires idx < |parts|
    requires retStr == if idx == 0 then None else Some(Join(parts[..idx], ", "))
    ensures (if retStr == None then Some(parts[idx]) else Some(retStr.value + ", " + parts[idx])) ==
            Some(Join(parts[..idx + 1], ", "))
  {
    JoinPrefix(parts, ", ", idx);
  }

  /** The loop's count of listed elements never passes `ListedCount`, and reaches it exactly when the loop ends. */
  lemma CountStep(n: nat, limit: int, idx: nat)
    requires idx < n && idx <= ListedCount(n, limit)
    requires idx == ListedCount(n, limit) ==> idx == n
    ensures idx + 1 <= ListedCount(n, limit)
    ensures (idx + 1 == limit - 1 && idx + 1 != n - 1) ==> idx + 1 == ListedCount(n, limit)
    ensures idx + 1 == ListedCount(n, limit) ==> idx + 1 == n || (idx + 1 == limit - 1 && idx + 1 != n - 1)
  {
  }

  /** Within the limit: every element is listed, in order, and there is no " ... " marker. */
  lemma TextFits<T>(sorted: seq<T>, render: T -> string, limit: int)
    requires 0 < |sorted| <= limit
    ensures ShownOf(sorted, limit) == sorted
    ensures TextOf(sorted, render, limit) == Join(QuotedAll(sorted, render), ", ")
  {
    assert sorted[..|sorted|] == sorted;
    var parts := QuotedAll(sorted, render);
    assert parts[..|sorted|] == parts;
  }

  /** Beyond a limit of at least 2: the first `limit - 1` elements, then " ... " and the last. */
  lemma TextCut<T>(sorted: seq<T>, render: T -> string, limit: int)
    requires 2 <= limit < |sorted|
    ensures ShownOf(sorted, limit) == sorted[..limit - 1] + [sorted[|sorted| - 1]]
    ensures TextOf(sorted, render, limit) ==
            Join(QuotedAll(sorted[..limit - 1], render), ", ") + " ... " + Quote(render(sorted[|sorted| - 1]))
  {
    assert QuotedAll(sorted, render)[..limit - 1] == QuotedAll(sorted[..limit - 1], render);
  }

  /** Below a limit of 2 the loop never breaks: every element is listed and the last is shown again. */
  lemma TextSmallLimit<T>(sorted: seq<T>, render: T -> string, limit: int)
    requires limit < 2 && |sorted| > limit && |sorted| > 0
    ensures ShownOf(sorted, limit) == sorted + [sorted[|sorted| - 1]]
    ensures TextOf(sorted, render, limit) ==
            Join(QuotedAll(sorted, render), ", ") + " ... " + Quote(render(sorted[|sorted| - 1]))
  {
    assert sorted[..|sorted|] == sorted;
    var parts := QuotedAll(sorted, render);
    assert parts[..|sorted|] == parts;
  }

  /**
   * The text quotes exactly the shown elements, in order: all joined by ", ",
   * except that when the set is cut the last one follows " ... ".
   */
  lemma TextQuotesShown<T>(sorted: seq<T>, render: T -> string, limit: int)
    requires |sorted| > 0
    ensures var parts := QuotedAll(ShownOf(sorted, limit), render);
            var n := ListedCount(|sorted|, limit);
            TextOf(sorted, render, limit) ==
              if |sorted| > limit then Join(parts[..n], ", ") + " ... " + parts[n] else Join(parts, ", ")
  {
    var parts := QuotedAll(ShownOf(sorted, limit), render);
    var n := ListedCount(|sorted|, limit);
    assert parts[..n] == QuotedAll(sorted, render)[..n];
    if |sorted| <= limit {
      assert parts == parts[..n];
    }
  }

  /** In a strictly sorted sequence every element occurs exactly once. */
  lemma {:induction false} DistinctCount<T(!new)>(xs: seq<T>, lt: (T, T) -> bool, k: nat)
    requires IsStrictTotalOrder(lt) && StrictlySorted(xs, lt)
    requires k < |xs|
    ensures multiset(xs)[xs[k]] == 1
    decreases |xs|
  {
    var last := |xs| - 1;
    var init := xs[..last];
    assert xs == init + [xs[last]];
    if k == last {
      forall j | 0 <= j < last ensures init[j] != xs[k] {
        assert lt(xs[j], xs[k]);
      }
      assert xs[k] !in init;
    } else {
      assert StrictlySorted(init, lt);
      DistinctCount(init, lt, k);
      assert init[k] == xs[k];
      assert lt(xs[k], xs[last]);
    }
  }

  /** Cutting a strictly sorted sequence keeps it strictly sorted. */
  lemma CutStaysSorted<T(!new)>(sorted: seq<T>, lt: (T, T) -> bool, limit: int)
    requires IsStrictTotalOrder(lt) && StrictlySorted(sorted, lt)
    requires 2 <= limit < |sorted|
    ensures StrictlySorted(sorted[..limit - 1] + [sorted[|sorted| - 1]], lt)
  {
    var shown := sorted[..limit - 1] + [sorted[|sorted| - 1]];
    forall i, j | 0 <= i < j < |shown| ensures lt(shown[i], shown[j]) {
      assert shown[i] == sorted[i];
      if j < limit - 1 {
        assert shown[j] == sorted[j];
      }
    }
  }

  /**
   * With a limit of at least 2 the shown elements of a strictly sorted
   * sequence stay strictly sorted, number `min(|sorted|, limit)`, come from
   * the sequence, end with its last element, and show that element once.
   */
  lemma {:induction false} ShownOfSorted<T(!new)>(sorted: seq<T>, lt: (T, T) -> bool, limit: int)
    requires IsStrictTotalOrder(lt) && StrictlySorted(sorted, lt)
    requires |sorted| > 0 && limit >= 2
    ensures var shown := ShownOf(sorted, limit);
            StrictlySorted(shown, lt) &&
            |shown| == (if |sorted| <= limit then |sorted| else limit) &&
            (forall x :: x in shown ==> x in sorted) &&
            shown[|shown| - 1] == sorted[|sorted| - 1] &&
            multiset(shown)[sorted[|sorted| - 1]] == 1
  {
    var shown := ShownOf(sorted, limit);
    if |sorted| > limit {
      TextCut(sorted, x => "", limit);
      CutStaysSorted(sorted, lt, limit);
    } else {
      TextFits(sorted, x => "", limit);
    }
    DistinctCount(shown, lt, |shown| - 1);
  }

  /** When the set fits the limit every element is listed, ascending, with no " ... " marker. */
  lemma TruncatedFits<T(!new)>(s: set<T>, lt: (T, T) -> bool, render: T -> string, limit: int)
    requires s != {} && IsStrictTotalOrder(lt)
    requires |s| <= limit
    ensures Shown(s, lt, limit) == Sorted(s, lt)
    ensures Truncated(s, lt, render, limit) == Join(QuotedAll(Sorted(s, lt), render), ", ")
  {
    TextFits(Sorted(s, lt), render, limit);
  }

  /**
   * When the set exceeds a limit of at least 2, the text is the first
   * `limit - 1` sorted elements, then " ... " and the highest element; the
   * highest is not among the listed ones, so it is shown exactly once, and
   * there are exactly `limit` shown elements.
   */
  lemma TruncatedCut<T(!new)>(s: set<T>, lt: (T, T) -> bool, render: T -> string, limit: int)
    requires IsStrictTotalOrder(lt)
    requires 2 <= limit < |s|
    ensures var sorted := Sorted(s, lt);
            var highest := Highest(s, lt).value;
            Truncated(s, lt, render, limit) ==
              Join(QuotedAll(sorted[..limit - 1], render), ", ") + " ... " + Quote(render(highest)) &&
            |Shown(s, lt, limit)| == limit &&
            multiset(Shown(s, lt, limit))[highest] == 1 &&
            highest !in sorted[..limit - 1]
  {
    var sorted := Sorted(s, lt);
    SortedCorrect(s, lt);
    TextCut(sorted, render, limit);
    ShownOfSorted(sorted, lt, limit);
    var last := sorted[|sorted| - 1];
    assert multiset(sorted[..limit - 1] + [last]) == multiset(sorted[..limit - 1]) + multiset{last};
  }

  /**
   * With a limit of at least 2 the shown elements are ascending, all from the
   * set, at most `limit` of them, and the last one is the highest element.
   */
  lemma ShownProperties<T(!new)>(s: set<T>, lt: (T, T) -> bool, limit: int)
    requires s != {} && IsStrictTotalOrder(lt)
    requires limit >= 2
    ensures var shown := Shown(s, lt, limit);
            StrictlySorted(shown, lt) &&
            |shown| == (if |s| <= limit then |s| else limit) &&
            (forall x :: x in shown ==> x in s) &&
            shown[|shown| - 1] == Highest(s, lt).value &&
            multiset(shown)[Highest(s, lt).value] == 1
  {
    SortedCorrect(s, lt);
    ShownOfSorted(Sorted(s, lt), lt, limit);
  }

  /**
   * With a limit below 2, a set larger than the limit lists every element and
   * then shows the highest a second time after " ... ".
   */
  lemma SmallLimitRepeatsHighest<T(!new)>(s: set<T>, lt: (T, T) -> bool, limit: int)
    requires IsStrictTotalOrder(lt)
    requires limit < 2 && |s| > limit && s != {}
    ensures Shown(s, lt, limit) == Sorted(s, lt) + [Highest(s, lt).value]
    ensures multiset(Shown(s, lt, limit))[Highest(s, lt).value] == 2
  {
    var sorted := Sorted(s, lt);
    SortedCorrect(s, lt);
    TextSmallLimit(sorted, x => "", limit);
    DistinctCount(sorted, lt, |sorted| - 1);
  }
}
