/**
 * The per-element-type extensions of `MultiVar`: the integer sum, the
 * extremes, and the texts shown to the user (`valueString`,
 * `placeholderString`, `statsString`) for integers, strings and enums. An
 * enum is any ordered element type with a `raw` function giving the text
 * of its raw value.
 */
module MultiVarExtensions {
  import opened Wrappers
  import opened Ordering
  import opened Text
  import opened SeqSets
  import opened Sums
  import opened RangeView
  import opened Truncation
  import opened MultiVars

  // ---------------------------------------------------------------- integers

  /** `MultiVar<Int>.sum`: every added entry counts, duplicates included. */
  function Sum(m: MultiVar<int>): int
    reads m
  {
    SeqSum(m.originals)
  }

  /** The sum agrees with `Set<Int>.sum` of the unique values when nothing was added twice. */
  lemma SumWithoutDuplicates(m: MultiVar<int>)
    requires m.Valid() && Distinct(m.originals)
    ensures Sum(m) == SetSum(m.values)
  {
    SetSumOfDistinct(m.values, m.originals);
  }

  /** `lowest` of an integer container: at most every entry. */
  function IntLowest(m: MultiVar<int>): (r: Option<int>)
    reads m
    requires m.Valid()
    ensures r.None? <==> m.originals == []
    ensures r.Some? ==> r.value in m.values && forall x :: x in m.values ==> r.value <= x
  {
    IntLessIsOrder();
    m.Lowest(IntLess)
  }

  /** `highest` of an integer container: at least every entry. */
  function IntHighest(m: MultiVar<int>): (r: Option<int>)
    reads m
    requires m.Valid()
    ensures r.None? <==> m.originals == []
    ensures r.Some? ==> r.value in m.values && forall x :: x in m.values ==> x <= r.value
  {
    IntLessIsOrder();
    m.Highest(IntLess)
  }

  /** The integer `valueString`: the reference value's decimal text, or "". */
  function IntValueString(m: MultiVar<int>): string
    reads m
  {
    m.ValueString(IntToString)
  }

  /**
   * The text is non-empty exactly when a reference value is present and at
   * most one unique value was added, and then it reads back as the reference.
   */
  lemma IntValueStringShowsReference(m: MultiVar<int>)
    ensures IntValueString(m) != "" <==> m.HasReferenceValue() && m.UniqueCount() <= 1
    ensures IntValueString(m) != "" ==> ParseInt(IntValueString(m)) == m.referenceValue.value
  {
    if m.HasReferenceValue() && m.UniqueCount() <= 1 {
      ParseIntToString(m.referenceValue.value);
    }
  }

  /** `placeholderString` for integers: the run-compacted listing when the entries disagree. */
  function IntPlaceholder(m: MultiVar<int>): (r: Option<string>)
    reads m
    ensures r.None? <==> m.UniqueCount() <= 1
  {
    if m.HasMultipleValues() then Some("Multiple values: " + FormattedInts(m.values, DEFAULT_RANGE_LIMIT)) else None
  }

  /**
   * When the entries disagree, any well-formed list of at most 16 runs that
   * covers exactly the unique values is what the placeholder lists, in order.
   */
  lemma IntPlaceholderListsRuns(m: MultiVar<int>, rs: seq<Run>)
    requires m.UniqueCount() > 1
    requires WellFormed(rs) && (forall x :: InRuns(rs, x) <==> x in m.values)
    requires |rs| <= DEFAULT_RANGE_LIMIT
    ensures IntPlaceholder(m) == Some("Multiple values: " + Join(RunTexts(rs), ", "))
  {
    FormattedIntsListing(m.values, DEFAULT_RANGE_LIMIT, rs);
  }

  /** The extremes and the average of a non-empty integer container. */
  datatype Spread = Spread(average: int, lowest: int, highest: int)

  /** What the integer statistics text reports. */
  datatype IntStats = IntStats(sum: int, addCount: nat, uniqueCount: nat, spread: Option<Spread>)

  /** The printed average of a non-empty container lies between its extremes. */
  lemma AverageBetweenExtremes(m: MultiVar<int>)
    requires m.Valid() && m.originals != []
    ensures IntLowest(m).value <= Average(m.originals) <= IntHighest(m).value
  {
    var lo := IntLowest(m).value;
    var hi := IntHighest(m).value;
    forall i | 0 <= i < |m.originals| ensures lo <= m.originals[i] <= hi {
      assert m.originals[i] in m.values;
    }
    AverageInRange(m.originals, lo, hi);
  }

  /**
   * The figures behind the integer `statsString`: the sum and both counts
   * always; the average and the extremes exactly when something was added,
   * with lowest <= average <= highest and every unique value within the extremes.
   */
  function IntStatistics(m: MultiVar<int>): (st: IntStats)
    reads m
    requires m.Valid()
    ensures st.sum == Sum(m) && st.addCount == m.AddCount() && st.uniqueCount == m.UniqueCount()
    ensures st.spread.Some? <==> m.values != {}
    ensures st.spread.Some? ==>
              var sp := st.spread.value;
              sp.lowest <= sp.average <= sp.highest &&
              sp.lowest in m.values && sp.highest in m.values &&
              forall x :: x in m.values ==> sp.lowest <= x <= sp.highest
  {
    UniqueAtMostAdded(m);
    if m.values == {} then
      IntStats(Sum(m), m.AddCount(), m.UniqueCount(), None)
    else
      AverageBetweenExtremes(m);
      var spread := Spread(Average(m.originals), IntLowest(m).value, IntHighest(m).value);
      IntStats(Sum(m), m.AddCount(), m.UniqueCount(), Some(spread))
  }

  /** "Total entries is <addCount> of which <uniqueCount> unique." on a new line. */
  function TotalsLine(addCount: nat, uniqueCount: nat): string {
    "\nTotal entries is " + IntToString(addCount) + " of which " + IntToString(uniqueCount) + " unique."
  }

  /** The integer statistics text of the given figures. */
  function IntStatsText(st: IntStats): string {
    "Statistics\n\nSum is " + IntToString(st.sum) + "." + TotalsLine(st.addCount, st.uniqueCount) +
    match st.spread
    case None => ""
    case Some(sp) =>
      "\nAverage: " + IntToString(sp.average) + ".\nRange: " +
      IntToString(sp.lowest) + " ≤ i ≤ " + IntToString(sp.highest) + "."
  }

  /** `MultiVar<Int>.statsString`. */
  function IntStatsString(m: MultiVar<int>): string
    reads m
    requires m.Valid()
  {
    IntStatsText(IntStatistics(m))
  }

  // ------------------------------------------------------ strings and enums

  /** The element clause of the string and enum statistics texts, chosen by the number of unique values. */
  datatype Clause<T> = NoValue | OneValue(only: T) | TwoValues(low: T, high: T) | ValueRange(low: T, high: T)

  /** The clause for a container: none, its one value, its two values, or its extremes. */
  function ClauseOf<T(==,!new)>(m: MultiVar<T>, lt: (T, T) -> bool): Clause<T>
    reads m
    requires IsStrictTotalOrder(lt)
  {
    var lowest := Ordering.Lowest(m.values, lt);
    var highest := Ordering.Highest(m.values, lt);
    if |m.values| == 0 then NoValue
    else if |m.values| == 1 then OneValue(lowest.value)
    else if |m.values| == 2 then TwoValues(lowest.value, highest.value)
    else ValueRange(lowest.value, highest.value)
  }

  /** In a set of two or more, the lowest element is strictly below the highest. */
  lemma LowestBelowHighest<T(!new)>(s: set<T>, lt: (T, T) -> bool)
    requires IsStrictTotalOrder(lt) && |s| > 1
    ensures lt(Ordering.Lowest(s, lt).value, Ordering.Highest(s, lt).value)
  {
    var lo := Ordering.Lowest(s, lt).value;
    var hi := Ordering.Highest(s, lt).value;
    TwoDistinct(s);
    var x, y :| x in s && y in s && x != y;
    if lt(x, y) {
      assert x == lo || lt(lo, x);
      assert y == hi || lt(y, hi);
    } else {
      assert y == lo || lt(lo, y);
      assert x == hi || lt(x, hi);
    }
  }

  /**
   * The clause matches the number of unique values: nothing for none, the
   * only value for one, exactly the two values (ascending) for two, and the
   * extremes, with every value between them, for more.
   */
  lemma ClauseOfCorrect<T(!new)>(m: MultiVar<T>, lt: (T, T) -> bool)
    requires IsStrictTotalOrder(lt)
    ensures var c := ClauseOf(m, lt);
            (c.NoValue? <==> m.UniqueCount() == 0) &&
            (c.OneValue? <==> m.UniqueCount() == 1) &&
            (c.TwoValues? <==> m.UniqueCount() == 2) &&
            (c.ValueRange? <==> m.UniqueCount() > 2) &&
            (c.OneValue? ==> m.values == {c.only}) &&
            (c.TwoValues? ==> m.values == {c.low, c.high} && lt(c.low, c.high)) &&
            (c.ValueRange? ==> c.low in m.values && c.high in m.values &&
                               forall x :: x in m.values ==> x == c.low || x == c.high || (lt(c.low, x) && lt(x, c.high)))
  {
    var s := m.values;
    if |s| == 1 {
      var lo := Ordering.Lowest(s, lt).value;
      SubsetSameSize({lo}, s);
    } else if |s| == 2 {
      var lo := Ordering.Lowest(s, lt).value;
      var hi := Ordering.Highest(s, lt).value;
      LowestBelowHighest(s, lt);
      SubsetSameSize({lo, hi}, s);
    } else if |s| > 2 {
      LowestBelowHighest(s, lt);
    }
  }

  /** `placeholderString` for strings (`render` the identity) and enums (`render` the raw value). */
  function LabelPlaceholder<T(==,!new)>(m: MultiVar<T>, lt: (T, T) -> bool, render: T -> string, limit: int)
    : (r: Option<string>)
    reads m
    requires IsStrictTotalOrder(lt)
    ensures r.None? <==> m.UniqueCount() <= 1
  {
    if m.HasMultipleValues() then Some("Multiple values: " + Truncated(m.values, lt, render, limit)) else None
  }

  /** With 2 to `limit` unique values the placeholder quotes each of them, ascending. */
  lemma LabelPlaceholderListsAll<T(!new)>(m: MultiVar<T>, lt: (T, T) -> bool, render: T -> string, limit: int)
    requires IsStrictTotalOrder(lt)
    requires 2 <= m.UniqueCount() <= limit
    ensures LabelPlaceholder(m, lt, render, limit) ==
            Some("Multiple values: " + Join(QuotedAll(Sorted(m.values, lt), render), ", "))
  {
    TruncatedFits(m.values, lt, render, limit);
  }

  /** Beyond the limit (at least 2) the placeholder ends with " ... " and the highest value, quoted. */
  lemma LabelPlaceholderCut<T(!new)>(m: MultiVar<T>, lt: (T, T) -> bool, render: T -> string, limit: int)
    requires IsStrictTotalOrder(lt)
    requires 2 <= limit < m.UniqueCount()
    ensures LabelPlaceholder(m, lt, render, limit) ==
            Some("Multiple values: " + Join(QuotedAll(Sorted(m.values, lt)[..limit - 1], render), ", ") +
                 " ... " + Quote(render(Ordering.Highest(m.values, lt).value)))
  {
    TruncatedCut(m.values, lt, render, limit);
    var listed := Join(QuotedAll(Sorted(m.values, lt)[..limit - 1], render), ", ");
    var last := Quote(render(Ordering.Highest(m.values, lt).value));
    PrefixRegroup("Multiple values: ", listed, " ... ", last);
  }

  /** Only regroups a concatenation; kept apart so the solver sees it in a small context. */
  lemma PrefixRegroup(a: string, b: string, c: string, d: string)
    ensures a + (b + c + d) == a + b + c + d
  {
  }

  /** The clause as the string `statsString` words it, each value quoted. */
  function StringClauseText<T>(c: Clause<T>, render: T -> string): string {
    match c
    case NoValue => ""
    case OneValue(v) => "\nOne value: " + Quote(render(v)) + "."
    case TwoValues(lo, hi) => "\nThese values: " + Quote(render(lo)) + " & " + Quote(render(hi)) + "."
    case ValueRange(lo, hi) => "\nRange: " + Quote(render(lo)) + " ≤ i ≤ " + Quote(render(hi)) + "."
  }

  /** The clause as the enum `statsString` words it, each value by its raw value. */
  function EnumClauseText<T>(c: Clause<T>, raw: T -> string): string {
    match c
    case NoValue => ""
    case OneValue(v) => "\nThis value: " + raw(v) + "."
    case TwoValues(lo, hi) => "\nThese two values: " + raw(lo) + " & " + raw(hi) + "."
    case ValueRange(lo, hi) => "\nRange: " + raw(lo) + " ≤ i ≤ " + raw(hi) + "."
  }

  /**
   * `MultiVar<String>.statsString`: the totals line, then a clause chosen by
   * the number of unique values. Strings are the elements with `render` the
   * identity and `lt` the code-point order.
   */
  method StringStatsString<T(==,!new)>(m: MultiVar<T>, lt: (T, T) -> bool, render: T -> string) returns (str: string)
    requires IsStrictTotalOrder(lt)
    ensures str == "Statistics\n" + TotalsLine(m.AddCount(), m.UniqueCount()) + StringClauseText(ClauseOf(m, lt), render)
  {
    var lowest := Ordering.Lowest(m.values, lt);
    var highest := Ordering.Highest(m.values, lt);
    str := "Statistics\n";
    str := str + TotalsLine(m.AddCount(), m.UniqueCount());
    if |m.values| == 1 {
      assert ClauseOf(m, lt) == OneValue(lowest.value);
      str := str + ("\nOne value: " + Quote(render(lowest.value)) + ".");
    } else if |m.values| == 2 {
      assert ClauseOf(m, lt) == TwoValues(lowest.value, highest.value);
      str := str + ("\nThese values: " + Quote(render(lowest.value)) + " & " + Quote(render(highest.value)) + ".");
    } else if |m.values| > 2 {
      assert ClauseOf(m, lt) == ValueRange(lowest.value, highest.value);
      str := str + ("\nRange: " + Quote(render(lowest.value)) + " ≤ i ≤ " + Quote(render(highest.value)) + ".");
    }
  }

  /** `statsString` for an enum container, values shown by `raw`. */
  method EnumStatsString<T(==,!new)>(m: MultiVar<T>, lt: (T, T) -> bool, raw: T -> string) returns (str: string)
    requires IsStrictTotalOrder(lt)
    ensures str == "Statistics\n" + TotalsLine(m.AddCount(), m.UniqueCount()) + EnumClauseText(ClauseOf(m, lt), raw)
  {
    var lowest := Ordering.Lowest(m.values, lt);
    var highest := Ordering.Highest(m.values, lt);
    str := "Statistics\n";
    str := str + TotalsLine(m.AddCount(), m.UniqueCount());
    if |m.values| == 1 {
      assert ClauseOf(m, lt) == OneValue(lowest.value);
      str := str + ("\nThis value: " + raw(lowest.value) + ".");
    } else if |m.values| == 2 {
      assert ClauseOf(m, lt) == TwoValues(lowest.value, highest.value);
      str := str + ("\nThese two values: " + raw(lowest.value) + " & " + raw(highest.value) + ".");
    } else if |m.values| > 2 {
      assert ClauseOf(m, lt) == ValueRange(lowest.value, highest.value);
      str := str + ("\nRange: " + raw(lowest.value) + " ≤ i ≤ " + raw(highest.value) + ".");
    }
  }
}
