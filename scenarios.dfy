/**
 * Concrete uses of the container, each with the exact figures and texts it
 * produces.
 */
module Scenarios {
  import opened Wrappers
  import opened Ordering
  import opened Text
  import opened SeqSets
  import opened Sums
  import opened RangeView
  import opened MultiVars
  import opened Truncation
  import opened MultiVarExtensions

  /**
   * Adding 1, 2, 2, 3, 7, 8, 9 (no reference): the sum counts the duplicate,
   * the set sum does not, and the placeholder compacts the values to runs.
   */
  method IntScenario() returns (sum: int, setSum: int, addCount: nat, uniqueCount: nat, placeholder: Option<string>)
    ensures sum == 32 && setSum == 30
    ensures addCount == 7 && uniqueCount == 6
    ensures placeholder == Some("Multiple values: 1..3, 7..9")
  {
    var m := new MultiVar.WithValues(None, [1, 2, 2, 3, 7, 8, 9]);
    ExampleValues(m.originals, m.values);
    ExampleSum(m.originals);
    ExampleSetSum(m.values);
    FormattedIntsExample(m.values);
    sum := Sum(m);
    setSum := SetSum(m.values);
    addCount := m.AddCount();
    uniqueCount := m.UniqueCount();
    placeholder := IntPlaceholder(m);
    assert placeholder == Some("Multiple values: " + "1..3, 7..9");
    PlaceholderLiteral();
  }

  /** Only joins two literals; kept apart so the solver sees it in a small context. */
  lemma PlaceholderLiteral()
    ensures "Multiple values: " + "1..3, 7..9" == "Multiple values: 1..3, 7..9"
  {
  }

  lemma ExampleValues(xs: seq<int>, s: set<int>)
    requires xs == [1, 2, 2, 3, 7, 8, 9] && s == Elements(xs)
    ensures s == {1, 2, 3, 7, 8, 9} && |s| == 6
  {
  }

  lemma ExampleSum(xs: seq<int>)
    requires xs == [1, 2, 2, 3, 7, 8, 9]
    ensures SeqSum(xs) == 32
  {
    var p1, p2, p3, p4, p5, p6 := [1], [1, 2], [1, 2, 2], [1, 2, 2, 3], [1, 2, 2, 3, 7], [1, 2, 2, 3, 7, 8];
    assert p1[..0] == [];
    assert p2[..1] == p1;
    assert p3[..2] == p2;
    assert p4[..3] == p3;
    assert p5[..4] == p4;
    assert p6[..5] == p5;
    assert xs[..6] == p6;
  }

  lemma ExampleSetSum(s: set<int>)
    requires s == {1, 2, 3, 7, 8, 9}
    ensures SetSum(s) == 30
  {
    var ys := [1, 2, 3, 7, 8, 9];
    var p1, p2, p3, p4, p5 := [1], [1, 2], [1, 2, 3], [1, 2, 3, 7], [1, 2, 3, 7, 8];
    assert p1[..0] == [];
    assert p2[..1] == p1;
    assert p3[..2] == p2;
    assert p4[..3] == p3;
    assert p5[..4] == p4;
    assert ys[..5] == p5;
    assert SeqSum(ys) == 30;
    assert Elements(ys) == s;
    SetSumOfDistinct(s, ys);
  }

  /** ... and its statistics report the sum, both counts, the truncated average 32/7 and the extremes. */
  method IntStatsScenario() returns (stats: string)
    ensures stats == IntStatsText(IntStats(32, 7, 6, Some(Spread(4, 1, 9))))
  {
    var m := new MultiVar.WithValues(None, [1, 2, 2, 3, 7, 8, 9]);
    ExampleValues(m.originals, m.values);
    ExampleSum(m.originals);
    var st := IntStatistics(m);
    assert st.spread.value.lowest == 1 by {
      assert 1 in m.values;
    }
    assert st.spread.value.highest == 9 by {
      assert 9 in m.values;
    }
    assert st.spread.value.average == 4;
    stats := IntStatsString(m);
  }

  /** A container created with reference value 5 and nothing added shows 5 and reports empty statistics. */
  method EmptyIntScenario() returns (valueString: string, placeholder: Option<string>, stats: string)
    ensures valueString == "5" && placeholder == None
    ensures stats == IntStatsText(IntStats(0, 0, 0, None))
  {
    var m := new MultiVar(Some(5));
    valueString := IntValueString(m);
    placeholder := IntPlaceholder(m);
    stats := IntStatsString(m);
    assert IntToString(5) == "5";
  }

  /** Strings are shown as themselves. */
  function Identity(s: string): string {
    s
  }

  /**
   * Adding "b", "a", "c", "a": four entries, three unique; the statistics
   * name the extremes 'a' and 'c', and the placeholder quotes all three in order.
   */
  method StringScenario() returns (addCount: nat, uniqueCount: nat, clause: Clause<string>, stats: string, placeholder: Option<string>)
    ensures addCount == 4 && uniqueCount == 3
    ensures clause == ValueRange("a", "c")
    ensures stats == "Statistics\n" + TotalsLine(4, 3) + StringClauseText(clause, Identity)
    ensures placeholder == Some("Multiple values: " + Join(["'a'", "'b'", "'c'"], ", "))
  {
    var m := new MultiVar.WithValues(None, ["b", "a", "c", "a"]);
    ExampleStrings(m.originals, m.values);
    StringLessIsOrder();
    SortedOfSorted(["a", "b", "c"], m.values, StringLess);
    addCount := m.AddCount();
    uniqueCount := m.UniqueCount();
    clause := ClauseOf(m, StringLess);
    stats := StringStatsString(m, StringLess, Identity);
    LabelPlaceholderListsAll(m, StringLess, Identity, Truncation.DEFAULT_LABEL_LIMIT);
    placeholder := LabelPlaceholder(m, StringLess, Identity, Truncation.DEFAULT_LABEL_LIMIT);
    ExampleQuoted();
  }

  lemma ExampleQuoted()
    ensures QuotedAll(["a", "b", "c"], Identity) == ["'a'", "'b'", "'c'"]
  {
    assert Quote("a") == "'a'" && Quote("b") == "'b'" && Quote("c") == "'c'";
  }

  lemma ExampleStrings(xs: seq<string>, s: set<string>)
    requires xs == ["b", "a", "c", "a"] && s == Elements(xs)
    ensures s == {"a", "b", "c"} && |s| == 3
    ensures StrictlySorted(["a", "b", "c"], StringLess)
  {
    assert StringLess("a", "b") && StringLess("b", "c") && StringLess("a", "c");
  }


  /** A string container whose reference value is "" shows "" even though the entries agree. */
  method EmptyReferenceScenario() returns (hasReference: bool, multiple: bool, valueString: string)
    ensures hasReference && !multiple && valueString == ""
  {
    var m := new MultiVar.WithValues(Some(""), [""]);
    assert m.values == {""};
    hasReference := m.HasReferenceValue();
    multiple := m.HasMultipleValues();
    valueString := m.ValueString(Identity);
  }

  /** A three-level enum, ordered by declaration, whose raw values are their names. */
  datatype Level = Low | Medium | High

  function Rank(l: Level): int {
    match l
    case Low => 0
    case Medium => 1
    case High => 2
  }

  function LevelLess(a: Level, b: Level): bool {
    Rank(a) < Rank(b)
  }

  function LevelRaw(l: Level): string {
    match l
    case Low => "low"
    case Medium => "medium"
    case High => "high"
  }

  lemma LevelLessIsOrder()
    ensures IsStrictTotalOrder(LevelLess)
  {
    forall a: Level, b: Level | a != b ensures LevelLess(a, b) || LevelLess(b, a) {
      assert Rank(a) != Rank(b);
    }
  }

  /**
   * Adding High, Low, High: three entries, two unique; the statistics name both
   * values by their raw values, lowest first.
   */
  method EnumScenario() returns (clause: Clause<Level>, stats: string)
    ensures clause == TwoValues(Low, High)
    ensures stats == "Statistics\n" + TotalsLine(3, 2) + EnumClauseText(TwoValues(Low, High), LevelRaw)
  {
    var m := new MultiVar.WithValues(None, [High, Low, High]);
    assert m.values == {Low, High};
    LevelLessIsOrder();
    ClauseOfCorrect(m, LevelLess);
    clause := ClauseOf(m, LevelLess);
    stats := EnumStatsString(m, LevelLess, LevelRaw);
  }
}
