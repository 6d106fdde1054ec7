/**
 * Run compaction of a set of integers (`Set<Int>.rangeView`) and the
 * integer `formattedDescription(limitRangesTo:)` built on it.
 */
module RangeView {
  import opened Wrappers
  import opened Ordering
  import opened Text

  /** A half-open run [lo, hi) of consecutive integers (Swift's `CountableRange<Int>`). */
  datatype Run = Run(lo: int, hi: int)

  predicate Contains(r: Run, x: int) {
    r.lo <= x < r.hi
  }

  /** `x` lies in one of the runs. */
  ghost predicate InRuns(rs: seq<Run>, x: int) {
    exists i :: 0 <= i < |rs| && Contains(rs[i], x)
  }

  /** Every run is non-empty and each run ends strictly before the next one starts. */
  ghost predicate WellFormed(rs: seq<Run>) {
    (forall i :: 0 <= i < |rs| ==> rs[i].lo < rs[i].hi) &&
    (forall i, j :: 0 <= i < j < |rs| ==> rs[i].hi < rs[j].lo)
  }

  /** One iteration of the compaction walk: extend the last run with `v` or open a new run. */
  function Step(rs: seq<Run>, v: int): seq<Run> {
    if rs == [] then [Run(v, v + 1)]
    else if v > rs[|rs| - 1].hi then rs + [Run(v, v + 1)]
    else rs[..|rs| - 1] + [Run(rs[|rs| - 1].lo, v + 1)]
  }

  /** The runs the walk has built (closed ones and the open one) after visiting `sv`. */
  function RunsOf(sv: seq<int>): seq<Run>
    decreases |sv|
  {
    if sv == [] then [] else Step(RunsOf(sv[..|sv| - 1]), sv[|sv| - 1])
  }

  /** The elements of a set of integers in ascending order. */
  function SortedInts(s: set<int>): (r: seq<int>)
    ensures |r| == |s|
    ensures forall x :: x in r <==> x in s
    ensures StrictlySorted(r, IntLess)
  {
    IntLessIsOrder();
    SortedCorrect(s, IntLess);
    Sorted(s, IntLess)
  }

  /** The range view of a set: the walk over its elements in ascending order. */
  function RunView(s: set<int>): seq<Run> {
    RunsOf(SortedInts(s))
  }

  lemma RunsOfPrefix(sv: seq<int>, i: nat)
    requires i < |sv|
    ensures RunsOf(sv[..i + 1]) == Step(RunsOf(sv[..i]), sv[i])
  {
    assert sv[..i + 1][..i] == sv[..i];
  }

  /** Step on runs whose last run is `r`, spelled out for both branches. */
  lemma StepAfter(ranges: seq<Run>, r: Run, v: int)
    ensures Step(ranges + [r], v) ==
            if v > r.hi then (ranges + [r]) + [Run(v, v + 1)] else ranges + [Run(r.lo, v + 1)]
  {
    assert (ranges + [r])[..|ranges|] == ranges;
  }

  lemma InRunsSnoc(rs: seq<Run>, r: Run, x: int)
    ensures InRuns(rs + [r], x) <==> InRuns(rs, x) || Contains(r, x)
  {
    var t := rs + [r];
    if InRuns(rs, x) {
      var i :| 0 <= i < |rs| && Contains(rs[i], x);
      assert t[i] == rs[i];
    }
    if Contains(r, x) {
      assert t[|rs|] == r;
    }
    if InRuns(t, x) {
      var i :| 0 <= i < |t| && Contains(t[i], x);
      if i < |rs| {
        assert rs[i] == t[i];
      }
    }
  }

  /** A step with a value at or beyond the end of the last run keeps the runs well formed. */
  lemma StepWellFormed(rs: seq<Run>, v: int)
    requires WellFormed(rs)
    requires rs != [] ==> rs[|rs| - 1].hi <= v
    ensures WellFormed(Step(rs, v))
  {
    if rs != [] {
      var front, last := rs[..|rs| - 1], rs[|rs| - 1];
      assert rs == front + [last];
      StepAfter(front, last, v);
      var out := Step(rs, v);
      forall i, j | 0 <= i < j < |out| ensures out[i].hi < out[j].lo {
        if j < |front| {
          assert out[i] == rs[i] && out[j] == rs[j];
        } else if i < |front| {
          assert out[i] == rs[i] && rs[i].hi < last.lo;
        }
      }
    }
  }

  /** Such a step adds exactly `v` to the covered integers. */
  lemma StepCovers(rs: seq<Run>, v: int, x: int)
    requires WellFormed(rs)
    requires rs != [] ==> rs[|rs| - 1].hi <= v
    ensures InRuns(Step(rs, v), x) <==> InRuns(rs, x) || x == v
  {
    if rs == [] {
      InRunsSnoc([], Run(v, v + 1), x);
      assert [] + [Run(v, v + 1)] == [Run(v, v + 1)];
    } else {
      var front, last := rs[..|rs| - 1], rs[|rs| - 1];
      assert rs == front + [last];
      StepAfter(front, last, v);
      InRunsSnoc(front, last, x);
      if v > last.hi {
        InRunsSnoc(rs, Run(v, v + 1), x);
      } else {
        InRunsSnoc(front, Run(last.lo, v + 1), x);
      }
    }
  }

  /** A step adds at most one run, and the last run then ends just after `v`. */
  lemma StepShape(rs: seq<Run>, v: int)
    ensures |rs| <= |Step(rs, v)| <= |rs| + 1
    ensures Step(rs, v)[|Step(rs, v)| - 1].hi == v + 1
  {
  }

  /** The walk builds at most one run per element, and its last run ends just after the last element. */
  lemma {:induction false} RunsOfShape(sv: seq<int>)
    ensures |RunsOf(sv)| <= |sv|
    ensures sv != [] ==> |RunsOf(sv)| > 0 && RunsOf(sv)[|RunsOf(sv)| - 1].hi == sv[|sv| - 1] + 1
    decreases |sv|
  {
    if sv != [] {
      var n := |sv| - 1;
      RunsOfShape(sv[..n]);
      StepShape(RunsOf(sv[..n]), sv[n]);
    }
  }

  /**
   * The walk over a strictly ascending sequence yields well-formed runs that
   * cover exactly its elements, never more runs than elements, and the last
   * run ends just after the last element.
   */
  lemma {:induction false} RunsOfCorrect(sv: seq<int>)
    requires StrictlySorted(sv, IntLess)
    ensures WellFormed(RunsOf(sv))
    ensures forall x :: InRuns(RunsOf(sv), x) <==> x in sv
    ensures |RunsOf(sv)| <= |sv|
    ensures sv != [] ==> |RunsOf(sv)| > 0 && RunsOf(sv)[|RunsOf(sv)| - 1].hi == sv[|sv| - 1] + 1
    decreases |sv|
  {
    RunsOfShape(sv);
    if sv != [] {
      var n := |sv| - 1;
      var init, v := sv[..n], sv[n];
      assert StrictlySorted(init, IntLess);
      RunsOfCorrect(init);
      var rs := RunsOf(init);
      assert RunsOf(sv) == Step(rs, v);
      if init != [] {
        assert IntLess(sv[n - 1], sv[n]);
      }
      StepWellFormed(rs, v);
      forall x ensures InRuns(RunsOf(sv), x) <==> x in sv {
        StepCovers(rs, v, x);
        assert x in sv <==> x in init || x == v by {
          assert sv == init + [v];
        }
      }
    }
  }

  /**
   * `rangeView`'s promise: the runs are non-empty, in ascending order with a
   * gap between neighbours, and the integers they cover are exactly the set.
   */
  lemma RunViewCorrect(s: set<int>)
    ensures WellFormed(RunView(s))
    ensures forall x :: InRuns(RunView(s), x) <==> x in s
    ensures |RunView(s)| <= |s|
  {
    RunsOfCorrect(SortedInts(s));
  }

  lemma InRunsTail(rs: seq<Run>, x: int)
    requires WellFormed(rs) && |rs| > 0
    ensures InRuns(rs[1..], x) <==> InRuns(rs, x) && !Contains(rs[0], x)
  {
    if InRuns(rs[1..], x) {
      var i :| 0 <= i < |rs| - 1 && Contains(rs[1..][i], x);
      assert rs[0].hi < rs[i + 1].lo;
    }
    if InRuns(rs, x) && !Contains(rs[0], x) {
      var i :| 0 <= i < |rs| && Contains(rs[i], x);
      assert rs[1..][i - 1] == rs[i];
    }
  }

  lemma FirstRunIsLowest(rs: seq<Run>, x: int)
    requires WellFormed(rs) && |rs| > 0 && InRuns(rs, x)
    ensures rs[0].lo <= x
  {
    var i :| 0 <= i < |rs| && Contains(rs[i], x);
    if i > 0 {
      assert rs[0].hi < rs[i].lo;
    }
  }

  /** The end of the first run is not covered: the run is maximal. */
  lemma FirstRunEndUncovered(rs: seq<Run>)
    requires WellFormed(rs) && |rs| > 0
    ensures !InRuns(rs, rs[0].hi)
  {
    forall i | 0 <= i < |rs| ensures !Contains(rs[i], rs[0].hi) {
      if i > 0 {
        assert rs[0].hi < rs[i].lo;
      }
    }
  }

  /** Well-formed runs are determined by the integers they cover: the range view is canonical. */
  lemma {:induction false} RunsCanonical(a: seq<Run>, b: seq<Run>)
    requires WellFormed(a) && WellFormed(b)
    requires forall x :: InRuns(a, x) <==> InRuns(b, x)
    ensures a == b
    decreases |a|
  {
    if a != [] {
      assert InRuns(a, a[0].lo);
    }
    if b != [] {
      assert InRuns(b, b[0].lo);
    }
    if a != [] && b != [] {
      FirstRunIsLowest(a, b[0].lo);
      FirstRunIsLowest(b, a[0].lo);
      FirstRunEndUncovered(a);
      FirstRunEndUncovered(b);
      assert !Contains(b[0], a[0].hi) && !Contains(a[0], b[0].hi);
      assert a[0] == b[0];
      forall x ensures InRuns(a[1..], x) <==> InRuns(b[1..], x) {
        InRunsTail(a, x);
        InRunsTail(b, x);
      }
      RunsCanonical(a[1..], b[1..]);
    }
  }

  /** The text of one run: "a" for a single integer, "a..b" with inclusive bounds otherwise. */
  function RunText(r: Run): (t: string)
    ensures |t| > 0
  {
    if r.lo == r.hi - 1 then IntToString(r.lo)
    else IntToString(r.lo) + ".." + IntToString(r.hi - 1)
  }

  function RunTexts(rs: seq<Run>): (ts: seq<string>)
    ensures |ts| == |rs|
    ensures forall i :: 0 <= i < |rs| ==> ts[i] == RunText(rs[i])
  {
    seq(|rs|, i requires 0 <= i < |rs| => RunText(rs[i]))
  }

  const DEFAULT_RANGE_LIMIT := 16

  /**
   * `formattedDescription(limitRangesTo: limit)` on a set of integers: the
   * extremes as "<lowest> ≤ i ≤ <highest>" when there are more than `limit`
   * runs, and otherwise every run's text joined by ", ".
   */
  function FormattedInts(s: set<int>, limit: int): string
    requires s != {} || limit >= 0  // the source force-unwraps `lowest` on the first branch
  {
    IntLessIsOrder();
    var rv := RunView(s);
    if |rv| > limit then
      IntToString(Lowest(s, IntLess).value) + " ≤ i ≤ " + IntToString(Highest(s, IntLess).value)
    else
      Join(RunTexts(rv), ", ")
  }

  /** `Set<Int>.rangeView`: the sorted walk that closes a run whenever the next value leaves a gap. */
  method RangeView(s: set<int>) returns (ranges: seq<Run>)
    ensures ranges == RunView(s)
    ensures WellFormed(ranges)
    ensures forall x :: InRuns(ranges, x) <==> x in s
  {
    var sorted := SortedInts(s);
    ranges := [];
    var range: Option<Run> := None;
    for i := 0 to |sorted|
      invariant range.None? <==> i == 0
      invariant range.None? ==> ranges == []
      invariant RunsOf(sorted[..i]) == if range.Some? then ranges + [range.value] else ranges
    {
      var v := sorted[i];
      RunsOfPrefix(sorted, i);
      if range == None {
        range := Some(Run(v, v + 1));
      } else if v > range.value.hi {
        StepAfter(ranges, range.value, v);
        ranges := ranges + [range.value];
        range := Some(Run(v, v + 1));
      } else {
        StepAfter(ranges, range.value, v);
        range := Some(Run(range.value.lo, v + 1));
      }
    }
    if range != None {
      ranges := ranges + [range.value];
    }
    assert sorted[..|sorted|] == sorted;
    RunViewCorrect(s);
  }

  /** `Set<Int>.formattedDescription(limitRangesTo:)`, building the text run by run. */
  method FormattedDescription(s: set<int>, limit: int) returns (str: string)
    requires s != {} || limit >= 0
    ensures str == FormattedInts(s, limit)
  {
    str := "";
    var rv := RangeView(s);
    if |rv| > limit {
      IntLessIsOrder();
      str := IntToString(Lowest(s, IntLess).value) + " ≤ i ≤ " + IntToString(Highest(s, IntLess).value);
    } else {
      var texts := RunTexts(rv);
      for i := 0 to |rv|
        invariant str == Join(texts[..i], ", ")
        invariant str == "" <==> i == 0
      {
        JoinPrefix(texts, ", ", i);
        str := str + (if str == "" then "" else ", ");
        str := str + RunText(rv[i]);
      }
      assert texts[..|rv|] == texts;
    }
  }

  /** With a limit of at least the set's size the listing form is always used. */
  lemma FormattedIntsListsAll(s: set<int>, limit: int)
    requires limit >= |s|
    ensures FormattedInts(s, limit) == Join(RunTexts(RunView(s)), ", ")
  {
    RunViewCorrect(s);
  }

  /** With more runs than the limit, the text names the least and the greatest element and nothing else. */
  lemma FormattedIntsCollapses(s: set<int>, limit: int, lo: int, hi: int)
    requires |RunView(s)| > limit
    requires lo in s && hi in s && forall x :: x in s ==> lo <= x <= hi
    ensures FormattedInts(s, limit) == IntToString(lo) + " ≤ i ≤ " + IntToString(hi)
  {
    IntLessIsOrder();
    var l := Lowest(s, IntLess).value;
    var h := Highest(s, IntLess).value;
    assert l <= lo && lo <= l;
    assert h <= hi && hi <= h;
  }

  /** The text is empty exactly for the empty set. */
  lemma FormattedIntsEmpty(s: set<int>, limit: int)
    requires limit >= 0
    ensures FormattedInts(s, limit) == "" <==> s == {}
  {
    RunViewCorrect(s);
    var rv := RunView(s);
    if s != {} {
      var x :| x in s;
      assert InRuns(rv, x);
      if |rv| <= limit {
        JoinNonEmpty(RunTexts(rv), ", ");
      }
    }
  }

  /** Any well-formed runs covering exactly `s` are its range view. */
  lemma RunViewCharacterized(s: set<int>, rs: seq<Run>)
    requires WellFormed(rs)
    requires forall x :: InRuns(rs, x) <==> x in s
    ensures RunView(s) == rs
  {
    RunViewCorrect(s);
    RunsCanonical(RunView(s), rs);
  }

  /** {1,2,3,7,8,9} compacts to the runs [1..<4, 7..<10]. */
  lemma RangeViewExample(s: set<int>)
    requires s == {1, 2, 3, 7, 8, 9}
    ensures RunView(s) == [Run(1, 4), Run(7, 10)]
  {
    var expected := [Run(1, 4), Run(7, 10)];
    forall x ensures InRuns(expected, x) <==> x in s {
      if 1 <= x < 4 {
        assert Contains(expected[0], x);
      }
      if 7 <= x < 10 {
        assert Contains(expected[1], x);
      }
    }
    RunViewCharacterized(s, expected);
  }

  /** ... and is shown as "1..3, 7..9" under the default limit. */
  lemma FormattedIntsExample(s: set<int>)
    requires s == {1, 2, 3, 7, 8, 9}
    ensures FormattedInts(s, DEFAULT_RANGE_LIMIT) == "1..3, 7..9"
  {
    RangeViewExample(s);
    ExampleRunTexts();
    ExampleJoin();
  }

  lemma ExampleJoin()
    ensures Join(["1..3", "7..9"], ", ") == "1..3, 7..9"
  {
    var texts := ["1..3", "7..9"];
    assert texts[..1] == ["1..3"];
  }

  lemma ExampleRunTexts()
    ensures RunTexts([Run(1, 4), Run(7, 10)]) == ["1..3", "7..9"]
  {
    assert RunText(Run(1, 4)) == "1..3" by {
      assert IntToString(1) == "1" && IntToString(3) == "3";
    }
    assert RunText(Run(7, 10)) == "7..9" by {
      assert IntToString(7) == "7" && IntToString(9) == "9";
    }
  }

  /**
   * Any well-formed run list covering exactly `s` that fits the limit is what
   * the text lists: its runs' texts, in order, joined by ", ".
   */
  lemma FormattedIntsListing(s: set<int>, limit: int, rs: seq<Run>)
    requires WellFormed(rs) && (forall x :: InRuns(rs, x) <==> x in s)
    requires |rs| <= limit
    ensures FormattedInts(s, limit) == Join(RunTexts(rs), ", ")
  {
    RunViewCharacterized(s, rs);
  }
}
