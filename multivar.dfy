/**
 * The `MultiVar` container: the values a user gave one field across a
 * multi-selection, kept both as the list of every added value (`originals`)
 * and as the set of unique ones (`values`), beside an optional reference
 * value to show when there is no disagreement.
 */
module MultiVars {
  import opened Wrappers
  import opened Ordering
  import opened SeqSets

  class MultiVar<T(==,!new)> {
    var values: set<T>
    var originals: seq<T>
    var referenceValue: Option<T>

    /** `values` is exactly the set of everything ever added. */
    ghost predicate Valid()
      reads this
    {
      values == Elements(originals)
    }

    /** `init(withReferenceValue:)`: an empty container. */
    constructor (referenceValue: Option<T>)
      ensures Valid()
      ensures this.referenceValue == referenceValue
      ensures originals == [] && values == {}
    {
      this.referenceValue := referenceValue;
      values := {};
      originals := [];
    }

    /** `init(withReferenceValue:andValues:)`: a container filled with `newValues` in order. */
    constructor WithValues(referenceValue: Option<T>, newValues: seq<T>)
      ensures Valid()
      ensures this.referenceValue == referenceValue
      ensures originals == newValues && values == Elements(newValues)
      ensures UniqueCount() <= AddCount() == |newValues|
    {
      this.referenceValue := referenceValue;
      values := {};
      originals := [];
      new;
      AddAll(newValues);
    }

    /** `addCount`: entries added, duplicates included. */
    function AddCount(): nat
      reads this
    {
      |originals|
    }

    /** `uniqueCount`: distinct entries added. */
    function UniqueCount(): nat
      reads this
    {
      |values|
    }

    /** `hasReferenceValue`. */
    predicate HasReferenceValue()
      reads this
    {
      referenceValue.Some?
    }

    /** `hasMultipleValues`: the entries disagree. */
    predicate HasMultipleValues()
      reads this
      ensures HasMultipleValues() <==> exists x, y :: x in values && y in values && x != y
    {
      TwoDistinct(values);
      |values| > 1
    }

    /** `add(_:)` for one value: appended to the list, inserted into the set. */
    method Add(newValue: T)
      requires Valid()
      modifies this
      ensures Valid()
      ensures originals == old(originals) + [newValue]
      ensures values == old(values) + {newValue}
      ensures referenceValue == old(referenceValue)
      ensures AddCount() == old(AddCount()) + 1
      ensures UniqueCount() == old(UniqueCount()) + (if newValue in old(values) then 0 else 1)
    {
      ElementsSnoc(originals, newValue);
      if newValue in values {
        assert values + {newValue} == values;
      }
      values := values + {newValue};
      originals := originals + [newValue];
    }

    /** `add(_:)` for a list: each value added in turn. */
    method AddAll(newValues: seq<T>)
      requires Valid()
      modifies this
      ensures Valid()
      ensures originals == old(originals) + newValues
      ensures values == old(values) + Elements(newValues)
      ensures referenceValue == old(referenceValue)
      ensures AddCount() == old(AddCount()) + |newValues|
      ensures old(UniqueCount()) <= UniqueCount() <= old(UniqueCount()) + |newValues|
      ensures UniqueCount() <= AddCount()
    {
      for i := 0 to |newValues|
        invariant Valid()
        invariant originals == old(originals) + newValues[..i]
        invariant values == old(values) + Elements(newValues[..i])
        invariant referenceValue == old(referenceValue)
      {
        assert newValues[..i + 1] == newValues[..i] + [newValues[i]];
        ElementsSnoc(newValues[..i], newValues[i]);
        Add(newValues[i]);
      }
      assert newValues[..|newValues|] == newValues;
      UnionGrowth(old(values), newValues);
      ElementsBounded(originals);
    }

    /** `lowest`: the least entry ever added, absent for an empty container. */
    function Lowest(lt: (T, T) -> bool): (r: Option<T>)
      reads this
      requires Valid() && IsStrictTotalOrder(lt)
      ensures r.None? <==> originals == []
      ensures r.Some? ==> r.value in originals && forall x :: x in originals ==> x == r.value || lt(r.value, x)
    {
      assert originals != [] ==> originals[0] in values;
      Ordering.Lowest(values, lt)
    }

    /** `highest`: the greatest entry ever added, absent for an empty container. */
    function Highest(lt: (T, T) -> bool): (r: Option<T>)
      reads this
      requires Valid() && IsStrictTotalOrder(lt)
      ensures r.None? <==> originals == []
      ensures r.Some? ==> r.value in originals && forall x :: x in originals ==> x == r.value || lt(x, r.value)
    {
      assert originals != [] ==> originals[0] in values;
      Ordering.Highest(values, lt)
    }

    /**
     * `valueString`: the reference value's text (`render` is the element's
     * own text, or `rawValue` for an enum) when there is a reference and the
     * entries agree, else "".
     */
    function ValueString(render: T -> string): string
      reads this
    {
      if HasReferenceValue() && !HasMultipleValues() then render(referenceValue.value) else ""
    }
  }

  /** Adding the elements of a list to a set grows it by at most the list's length. */
  lemma UnionGrowth<T>(s: set<T>, xs: seq<T>)
    ensures |s| <= |s + Elements(xs)| <= |s| + |xs|
  {
    SubsetCardinality(s, s + Elements(xs));
    ElementsBounded(xs);
  }

  /** A valid container has no more unique values than entries, and none exactly when it has no entries. */
  lemma UniqueAtMostAdded<T(!new)>(m: MultiVar<T>)
    requires m.Valid()
    ensures m.UniqueCount() <= m.AddCount()
    ensures m.UniqueCount() == 0 <==> m.AddCount() == 0
  {
    ElementsBounded(m.originals);
    if m.originals != [] {
      assert m.originals[0] in m.values;
    }
  }
}
