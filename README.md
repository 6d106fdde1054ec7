# MultiVar in Dafny

A model of `MultiVar.swift`. The file holds two pieces.

- A generic container, `MultiVar`, for one field whose value comes from several records that may disagree. It keeps:
  - an optional reference value;
  - the set of unique values (`values`);
  - the list of every added value, duplicates included (`originals`).

  From these it derives:
  - the counts;
  - the extremes;
  - the integer sum and average;
  - three texts: `valueString` (the single agreed value), `placeholderString` ("Multiple values: …") and `statsString`.
- The `Set` extensions the container builds on:
  - sorted `lowest`/`highest`;
  - `Set<Int>.sum`;
  - `Set<Int>.rangeView`, which compacts a set of integers into half-open runs of consecutive values;
  - the bounded `formattedDescription`, which has two forms:
    - for integers: the runs, or `lowest ≤ i ≤ highest` when there are too many runs;
    - for strings, doubles and enums: the sorted elements quoted, cut off with `" ... '<highest>'"`.

Modules, leaf first:

- `Wrappers` (`wrappers.dfy`): `Option`.
- `Ordering` (`ordering.dfy`): the element orders.
  - A strict total order is a parameter `lt`.
  - `Sorted` is Swift's `sorted()`; `Lowest`/`Highest` are its first and last elements.
  - `IntLess` is the order on integers. `StringLess` is the code-point lexicographic order on strings.
- `Text` (`text.dfy`): decimal rendering of integers (with a parser used to state round trips), `Join` with a separator, and single-quoting.
- `SeqSets` (`seq_sets.dfy`): the set of a list's elements, duplicate-free lists, and cardinality facts.
- `RangeView` (`range_view.dfy`): `Set<Int>.rangeView` and the integer `formattedDescription`.
  - Each is a method that follows the Swift loop.
  - Each is proved equal to a specification function.
- `Sums` (`sums.dfy`): `reduce(0, +)` over lists and sets, and the truncated average.
- `Truncation` (`truncation.dfy`): the list-and-truncate `formattedDescription`.
  - The source has three copies, for String, Double and RawRepresentable enums. It is modelled once, over an ordered element type with a `render` function.
- `MultiVars` (`multivar.dfy`): the `MultiVar` class with its fields, initialisers, `add`s and element-generic members.
- `MultiVarExtensions` (`extensions.dfy`): the type-specific extensions.
  - Int: `sum`, `lowest`/`highest`, `valueString`, `placeholderString` and `statsString`.
  - String and enum: `placeholderString` and `statsString`, through a `Clause` datatype that records which statistics clause is chosen.
- `Scenarios` (`scenarios.dfy`): concrete containers, with the exact figures and texts they produce.

## Model

| member | source | states |
|---|---|---|
| Ordering.Lowest | MultiVar.swift:26 | absent exactly for the empty set; otherwise a member of the set that is below every other member |
| Ordering.Highest | MultiVar.swift:27 | absent exactly for the empty set; otherwise a member of the set that is above every other member |
| Ordering.SortedCorrect | MultiVar.swift:26-27 | `sorted()` holds exactly the set's elements, in strictly ascending order |
| Ordering.SortedUnique | MultiVar.swift:26-27 | two strictly ascending lists with the same elements are equal, so the sorted order of a set is unique |
| Ordering.StringLessIsOrder | MultiVar.swift:112 | the string order `sorted()` uses is a strict total order |
| Text.ParseIntToString | MultiVar.swift:85 | the decimal text of an integer reads back as that integer |
| RangeView.RangeView | MultiVar.swift:42-76 | the loop's runs equal the specification `RunView(s)`; they are non-empty, strictly separated by gaps, and cover exactly the set |
| RangeView.RunsOfCorrect | MultiVar.swift:46-70 | folding the ascending walk over any strictly ascending list gives well-formed runs covering exactly that list, no more runs than values, the last run ending just past the last value |
| RangeView.RunViewCorrect | MultiVar.swift:42-76 | the range view of any set is well-formed, covers exactly the set, and has at most `|s|` runs (so the empty set gives `[]`) |
| RangeView.RunsCanonical | MultiVar.swift:42-76 | two well-formed run lists covering the same integers are equal: the range view is the unique such list |
| RangeView.RunViewCharacterized | MultiVar.swift:42-76 | any well-formed run list covering exactly `s` is `s`'s range view |
| RangeView.RangeViewExample | MultiVar.swift:42-76 | `{1,2,3,7,8,9}` compacts to `[1..<4, 7..<10]` |
| RangeView.FormattedDescription | MultiVar.swift:80-103 | the text the loop builds equals the specification `FormattedInts(s, limit)`; the set must be non-empty or the limit non-negative |
| RangeView.FormattedIntsCollapses | MultiVar.swift:83-86 | with more runs than the limit the text is exactly `"<least> ≤ i ≤ <greatest>"` for the set's least and greatest elements |
| RangeView.FormattedIntsListsAll | MultiVar.swift:87-101 | with a limit at least the set's size, the text is every run's text in order, joined by ", " |
| RangeView.FormattedIntsListing | MultiVar.swift:87-101 | for any well-formed run list covering exactly the set and no longer than the limit, the text is those runs' texts, in order, joined by ", " |
| RangeView.RunText | MultiVar.swift:91-98 | a run's text is never empty (a single value "a", otherwise "a..b" with inclusive bounds) |
| RangeView.FormattedIntsEmpty | MultiVar.swift:80-103 | with a non-negative limit the text is "" exactly for the empty set |
| RangeView.FormattedIntsExample | MultiVar.swift:79-103 | `{1,2,3,7,8,9}` is shown as `"1..3, 7..9"` under the default limit 16 |
| Sums.SetSumInsert | MultiVar.swift:33 | inserting a new integer adds it to `Set<Int>.sum`; inserting a present one leaves the sum unchanged |
| Sums.SetSumOfDistinct | MultiVar.swift:33 | a set's sum equals the sum of any duplicate-free list of its elements |
| Sums.SeqSumPermutation | MultiVar.swift:264 | the order of the added entries does not change `reduce(0, +)` |
| Sums.SeqSumAppend | MultiVar.swift:264 | the sum of a concatenation is the sum of the parts |
| Sums.AverageInRange | MultiVar.swift:281 | the truncated average of a non-empty list lies between any bounds of its entries |
| Truncation.FormattedDescription | MultiVar.swift:110-130 | the text the loop builds (with its early `break`) equals the specification `Truncated(s, lt, render, limit)` for every limit; the set must be non-empty (the Double and enum copies at lines 142-162 and 169-189 differ only in `render`) |
| Truncation.TruncatedFits | MultiVar.swift:110-130 | a set within the limit is shown completely: every element quoted, ascending, joined by ", ", with no " ... " marker |
| Truncation.TruncatedCut | MultiVar.swift:110-130 | a set beyond a limit of at least 2 is shown as its first `limit - 1` elements, then " ... " and the quoted highest element; the highest is not among the listed ones, so `limit` elements are shown and the highest exactly once |
| Truncation.TextQuotesShown | MultiVar.swift:114-127 | the text quotes exactly the shown elements in order: joined by ", ", and when the set exceeds the limit the last one follows " ... " |
| Truncation.ShownProperties | MultiVar.swift:110-130 | with a limit of at least 2 the shown elements are strictly ascending, all from the set, `min(|s|, limit)` many, end with the highest, and show it once |
| Truncation.SmallLimitRepeatsHighest | MultiVar.swift:118-127 | with a limit below 2, a set larger than the limit lists every element and then shows the highest a second time |
| MultiVars.MultiVar.constructor | MultiVar.swift:216-219 | a new container keeps the given reference value and holds no values |
| MultiVars.MultiVar.WithValues | MultiVar.swift:221-226 | a container built from a list holds that list in order and its set of elements; the reference value is kept; unique count at most the list's length |
| MultiVars.MultiVar.Add | MultiVar.swift:228-232 | the value is appended to `originals` once and inserted into `values`; `addCount` grows by 1, `uniqueCount` by 1 exactly when the value is new; the reference value is unchanged; `values` stays the set of `originals` |
| MultiVars.MultiVar.AddAll | MultiVar.swift:234-240 | the list is appended in order and its elements inserted; `addCount` grows by the list's length and `uniqueCount` by at most that; `uniqueCount <= addCount`; the reference value is unchanged |
| MultiVars.MultiVar.HasMultipleValues | MultiVar.swift:209 | true exactly when two different values were added |
| MultiVars.MultiVar.Lowest | MultiVar.swift:258 | absent exactly when nothing was added; otherwise an added entry below every other added entry |
| MultiVars.MultiVar.Highest | MultiVar.swift:259 | absent exactly when nothing was added; otherwise an added entry above every other added entry |
| MultiVars.UniqueAtMostAdded | MultiVar.swift:212-213 | `uniqueCount <= addCount`, and one is 0 exactly when the other is |
| MultiVarExtensions.SumWithoutDuplicates | MultiVar.swift:264 | when nothing was added twice, the container's sum equals `Set<Int>.sum` of its values |
| MultiVarExtensions.IntLowest | MultiVar.swift:258 | for integers: absent exactly for an empty container; otherwise a value at most every value |
| MultiVarExtensions.IntHighest | MultiVar.swift:259 | for integers: absent exactly for an empty container; otherwise a value at least every value |
| MultiVarExtensions.IntValueStringShowsReference | MultiVar.swift:267-270 | the integer `valueString` is non-empty exactly when a reference is present and at most one unique value was added, and then it parses back to the reference value |
| MultiVarExtensions.IntPlaceholder | MultiVar.swift:272-275 | the placeholder is absent exactly when at most one unique value was added |
| MultiVarExtensions.IntPlaceholderListsRuns | MultiVar.swift:272-275 | with disagreeing entries, any well-formed list of at most 16 runs covering exactly the unique values gives the placeholder "Multiple values: " followed by those runs' texts in order |
| MultiVarExtensions.AverageBetweenExtremes | MultiVar.swift:281 | the printed average of a non-empty container lies between its lowest and highest value |
| MultiVarExtensions.IntStatistics | MultiVar.swift:277-287 | the statistics always report the sum and both counts, and report an average and a range exactly when values were added, with lowest <= average <= highest and every value within the range |
| MultiVarExtensions.ClauseOfCorrect | MultiVar.swift:302-320 | the statistics clause (string and enum alike) is none for no values, the only value for one, exactly the two values (ascending) for two, and the extremes (with every value strictly between them) for more |
| MultiVarExtensions.LowestBelowHighest | MultiVar.swift:316 | in a set of two or more the lowest is strictly below the highest |
| MultiVarExtensions.LabelPlaceholder | MultiVar.swift:297-300 | the string (and, identically, enum) placeholder is absent exactly when at most one unique value was added |
| MultiVarExtensions.LabelPlaceholderListsAll | MultiVar.swift:297-300 | with 2 to `limit` unique values the placeholder quotes each of them, ascending |
| MultiVarExtensions.LabelPlaceholderCut | MultiVar.swift:297-300 | beyond a limit of at least 2 the placeholder ends with " ... " and the quoted highest value |
| MultiVarExtensions.StringStatsString | MultiVar.swift:302-320 | the text the if-chain builds is the totals line followed by the wording of the chosen clause |
| MultiVarExtensions.EnumStatsString | MultiVar.swift:363-381 | the same for enums, with their own wording and values shown by raw value |
| MultiVars.MultiVar.AddCount | MultiVar.swift:212 | definition: `addCount` is the number of entries in `originals` |
| MultiVars.MultiVar.UniqueCount | MultiVar.swift:213 | definition: `uniqueCount` is the number of unique `values` |
| MultiVars.MultiVar.HasReferenceValue | MultiVar.swift:208 | definition: a reference value is present |
| MultiVars.MultiVar.ValueString | MultiVar.swift:292-295 | definition: the rendered reference value when one is present and at most one unique value was added, otherwise ""; `render` is the identity for strings and the raw value for enums (353-356) |
| MultiVarExtensions.Sum | MultiVar.swift:264 | definition: `MultiVar<Int>.sum` is the sum of every entry in `originals`, duplicates included |
| MultiVarExtensions.IntValueString | MultiVar.swift:267-270 | definition: `ValueString` with integers shown in decimal; its properties are `IntValueStringShowsReference` |
| MultiVarExtensions.IntStatsText | MultiVar.swift:277-287 | definition: the two statistics texts, "Sum is", the totals line, and, when values were added, the average and the range |
| MultiVarExtensions.IntStatsString | MultiVar.swift:277-287 | definition: `statsString` is the text of the container's `IntStatistics` |
| MultiVarExtensions.ClauseOf | MultiVar.swift:306-317 | definition: the clause chosen by the number of unique values, holding `lowest` and `highest`; its properties are `ClauseOfCorrect` |
| MultiVarExtensions.StringClauseText | MultiVar.swift:306-317 | definition: the string wording of each clause, values quoted |
| MultiVarExtensions.EnumClauseText | MultiVar.swift:367-378 | definition: the enum wording of each clause, values by raw value |
| Sums.SeqSum | MultiVar.swift:264 | definition: `reduce(0, +)` over a list; its properties are `SeqSumAppend` and `SeqSumPermutation` |
| Sums.SetSum | MultiVar.swift:33 | definition: `Set<Int>.sum`, the sum of the set's elements in ascending order; its properties are `SetSumOfDistinct` and `SetSumInsert` |
| Sums.Average | MultiVar.swift:265 | definition: the sum divided by the number of entries, truncated toward zero as `Int(...)` does at line 281; 0 for no entries; its property is `AverageInRange` |
| RangeView.RunView | MultiVar.swift:42-76 | definition: the runs of the set's ascending elements; its properties are `RunViewCorrect` and `RunsCanonical` |
| RangeView.FormattedInts | MultiVar.swift:80-103 | definition: `lowest ≤ i ≤ highest` when there are more runs than the limit, otherwise the runs' texts joined by ", " |
| Truncation.Truncated | MultiVar.swift:110-130 | definition: the text of the set's sorted elements, listed up to `ListedCount` and cut with " ... " and the last; its properties are `TruncatedFits`, `TruncatedCut` and `TextQuotesShown` |
| Scenarios.IntScenario | MultiVar.swift:221-275 | adding 1, 2, 2, 3, 7, 8, 9 gives sum 32 (`Set<Int>.sum` 30), 7 entries, 6 unique, and the placeholder "Multiple values: 1..3, 7..9" |
| Scenarios.IntStatsScenario | MultiVar.swift:277-282 | the same container reports sum 32, counts 7 and 6, average 4, range 1 to 9 |
| Scenarios.EmptyIntScenario | MultiVar.swift:267-287 | a container with reference 5 and no entries shows "5", has no placeholder, and reports only sum 0 and counts 0 |
| Scenarios.StringScenario | MultiVar.swift:290-320 | adding "b", "a", "c", "a" gives 4 entries, 3 unique, the range clause 'a' to 'c', and the placeholder quoting 'a', 'b', 'c' |
| Scenarios.EmptyReferenceScenario | MultiVar.swift:292-295 | a string reference value "" gives an empty `valueString` although a reference is present and the entries agree |
| Scenarios.EnumScenario | MultiVar.swift:363-381 | adding High, Low, High to an enum container chooses the two-values clause, Low before High |

## Left out

- Floating point: `Set<Double>.sum`/`average` (lines 137-138) and the `MultiVar<Double>` extension (323-349) are not modelled. Neither is how a Double is rendered as text. The Double `formattedDescription` (142-162) is covered by the generic truncation model with a caller-supplied `render` only for sets without NaN whose element equality identifies 0.0 and -0.0 (see the next line).
- Double sets: the truncation model needs a strict total order and Dafny's reflexive `==`. Swift's `Double` has neither. NaN is unordered with every value, so `sorted()` (144) gives an order no strict total order produces. `NaN != NaN`, so a `Set<Double>` can hold several NaNs. `0.0 == -0.0`, so Swift keeps one of them where a representation that tells them apart keeps two. None of these cases is modelled.
- `Set<Int>.average` (line 34) is a Double and is not modelled.
- `MultiVar<Int>.average` (265) divides Doubles, and `statsString` then truncates the result with `Int(...)`. `Sums.Average` models this as integer division truncating toward zero. This agrees with the source only while the sum and the count are exactly representable as Doubles.
- Integer width: `int` is unbounded. The source's `Int` sum may overflow (the TODO at 33), and `v...v` traps at `Int.max` (51, 60). Neither is modelled.
- Sums.SeqSum, Sums.SetSum: they are the mathematical sums and never overflow, unlike Swift's `Int` addition.
- The debug `description` override (247-253) and the `NSObject` inheritance are not modelled. The text depends on Swift's unspecified set print order.
- Swift's `String` equality, hashing and comparison follow Unicode canonical equivalence: "é" (U+00E9) and "e" followed by U+0301 are one `Set<String>` element. Dafny strings are compared character by character, so the model keeps such strings apart. This changes `values`, `uniqueCount`, `hasMultipleValues`, the string placeholder and the statistics clause for containers holding differently encoded equivalent strings. `Ordering.StringLess` also orders code points lexicographically rather than by Swift's Unicode-aware `<`.
- An enum is modelled as any type with a strict total order and a `raw` function giving its raw value's text. The source's `Comparable`/`RawRepresentable` dispatch is not modelled.
- The parameterless `formattedDescription` wrappers (79, 109, 141, 168) are represented only by the constants `DEFAULT_RANGE_LIMIT` (16) and `DEFAULT_LABEL_LIMIT` (4). The Double default (16, line 141) has no constant, as no Double instance is modelled.
- The string `statsString` is modelled generically over the element type, with `render` the identity for strings. This keeps the string order's quantifiers out of the proof.
- Crash paths are preconditions instead of traps:
  - the empty set in the truncating formatter (`retStr!`, 129/161/188);
  - an empty set with a negative limit in the integer formatter (`lowest!`, 85).

Behaviour worth noting:

- Truncation shows `limit - 1` elements, then " ... " and the last, so `limit` elements in all (`Truncation.TruncatedCut`).
  - With a limit below 2 the break never fires. Every element is listed and the highest is repeated after the marker (`Truncation.SmallLimitRepeatsHighest`).
- For integers, `valueString` is non-empty exactly when a reference is present and the entries agree (`MultiVarExtensions.IntValueStringShowsReference`). A string reference "" (or an enum whose raw value is "") gives "" even then (`Scenarios.EmptyReferenceScenario`).
