# Breaky: breakpoint resolution

Breaky is a React component that shows which responsive breakpoint the current
window width falls in. The developer hands it a `breakpoints` object such as
`{ sm: '640px', md: '768px', lg: '1024px', xl: '1280px' }`. From that object and
the window width the component derives five values, and this project models them:

- `mappedBreakpoints`: each threshold string read with JavaScript's `parseInt`
  ("1024px" becomes 1024).
- `sortedBreakpoints`: the names ordered by pixel value, with a stable
  `Array.prototype.sort`.
- `foundBreakpoint`: the first sorted name whose value is strictly above the width
  (`findIndex`, so -1 when none is).
- `currentBreakpoint`: the label. It is "< " followed by the smallest threshold
  string when the width is below every threshold. Otherwise it is the name of the
  breakpoint the width has reached: the one before `foundBreakpoint`, or the last
  one when `foundBreakpoint` is -1.
- `selected`: the position of the label among the sorted names. It is used to
  slide the selection marker over the expanded list.

Modules:

- `ParseInt` (parse_int.dfy): `parseInt` with no radix argument, following
  section 19.2.5 of ECMA-262. That covers decimal digits and the "0x" prefix.
- `BreakpointTable` (table.dfy): the spec as a list of (name, threshold) entries
  in `Object.keys` order. It also holds the name -> value table, written once as a
  function (`Normalise`) and once as the `forEach` loop (`MapBreakpoints`).
- `Sorting` (sorting.dfy): the comparator sort. `StableSort` is a functional
  insertion sort. It is proved to be a sorted, stable permutation, and the only
  one. `SortByThreshold` sorts an array in place and is proved equal to it.
- `Resolver` (resolver.dfy): `findIndex`, `foundBreakpoint`, `currentBreakpoint`
  and `selected` over the sorted names.
- `Breaky` (breaky.dfy): the whole derivation, `Resolved`, and the method
  `Resolve` that computes it. It also holds the end-to-end properties stated in
  terms of the spec.
- `Scenarios` (scenarios.dfy): the default breakpoints (`defaultProps`).
- `AppDemo` (app_demo.dfy): the eight breakpoints of the demo page.
- `Marker` (marker.dfy): the row the selection marker is drawn on (see Findings).

The window width is a parameter, `Option<nat>`. `None` stands for the
`undefined` width reported before the first measurement. JavaScript's
`undefined` is `None` throughout. A threshold string with no leading digits,
where `parseInt` gives NaN, makes the model refuse the spec with
`NotANumber(name)` (see Left out).

## Model

| member | source | states |
|---|---|---|
| ParseInt.DigitRun | src/components/Breaky.tsx:25 | the digits `parseInt` reads are the longest prefix of the string made of digits |
| ParseInt.Parse | src/components/Breaky.tsx:25 | a number is read only when the string starts with a digit, and always when it does and is not a "0x" literal |
| ParseInt.RoundTrip | src/components/Breaky.tsx:25 | reading a decimal numeral followed by a unit such as "px" gives back the number ("1024px" -> 1024) |
| ParseInt.HexPrefixWithoutDigits | src/components/Breaky.tsx:25 | "0xpx" reads as NaN, not 0, while "0x1Fpx" reads as 31 |
| BreakpointTable.Names | src/components/Breaky.tsx:21 | `Object.keys` lists the entries' names, entry k's name at position k |
| BreakpointTable.Lookup | src/components/Breaky.tsx:62 | reading the original threshold by name is defined exactly for listed names and gives that entry's threshold string |
| BreakpointTable.NormaliseErrorPersists | src/components/Breaky.tsx:19-30 | once some prefix of the spec is refused, the whole spec is refused with the same error |
| BreakpointTable.NormaliseRefusal | src/components/Breaky.tsx:19-30 | the table is built exactly when every threshold reads as a number; otherwise the error names the first entry that does not |
| BreakpointTable.NormaliseKeys | src/components/Breaky.tsx:19-30 | the table's keys are exactly the spec's names |
| BreakpointTable.NormaliseValues | src/components/Breaky.tsx:19-30 | with distinct names, each name maps to the number read from its own threshold |
| BreakpointTable.MapBreakpoints | src/components/Breaky.tsx:19-30 | the `forEach` loop builds the same table, or the same refusal, as `Normalise` |
| Sorting.Insert | src/components/Breaky.tsx:36-44 | one step of the comparator sort: the result names only keyed breakpoints; what it does to the order is stated by the InsertPermutes, InsertSorted and InsertGroups rows |
| Sorting.StableSort | src/components/Breaky.tsx:35-45 | the reference stable sort by pixel value: the result names only keyed breakpoints; that it is the comparator's stable sort is stated by the StableSortCorrect and StableSortIsTheStableSort rows |
| Sorting.InsertPermutes | src/components/Breaky.tsx:36-44 | inserting a name adds exactly that name |
| Sorting.InsertSorted | src/components/Breaky.tsx:36-44 | inserting into names ordered by value keeps them ordered |
| Sorting.InsertGroups | src/components/Breaky.tsx:36-44 | inserting puts the name after every name of equal value, so groups of equal value keep their order |
| Sorting.StableSortCorrect | src/components/Breaky.tsx:35-45 | the sorted names are a permutation of the input, ordered by value, and names of equal value keep their input order |
| Sorting.SameGroupsUnique | src/components/Breaky.tsx:35-45 | two value-ordered sequences with the same equal-value groups are equal |
| Sorting.StableSortIsTheStableSort | src/components/Breaky.tsx:35-45 | any value-ordered stable rearrangement of the names, whatever algorithm made it, is `StableSort`'s result |
| Sorting.StableSortIdempotent | src/components/Breaky.tsx:35-45 | names already in order are left as they are, so sorting twice is sorting once |
| Sorting.InsertNext | src/components/Breaky.tsx:36-44 | one pass of the in-place insertion moves element i into its place among the first i, leaving the rest of the array alone |
| Sorting.SortByThreshold | src/components/Breaky.tsx:35-45 | sorting the array in place leaves exactly `StableSort` of its old contents |
| Resolver.FindIndex | src/components/Breaky.tsx:51-53 | `findIndex` gives the first position satisfying the test, or -1 when no position does |
| Resolver.Locate | src/components/Breaky.tsx:50-54 | the found breakpoint's value is above the width, every earlier one is at most the width, and an unmeasured width gives -1 |
| Resolver.BelowFirstIff | src/components/Breaky.tsx:50-54 | for sorted names the found index is 0 exactly when the width is below every threshold |
| Resolver.BucketMonotone | src/components/Breaky.tsx:50-67 | a wider window never selects an earlier breakpoint |
| Resolver.Label | src/components/Breaky.tsx:60-68 | given the located index, the label is undefined only for an empty list; the index is 0 exactly when a measured width is below the first sorted threshold, and then the label quotes that breakpoint's threshold string; otherwise it names a breakpoint whose value is at most the width while the next one's is above it, the last one for an unmeasured width |
| Resolver.ExactThresholdOwnBucket | src/components/Breaky.tsx:52 | with distinct values, a width equal to a threshold selects that breakpoint, since the test is strictly greater |
| Resolver.UnmeasuredIsTopBucket | src/components/Breaky.tsx:52 | with an undefined width no comparison holds, so the label is the largest breakpoint |
| Resolver.Select | src/components/Breaky.tsx:73-77 | `selected` is the first sorted position holding the label, or -1 when none does |
| Resolver.SelectIsBucket | src/components/Breaky.tsx:73-77 | wherever the marker is drawn, `selected` is the bucket the label came from |
| Breaky.Resolved | src/components/Breaky.tsx:19-77 | the derivation succeeds exactly when every threshold reads as a number |
| Breaky.Resolve | src/components/Breaky.tsx:19-77 | the loop, sort and searches compute exactly `Resolved` |
| Breaky.DistinctPermutation | src/components/Breaky.tsx:36 | a rearrangement of distinct names is distinct |
| Breaky.ResolvedOrder | src/components/Breaky.tsx:35-45 | the sorted names are a permutation of the spec's names, distinct, ordered by value and stable |
| Breaky.SortedHoldsSpec | src/components/Breaky.tsx:35-45 | the sorted list has one name per entry, and a name is in it exactly when it is in the spec, with that entry's value |
| Breaky.ResolvedUndefined | src/components/Breaky.tsx:64-67 | the label is undefined exactly for an empty spec, and then `selected` is -1 |
| Breaky.ResolvedBelowFirst | src/components/Breaky.tsx:50-63 | the found index is 0, and the marker hidden, exactly when the spec is nonempty and the width is below every threshold |
| Breaky.ResolvedBelowFirstLabel | src/components/Breaky.tsx:61-63 | below the first threshold the label is "< " followed by the threshold string of a breakpoint with the smallest value |
| Breaky.ResolvedBucket | src/components/Breaky.tsx:60-77 | past the first threshold the marker is drawn, `selected` is the bucket, the label is its name, its value is at most the width and the next value is above it |
| Breaky.AscendingKeepsOrder | src/components/Breaky.tsx:35-45 | a spec listed in ascending order is sorted to its own order |
| Breaky.AscendingBucket | src/components/Breaky.tsx:50-77 | for an ascending spec and a width past the first threshold, `selected` is the entry whose threshold is at most the width while the next one's is above it |
| Scenarios.DefaultTable | src/components/Breaky.tsx:129-135 | the default breakpoints read as sm 640, md 768, lg 1024, xl 1280 |
| Scenarios.DefaultInOrder | src/components/Breaky.tsx:129-135 | the default breakpoints are already in ascending order |
| Scenarios.DefaultAt500 | src/components/Breaky.tsx:129-135 | at width 500 no marker is drawn and the label is "< 640px" |
| Scenarios.DefaultBucket | src/components/Breaky.tsx:129-135 | from width 640 up the label is sm below 768, md below 1024, lg below 1280 and xl from 1280 |
| Scenarios.DefaultAt640 | src/components/Breaky.tsx:129-135 | at exactly 640 the label is sm, the first row |
| Scenarios.DefaultAt700 | src/components/Breaky.tsx:129-135 | at width 700 the label is sm, the first row |
| Scenarios.DefaultAt2000 | src/components/Breaky.tsx:129-135 | above every threshold the found index is -1 and the label is xl, the last row |
| AppDemo.AppValid | src/App.tsx:15-24 | the demo's eight breakpoints have distinct names, read as numbers, and ascend |
| AppDemo.AppAt1920 | src/App.tsx:15-24 | on the demo page at width 1920 the label is full-hd, the sixth row |
| Marker.MarkerRow | src/components/Breaky.tsx:97 | the marker is moved down by `selected`, a position in the sorted list |
| Marker.ListedRow | src/components/Breaky.tsx:105 | the row of a name in the expanded list, which is in `Object.keys` order |
| Marker.MarkerOnWrongRow | src/components/Breaky.tsx:93-113 | for {md: 768px, sm: 640px} at width 700 the label is sm, but the marker is drawn on row 0, which lists md |
| Marker.ListedRowNamesLabel | src/components/Breaky.tsx:93-113 | wherever the marker is drawn, the listed row of the label is the row of the breakpoint the label names |
| Marker.RowsAgreeWhenAscending | src/components/Breaky.tsx:93-113 | for a spec listed in ascending order the marker row as written is the label's listed row |

## Left out

- ParseInt.Parse: leading whitespace and a leading sign, which `parseInt` accepts, read as NaN here. Thresholds are "NNNpx" strings and never start with either.
- BreakpointTable.Normalise: a threshold that reads as NaN refuses the spec with `NotANumber(name)`. The component would store NaN instead, and with NaN the comparator is inconsistent and the sort order is implementation-defined.
- Breaky.Resolved: an empty `breakpoints` object follows the code. The label is `undefined` (`None`), and the found index and `selected` are -1. The model does not treat it as a configuration error.
- Numbers are unbounded naturals: digits beyond the 2^53 precision of JavaScript numbers are not rounded.
- `Object.keys` lists integer-like keys ("2", "10") first, in numeric order. The model takes the entries in the order given and does not reorder such keys.
- Distinct names are assumed by the end-to-end lemmas (the keys of a JavaScript object are distinct). Normalise itself handles repeated names: the later entry wins.
- The window width comes from `useWindowSize`, which is not part of this model; it is a parameter here. `CurrentScreenIcon` is not part of this model.
- `useMemo` caching, the `expanded` toggle and the click handler, the `startingPosition` and `colorScheme` props, and the JSX markup, CSS classes and transitions are not modelled. The exceptions are the marker guard (line 93, `Resolver.ShowsMarker`), the marker's row (line 97, `Marker.MarkerRow`) and the order of the listed rows (line 105, `Marker.ListedRow`).

## Findings

| source | as written | input that shows it | evidently intended | confidence | as-written member | corrected member |
|---|---|---|---|---|---|---|
| src/components/Breaky.tsx:97 | the marker is moved down by `selected`, a position in the sorted names, over a list whose rows are in `Object.keys` order (line 105) | breakpoints {md: '768px', sm: '640px'} at width 700: the label is sm, the marker covers row 0, which lists md | the marker covers the row of the breakpoint the label names | not executed | Marker.MarkerOnWrongRow | Marker.ListedRowNamesLabel |
