/**
 * The Breaky component's derived values, chained as in Breaky.tsx: the table of
 * pixel values, the sorted names, the located index, the label and the selected
 * row, for a given `breakpoints` prop and window width.
 */
module Breaky {
  import opened Common
  import ParseInt
  import opened BreakpointTable
  import opened Sorting
  import opened Resolver

  /** Everything the component derives from its props and the window width. */
  datatype Resolution = Resolution(
    sorted: seq<string>,    // sortedBreakpoints
    found: int,             // foundBreakpoint
    current: Option<string>,// currentBreakpoint (None: undefined)
    selected: int           // selected
  )

  /** The derived values as one function of the props and the width. */
  function Resolved(spec: BreakpointSpec, width: Option<nat>): (r: Result<Resolution, SpecError>)
    ensures r.Ok? <==> AllNumeric(spec)
  {
    NormaliseRefusal(spec);
    match Normalise(spec)
    case Err(e) => Err(e)
    case Ok(value) =>
      NormaliseKeys(spec);
      var sorted := StableSort(Names(spec), value);
      var found := Locate(sorted, value, width);
      var current := Label(spec, sorted, value, width, found);
      Ok(Resolution(sorted, found, current, Select(sorted, current)))
  }

  /**
   * One render of the component: the table is built by the `forEach` loop and the
   * names are sorted in place, then the index, label and selection are derived.
   */
  method Resolve(spec: BreakpointSpec, width: Option<nat>) returns (r: Result<Resolution, SpecError>)
    ensures r == Resolved(spec, width)
  {
    var mapped := MapBreakpoints(spec);
    if mapped.Err? {
      return Err(mapped.error);
    }
    var value := mapped.value;
    NormaliseKeys(spec);
    var names := Names(spec);
    var a := new string[|names|](k requires 0 <= k < |names| => names[k]);
    assert a[..] == names;
    SortByThreshold(a, value);
    var sorted := a[..];
    var found := Locate(sorted, value, width);
    var current := Label(spec, sorted, value, width, found);
    var selected := Select(sorted, current);
    return Ok(Resolution(sorted, found, current, selected));
  }

  /** Two names that are equal in a sequence show up twice in its multiset. */
  lemma RepeatedName(s: seq<string>, i: nat, j: nat)
    requires i < j < |s| && s[i] == s[j]
    ensures multiset(s)[s[i]] >= 2
  {
    assert s == s[..j] + s[j..];
    assert s[i] in s[..j];
    assert s[j] in s[j..];
  }

  /** Distinct names occur at most once each. */
  lemma {:induction false} DistinctOnce(s: seq<string>, x: string)
    requires Distinct(s)
    ensures multiset(s)[x] <= 1
  {
    if s != [] {
      DistinctOnce(s[1..], x);
      assert s == [s[0]] + s[1..];
      if s[0] == x {
        assert x !in s[1..];
      }
    }
  }

  lemma DistinctPermutation(s: seq<string>, r: seq<string>)
    requires Distinct(s) && multiset(r) == multiset(s)
    ensures Distinct(r)
  {
    forall i, j | 0 <= i < j < |r| ensures r[i] != r[j] {
      if r[i] == r[j] {
        RepeatedName(r, i, j);
        DistinctOnce(s, r[i]);
      }
    }
  }

  /** The parsed threshold of the `k`-th entry. */
  function Threshold(spec: BreakpointSpec, k: nat): nat
    requires AllNumeric(spec) && k < |spec|
  {
    ParseInt.Parse(spec[k].threshold).value
  }

  /**
   * The sorted names are a permutation of the spec's names, ordered by pixel
   * value, with equal values in their original order; and they are distinct.
   */
  lemma {:induction false} ResolvedOrder(spec: BreakpointSpec, width: Option<nat>)
    requires DistinctNames(spec) && AllNumeric(spec)
    ensures Resolved(spec, width).Ok?
    ensures var res := Resolved(spec, width).value;
            var value := Normalise(spec).value;
            multiset(res.sorted) == multiset(Names(spec)) && Distinct(res.sorted) &&
            Sorted(res.sorted, value) && SameGroups(Names(spec), res.sorted, value)
  {
    NormaliseRefusal(spec);
    NormaliseKeys(spec);
    var value := Normalise(spec).value;
    var res := Resolved(spec, width).value;
    StableSortCorrect(Names(spec), value);
    DistinctPermutation(Names(spec), res.sorted);
  }

  /** A permutation has the same length and the same members. */
  lemma PermutationMembers(s: seq<string>, r: seq<string>)
    requires multiset(r) == multiset(s)
    ensures |r| == |s|
    ensures forall k :: 0 <= k < |s| ==> s[k] in r
    ensures forall i :: 0 <= i < |r| ==> r[i] in s
  {
    assert |multiset(r)| == |multiset(s)|;
    forall k | 0 <= k < |s| ensures s[k] in r {
      assert s[k] in multiset(s);
    }
    forall i | 0 <= i < |r| ensures r[i] in s {
      assert r[i] in multiset(r);
    }
  }

  /** Every name of the spec is in the sorted list, with its parsed threshold as its value. */
  lemma SortedHoldsSpec(spec: BreakpointSpec, width: Option<nat>)
    requires DistinctNames(spec) && AllNumeric(spec)
    ensures Resolved(spec, width).Ok?
    ensures var res := Resolved(spec, width).value;
            |res.sorted| == |spec| && Covers(spec, res.sorted, Normalise(spec).value)
  {
    NormaliseRefusal(spec);
    var res := Resolved(spec, width).value;
    var value := Normalise(spec).value;
    assert multiset(res.sorted) == multiset(Names(spec)) && Keyed(res.sorted, value) by {
      ResolvedOrder(spec, width);
    }
    assert forall k :: 0 <= k < |spec| ==> spec[k].name in value && value[spec[k].name] == Threshold(spec, k) by {
      NormaliseValues(spec);
    }
    PermutationCovers(spec, Names(spec), res.sorted, value);
  }

  /** A permutation of the spec's names, keyed by their parsed thresholds, covers the spec. */
  lemma PermutationCovers(spec: BreakpointSpec, names: seq<string>, sorted: seq<string>, value: map<string, nat>)
    requires AllNumeric(spec) && Keyed(sorted, value)
    requires |names| == |spec| && forall k :: 0 <= k < |spec| ==> names[k] == spec[k].name
    requires forall k :: 0 <= k < |spec| ==> spec[k].name in value && value[spec[k].name] == Threshold(spec, k)
    requires multiset(sorted) == multiset(names)
    ensures |sorted| == |spec| && Covers(spec, sorted, value)
  {
    PermutationMembers(names, sorted);
    forall i | 0 <= i < |sorted| ensures InSpec(spec, sorted[i]) {
      var k :| 0 <= k < |names| && names[k] == sorted[i];
      assert spec[k].name == sorted[i];
    }
  }

  /**
   * A spec already listed in ascending order of threshold is its own sorted
   * order, and each name keeps its own parsed threshold.
   */
  lemma AscendingKeepsOrder(spec: BreakpointSpec, width: Option<nat>)
    requires DistinctNames(spec) && AllNumeric(spec)
    requires forall k :: 0 < k < |spec| ==> Threshold(spec, k - 1) <= Threshold(spec, k)
    ensures Resolved(spec, width).Ok?
    ensures Resolved(spec, width).value.sorted == Names(spec)
    ensures forall k :: 0 <= k < |spec| ==>
              spec[k].name in Normalise(spec).value && Normalise(spec).value[spec[k].name] == Threshold(spec, k)
  {
    NormaliseRefusal(spec);
    AscendingNamesSorted(spec);
    StableSortIdempotent(Names(spec), Normalise(spec).value);
  }

  /** The names of a spec listed in ascending order are sorted by their table values. */
  lemma AscendingNamesSorted(spec: BreakpointSpec)
    requires DistinctNames(spec) && AllNumeric(spec)
    requires forall k :: 0 < k < |spec| ==> Threshold(spec, k - 1) <= Threshold(spec, k)
    ensures Normalise(spec).Ok?
    ensures forall k :: 0 <= k < |spec| ==>
              spec[k].name in Normalise(spec).value && Normalise(spec).value[spec[k].name] == Threshold(spec, k)
    ensures Sorted(Names(spec), Normalise(spec).value)
  {
    NormaliseRefusal(spec);
    NormaliseValues(spec);
    AscendingSortedBy(spec, Names(spec), Normalise(spec).value);
  }

  /** `AscendingNamesSorted` for any table that maps each name to its entry's threshold. */
  lemma AscendingSortedBy(spec: BreakpointSpec, names: seq<string>, value: map<string, nat>)
    requires AllNumeric(spec)
    requires forall k :: 0 < k < |spec| ==> Threshold(spec, k - 1) <= Threshold(spec, k)
    requires |names| == |spec| && forall k :: 0 <= k < |spec| ==> names[k] == spec[k].name
    requires forall k :: 0 <= k < |spec| ==> spec[k].name in value && value[spec[k].name] == Threshold(spec, k)
    ensures Sorted(names, value)
  {
    forall i, j | 0 <= i < j < |names| ensures value[names[i]] <= value[names[j]] {
      ThresholdChain(spec, i, j);
    }
  }

  /**
   * For a spec listed in ascending order and a width at or above its first
   * threshold, the label is the name of the entry whose threshold is at most the
   * width while the next entry's is above it, and the marker sits on that entry.
   */
  lemma AscendingBucket(spec: BreakpointSpec, w: nat)
    requires DistinctNames(spec) && AllNumeric(spec) && spec != []
    requires forall k :: 0 < k < |spec| ==> Threshold(spec, k - 1) <= Threshold(spec, k)
    requires Threshold(spec, 0) <= w
    ensures Resolved(spec, Some(w)).Ok?
    ensures var res := Resolved(spec, Some(w)).value;
            res.found != 0 && 0 <= res.selected < |spec| &&
            res.current == Some(spec[res.selected].name) &&
            Threshold(spec, res.selected) <= w &&
            (res.selected + 1 < |spec| ==> Threshold(spec, res.selected + 1) > w)
  {
    var res := Resolved(spec, Some(w)).value;
    assert res.found != 0 by {
      ResolvedBelowFirst(spec, Some(w));
    }
    AscendingKeepsOrder(spec, Some(w));
    ResolvedBucket(spec, w);
  }

  /** Thresholds that never decrease from one entry to the next never decrease at all. */
  lemma {:induction false} ThresholdChain(spec: BreakpointSpec, i: nat, j: nat)
    requires AllNumeric(spec) && i <= j < |spec|
    requires forall k :: 0 < k < |spec| ==> Threshold(spec, k - 1) <= Threshold(spec, k)
    ensures Threshold(spec, i) <= Threshold(spec, j)
    decreases j - i
  {
    if i < j {
      ThresholdChain(spec, i, j - 1);
    }
  }

  /** The label is undefined exactly when there are no breakpoints. */
  lemma ResolvedUndefined(spec: BreakpointSpec, width: Option<nat>)
    requires DistinctNames(spec) && AllNumeric(spec)
    ensures Resolved(spec, width).Ok?
    ensures Resolved(spec, width).value.current.None? <==> spec == []
    ensures spec == [] ==> Resolved(spec, width).value.selected == -1
  {
    SortedHoldsSpec(spec, width);
  }

  /**
   * `foundBreakpoint` is 0, and the "<" label is shown, exactly when the width is
   * below every threshold of the spec.
   */
  lemma ResolvedBelowFirst(spec: BreakpointSpec, width: Option<nat>)
    requires DistinctNames(spec) && AllNumeric(spec)
    ensures Resolved(spec, width).Ok?
    ensures Resolved(spec, width).value.found == 0 <==>
              spec != [] && width.Some? &&
              forall k :: 0 <= k < |spec| ==> width.value < Threshold(spec, k)
  {
    ResolvedCovers(spec, width);
    if spec != [] {
      var res := Resolved(spec, width).value;
      BelowFirstCovered(spec, res.sorted, Normalise(spec).value, width);
    }
  }

  /** The sorted names, their table and the located index, as the lemmas above describe them. */
  lemma ResolvedCovers(spec: BreakpointSpec, width: Option<nat>)
    requires DistinctNames(spec) && AllNumeric(spec)
    ensures Resolved(spec, width).Ok? && Normalise(spec).Ok?
    ensures var res := Resolved(spec, width).value;
            var value := Normalise(spec).value;
            res.found == Locate(res.sorted, value, width) && Sorted(res.sorted, value) &&
            (res.sorted == [] <==> spec == []) && Covers(spec, res.sorted, value)
  {
    NormaliseRefusal(spec);
    ResolvedOrder(spec, width);
    SortedHoldsSpec(spec, width);
  }

  /** `BelowFirstIff`, restated over the thresholds of a spec that `sorted` covers. */
  lemma BelowFirstCovered(spec: BreakpointSpec, sorted: seq<string>, value: map<string, nat>, width: Option<nat>)
    requires AllNumeric(spec) && Sorted(sorted, value) && sorted != [] && Covers(spec, sorted, value)
    ensures Locate(sorted, value, width) == 0 <==>
              width.Some? && forall k :: 0 <= k < |spec| ==> width.value < Threshold(spec, k)
  {
    BelowFirstIff(sorted, value, width);
    if width.Some? {
      BelowAllSame(spec, sorted, value, width.value);
    }
  }

  /**
   * `sorted` holds exactly the names of the spec, and `value` maps each to its
   * parsed threshold.
   */
  predicate Covers(spec: BreakpointSpec, sorted: seq<string>, value: map<string, nat>)
    requires AllNumeric(spec)
  {
    Keyed(sorted, value) &&
    (forall k :: 0 <= k < |spec| ==>
       spec[k].name in sorted && spec[k].name in value && value[spec[k].name] == Threshold(spec, k)) &&
    (forall i :: 0 <= i < |sorted| ==> InSpec(spec, sorted[i]))
  }

  /** `name` is the name of some entry of the spec. */
  predicate InSpec(spec: BreakpointSpec, name: string) {
    exists k :: 0 <= k < |spec| && spec[k].name == name
  }

  /** Being below every sorted value is being below every threshold of the spec. */
  lemma BelowAllSame(spec: BreakpointSpec, sorted: seq<string>, value: map<string, nat>, w: nat)
    requires AllNumeric(spec) && Covers(spec, sorted, value)
    ensures (forall i :: 0 <= i < |sorted| ==> w < value[sorted[i]]) <==>
            (forall k :: 0 <= k < |spec| ==> w < Threshold(spec, k))
  {
    if forall i :: 0 <= i < |sorted| ==> w < value[sorted[i]] {
      forall k | 0 <= k < |spec| ensures w < Threshold(spec, k) {
        assert spec[k].name in sorted;
        var i :| 0 <= i < |sorted| && sorted[i] == spec[k].name;
      }
    }
    if forall k :: 0 <= k < |spec| ==> w < Threshold(spec, k) {
      forall i | 0 <= i < |sorted| ensures w < value[sorted[i]] {
        var k :| 0 <= k < |spec| && spec[k].name == sorted[i];
      }
    }
  }

  /**
   * Below the first threshold the label is "< " and the original threshold string
   * (unit included) of a breakpoint with the smallest threshold, the first sorted one.
   */
  lemma ResolvedBelowFirstLabel(spec: BreakpointSpec, width: Option<nat>)
    requires DistinctNames(spec) && AllNumeric(spec)
    ensures Resolved(spec, width).Ok?
    ensures var res := Resolved(spec, width).value;
            res.found == 0 ==>
              exists k :: 0 <= k < |spec| && spec[k].name == res.sorted[0] &&
                res.current == Some("< " + spec[k].threshold) &&
                forall i :: 0 <= i < |spec| ==> Threshold(spec, k) <= Threshold(spec, i)
  {
    SortedHoldsSpec(spec, width);
    ResolvedOrder(spec, width);
    var res := Resolved(spec, width).value;
    var value := Normalise(spec).value;
    if res.found == 0 {
      var k :| 0 <= k < |spec| && spec[k].name == res.sorted[0];
      forall i | 0 <= i < |spec| ensures Threshold(spec, k) <= Threshold(spec, i) {
        FirstIsLeast(res.sorted, value, spec[i].name);
      }
      assert Lookup(spec, res.sorted[0]) == Some(spec[k].threshold);
    }
  }

  /**
   * Otherwise the label names the bucket's breakpoint (threshold at most the width,
   * the next one above it) and the marker sits on that breakpoint's row.
   */
  lemma ResolvedBucket(spec: BreakpointSpec, w: nat)
    requires DistinctNames(spec) && AllNumeric(spec) && spec != []
    ensures Resolved(spec, Some(w)).Ok?
    ensures var res := Resolved(spec, Some(w)).value;
            var value := Normalise(spec).value;
            res.found != 0 ==>
              ShowsMarker(res.found) && 0 <= res.selected == Bucket(res.found, |res.sorted|) &&
              res.current == Some(res.sorted[res.selected]) &&
              value[res.sorted[res.selected]] <= w &&
              (res.selected + 1 < |res.sorted| ==> value[res.sorted[res.selected + 1]] > w)
  {
    SortedHoldsSpec(spec, Some(w));
    ResolvedOrder(spec, Some(w));
    var res := Resolved(spec, Some(w)).value;
    var value := Normalise(spec).value;
    if res.found != 0 {
      SelectIsBucket(spec, res.sorted, value, Some(w), res.found);
    }
  }
}
