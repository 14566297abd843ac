/**
 * The breakpoint resolver of Breaky.tsx: where the current window width falls in
 * the sorted breakpoints (`foundBreakpoint`), the label shown for it
 * (`currentBreakpoint`) and the row the selection marker sits on (`selected`).
 */
module Resolver {
  import opened Common
  import opened BreakpointTable
  import opened Sorting

  /**
   * `Array.prototype.findIndex` (ECMA-262, section 23.1.3.10): the first index
   * whose element satisfies `p`, or -1 when there is none.
   */
  function FindIndex<T>(s: seq<T>, p: T -> bool): (i: int)
    ensures -1 <= i < |s|
    ensures i >= 0 ==> p(s[i]) && forall k :: 0 <= k < i ==> !p(s[k])
    ensures i == -1 ==> forall k :: 0 <= k < |s| ==> !p(s[k])
  {
    if s == [] then -1
    else if p(s[0]) then 0
    else
      var r := FindIndex(s[1..], p);
      if r == -1 then -1 else r + 1
  }

  /**
   * `mappedBreakpoints[name] > width!`. A name missing from the table reads as
   * `undefined`, and a width not yet measured is `undefined` too; a comparison
   * with `undefined` is false.
   */
  predicate Exceeds(value: map<string, nat>, width: Option<nat>, name: string) {
    name in value && width.Some? && value[name] > width.value
  }

  /** `foundBreakpoint`: the first sorted breakpoint whose threshold is strictly above the width. */
  function Locate(sorted: seq<string>, value: map<string, nat>, width: Option<nat>): (i: int)
    ensures -1 <= i < |sorted|
    ensures width.None? ==> i == -1
    ensures Keyed(sorted, value) && width.Some? ==>
              (i >= 0 ==> value[sorted[i]] > width.value) &&
              (forall k :: 0 <= k < |sorted| && (i == -1 || k < i) ==> value[sorted[k]] <= width.value)
  {
    FindIndex(sorted, name => Exceeds(value, width, name))
  }

  /**
   * The position of the bucket a located index stands for: -1 below the first
   * threshold, the last position at or above the last one, and otherwise the
   * position just below the located index.
   */
  function Bucket(found: int, count: nat): (b: int)
    requires -1 <= found < count
    ensures -1 <= b < count
    ensures b == -1 <==> found == 0 || count == 0
    ensures found > 0 ==> b + 1 == found
  {
    if found == 0 then -1 else if found == -1 then count - 1 else found - 1
  }

  /** JavaScript's rendering of a possibly undefined string in a template literal. */
  function Show(s: Option<string>): string {
    if s.Some? then s.value else "undefined"
  }

  /**
   * `currentBreakpoint`, given the index `found` that `foundBreakpoint` located.
   * When the width is below the first sorted threshold the label is "< " followed
   * by that breakpoint's original threshold string. Otherwise it names the
   * breakpoint the width has reached: its threshold is at most the width and the
   * next one is above it. An unmeasured width reaches the last breakpoint. `None`
   * is the `undefined` read from an empty list.
   */
  function Label(spec: BreakpointSpec, sorted: seq<string>, value: map<string, nat>,
                 width: Option<nat>, found: int): (current: Option<string>)
    requires Keyed(sorted, value) && found == Locate(sorted, value, width)
    ensures current.None? <==> sorted == []
    ensures found == 0 <==> sorted != [] && width.Some? && width.value < value[sorted[0]]
    ensures found == 0 ==> current == Some("< " + Show(Lookup(spec, sorted[0])))
    ensures found != 0 && sorted != [] ==>
              var b := Bucket(found, |sorted|);
              0 <= b && current == Some(sorted[b]) &&
              (width.Some? ==> value[sorted[b]] <= width.value &&
                               (b + 1 < |sorted| ==> value[sorted[b + 1]] > width.value)) &&
              (width.None? ==> b == |sorted| - 1)
  {
    if found == 0 then Some("< " + Show(Lookup(spec, sorted[0])))
    else if found == -1 then (if sorted == [] then None else Some(sorted[|sorted| - 1]))
    else Some(sorted[found - 1])
  }

  /** `selected`: the position of the label in the sorted list, -1 when it is not there. */
  function Select(sorted: seq<string>, current: Option<string>): (i: int)
    ensures -1 <= i < |sorted|
    ensures i >= 0 ==> current == Some(sorted[i]) && forall k :: 0 <= k < i ==> sorted[k] != sorted[i]
    ensures i == -1 ==> forall k :: 0 <= k < |sorted| ==> current != Some(sorted[k])
  {
    FindIndex(sorted, name => current == Some(name))
  }

  /** The selection marker is drawn unless the width is below the first threshold. */
  predicate ShowsMarker(found: int) {
    found != 0
  }

  predicate Distinct(s: seq<string>) {
    forall i, j :: 0 <= i < j < |s| ==> s[i] != s[j]
  }

  /**
   * The width is below the first threshold exactly when it is below every
   * threshold: then, and only then, `foundBreakpoint` is 0.
   */
  lemma BelowFirstIff(sorted: seq<string>, value: map<string, nat>, width: Option<nat>)
    requires Sorted(sorted, value) && sorted != []
    ensures Locate(sorted, value, width) == 0 <==>
              width.Some? && forall k :: 0 <= k < |sorted| ==> width.value < value[sorted[k]]
  {
    var found := Locate(sorted, value, width);
    if width.Some? && width.value < value[sorted[0]] {
      assert Exceeds(value, width, sorted[0]);
    }
  }

  /**
   * The comparison is strict: when thresholds are strictly increasing, a width
   * equal to a threshold is labelled with that threshold's own name.
   */
  lemma ExactThresholdOwnBucket(spec: BreakpointSpec, sorted: seq<string>, value: map<string, nat>, k: nat)
    requires Keyed(sorted, value) && k < |sorted|
    requires forall i, j :: 0 <= i < j < |sorted| ==> value[sorted[i]] < value[sorted[j]]
    ensures var found := Locate(sorted, value, Some(value[sorted[k]]));
            found != 0 && Label(spec, sorted, value, Some(value[sorted[k]]), found) == Some(sorted[k])
  {
    var w := value[sorted[k]];
    var found := Locate(sorted, value, Some(w));
    if k + 1 < |sorted| {
      assert Exceeds(value, Some(w), sorted[k + 1]);
    }
  }

  /** For fixed thresholds the bucket never moves down as the width grows. */
  lemma BucketMonotone(sorted: seq<string>, value: map<string, nat>, w1: nat, w2: nat)
    requires Keyed(sorted, value) && w1 <= w2
    ensures Bucket(Locate(sorted, value, Some(w1)), |sorted|)
            <= Bucket(Locate(sorted, value, Some(w2)), |sorted|)
  {
    var f1, f2 := Locate(sorted, value, Some(w1)), Locate(sorted, value, Some(w2));
    if f2 >= 0 {
      assert Exceeds(value, Some(w1), sorted[f2]);
    }
  }

  /** Before the first measurement the width is undefined, which lands in the top bucket. */
  lemma UnmeasuredIsTopBucket(spec: BreakpointSpec, sorted: seq<string>, value: map<string, nat>)
    requires Keyed(sorted, value) && sorted != []
    ensures Locate(sorted, value, None) == -1
    ensures Label(spec, sorted, value, None, Locate(sorted, value, None)) == Some(sorted[|sorted| - 1])
  {
  }

  /**
   * Where the marker is drawn, it sits on the bucket's row: `selected` is the
   * bucket position. This needs the names to be distinct.
   */
  lemma SelectIsBucket(spec: BreakpointSpec, sorted: seq<string>, value: map<string, nat>,
                       width: Option<nat>, found: int)
    requires Keyed(sorted, value) && found == Locate(sorted, value, width)
    requires Distinct(sorted) && sorted != [] && ShowsMarker(found)
    ensures Select(sorted, Label(spec, sorted, value, width, found)) == Bucket(found, |sorted|)
  {
    var b := Bucket(found, |sorted|);
    var i := Select(sorted, Label(spec, sorted, value, width, found));
    assert Label(spec, sorted, value, width, found) == Some(sorted[b]);
    assert i != -1;
  }
}
