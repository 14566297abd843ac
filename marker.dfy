/**
 * The row the selection marker slides to. The marker is moved down by `selected`
 * rows, but `selected` is a position in the sorted names while the rows of the
 * expanded list are the spec's own entries, in `Object.keys` order.
 */
module Marker {
  import opened Common
  import ParseInt
  import opened BreakpointTable
  import opened Sorting
  import opened Resolver
  import opened Breaky
  import opened Scenarios

  /** The row the marker is drawn on, as written: the `selected` index. */
  function MarkerRow(spec: BreakpointSpec, width: Option<nat>): (row: int)
    requires AllNumeric(spec)
    ensures -1 <= row < |spec|
  {
    SortedHoldsSpecLength(spec, width);
    Resolved(spec, width).value.selected
  }

  /** The row of the label among the listed entries: `findIndex` over `Object.keys(breakpoints)`. */
  function ListedRow(spec: BreakpointSpec, current: Option<string>): (row: int)
    ensures -1 <= row < |spec|
    ensures row >= 0 ==> current == Some(spec[row].name)
    ensures row == -1 ==> forall k :: 0 <= k < |spec| ==> current != Some(spec[k].name)
  {
    Select(Names(spec), current)
  }

  /** The sorted names are as many as the spec's entries. */
  lemma SortedHoldsSpecLength(spec: BreakpointSpec, width: Option<nat>)
    requires AllNumeric(spec)
    ensures Resolved(spec, width).Ok?
    ensures |Resolved(spec, width).value.sorted| == |spec|
  {
    NormaliseRefusal(spec);
    NormaliseKeys(spec);
    var value := Normalise(spec).value;
    StableSortCorrect(Names(spec), value);
    assert |multiset(StableSort(Names(spec), value))| == |multiset(Names(spec))|;
  }

  /** Two breakpoints listed from the larger to the smaller threshold. */
  const Descending: BreakpointSpec := [
    Breakpoint("md", "768px"),
    Breakpoint("sm", "640px")
  ]

  lemma DescendingParses(spec: BreakpointSpec)
    requires spec == Descending
    ensures ParseInt.Parse(spec[0].threshold) == Some(768)
    ensures ParseInt.Parse(spec[1].threshold) == Some(640)
  {
    assert spec[0].threshold == "768px";
    Parse768();
    assert spec[1].threshold == "640px";
    Parse640();
  }

  lemma DescendingTable(spec: BreakpointSpec)
    requires spec == Descending
    ensures Normalise(spec) == Ok(map["md" := 768, "sm" := 640])
    ensures DistinctNames(spec) && AllNumeric(spec)
  {
    DescendingParses(spec);
    assert spec[..0] == [];
    NormaliseStep(spec, 0, map[], 768);
    NormaliseStep(spec, 1, map["md" := 768], 640);
    assert spec[..2] == spec;
    DescendingValid(spec);
  }

  lemma DescendingValid(spec: BreakpointSpec)
    requires spec == Descending
    ensures DistinctNames(spec) && AllNumeric(spec)
  {
    assert DistinctNames(spec) by {
      assert spec[0].name == "md" && spec[1].name == "sm";
    }
    assert ParseInt.Parse(spec[0].threshold).Some? && ParseInt.Parse(spec[1].threshold).Some? by {
      DescendingParses(spec);
    }
  }

  lemma DescendingNames(spec: BreakpointSpec)
    requires spec == Descending
    ensures Names(spec) == ["md", "sm"]
  {
    assert Names(spec)[0] == "md" && Names(spec)[1] == "sm";
  }

  /** Sorting the two names by value swaps them. */
  lemma SwapSorted(value: map<string, nat>)
    requires value == map["md" := 768, "sm" := 640]
    ensures StableSort(["md", "sm"], value) == ["sm", "md"]
  {
    assert ["md", "sm"][..1] == ["md"] && ["md"][..0] == [];
    assert StableSort(["md"], value) == ["md"];
    assert StableSort(["md", "sm"], value) == Insert(["md"], "sm", value);
  }

  /** Sorting the descending spec swaps its two names. */
  lemma DescendingSorted(spec: BreakpointSpec, width: Option<nat>)
    requires spec == Descending
    ensures Resolved(spec, width).Ok?
    ensures Resolved(spec, width).value.sorted == ["sm", "md"]
  {
    DescendingTable(spec);
    assert Names(spec) == ["md", "sm"] by {
      DescendingNames(spec);
    }
    SwapSorted(Normalise(spec).value);
  }

  /** At width 700 the descending spec is past its first threshold, so the marker is drawn. */
  lemma DescendingShowsMarker(spec: BreakpointSpec)
    requires spec == Descending
    ensures Resolved(spec, Some(700)).Ok?
    ensures ShowsMarker(Resolved(spec, Some(700)).value.found)
  {
    DescendingTable(spec);
    DescendingParses(spec);
    assert Threshold(spec, 1) == 640;
    ResolvedBelowFirst(spec, Some(700));
  }

  /** At width 700 the descending spec's label is "sm", first in sorted order. */
  lemma DescendingAt700(spec: BreakpointSpec)
    requires spec == Descending
    ensures Resolved(spec, Some(700)).Ok?
    ensures Resolved(spec, Some(700)).value.current == Some("sm")
    ensures Resolved(spec, Some(700)).value.selected == 0
  {
    DescendingTable(spec);
    var res := Resolved(spec, Some(700)).value;
    assert ShowsMarker(res.found) by {
      DescendingShowsMarker(spec);
    }
    assert res.sorted == ["sm", "md"] by {
      DescendingSorted(spec, Some(700));
    }
    ResolvedBucket(spec, 700);
    assert Normalise(spec).value["md"] == 768;
  }

  /**
   * As written, at width 700 the label is "sm" and the marker is drawn on row 0,
   * which lists "md"; "sm" is listed on row 1.
   */
  lemma MarkerOnWrongRow(spec: BreakpointSpec)
    requires spec == Descending
    ensures Resolved(spec, Some(700)).Ok?
    ensures var res := Resolved(spec, Some(700)).value;
            res.current == Some("sm") && ShowsMarker(res.found) &&
            MarkerRow(spec, Some(700)) == 0 && spec[0].name == "md"
    ensures ListedRow(spec, Some("sm")) == 1
  {
    DescendingShowsMarker(spec);
    DescendingAt700(spec);
    DescendingNames(spec);
  }

  /**
   * The listed row of the label: wherever the marker is drawn, it is the row of
   * the entry the label names.
   */
  lemma ListedRowNamesLabel(spec: BreakpointSpec, width: Option<nat>)
    requires DistinctNames(spec) && AllNumeric(spec)
    ensures Resolved(spec, width).Ok?
    ensures var res := Resolved(spec, width).value;
            var row := ListedRow(spec, res.current);
            ShowsMarker(res.found) && spec != [] ==>
              0 <= row < |spec| && res.current == Some(spec[row].name)
  {
    ResolvedCovers(spec, width);
    var res := Resolved(spec, width).value;
    var value := Normalise(spec).value;
    if ShowsMarker(res.found) && spec != [] {
      var b := Bucket(res.found, |res.sorted|);
      assert res.current == Some(res.sorted[b]);
      assert InSpec(spec, res.sorted[b]);
      var k :| 0 <= k < |spec| && spec[k].name == res.sorted[b];
      assert ListedRow(spec, res.current) != -1;
    }
  }

  /** For a spec listed in ascending order the two rows agree. */
  lemma RowsAgreeWhenAscending(spec: BreakpointSpec, width: Option<nat>)
    requires DistinctNames(spec) && AllNumeric(spec)
    requires forall k :: 0 < k < |spec| ==> Threshold(spec, k - 1) <= Threshold(spec, k)
    ensures Resolved(spec, width).Ok?
    ensures MarkerRow(spec, width) == ListedRow(spec, Resolved(spec, width).value.current)
  {
    AscendingKeepsOrder(spec, width);
  }
}
