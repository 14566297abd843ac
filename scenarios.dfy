module Scenarios {
  import opened Common
  import ParseInt
  import opened BreakpointTable
  import opened Sorting
  import opened Resolver
  import opened Breaky

  /**
   * The `defaultProps` breakpoints. The lemmas about concrete specs here and in
   * the demo and marker modules take the spec as a parameter fixed by `requires
   * spec == DefaultSpec`, so that the constant is unfolded only where a proof asks
   * for one of its entries.
   */
  const DefaultSpec: BreakpointSpec := [
    Breakpoint("sm", "640px"),
    Breakpoint("md", "768px"),
    Breakpoint("lg", "1024px"),
    Breakpoint("xl", "1280px")
  ]

  lemma Parse640() ensures ParseInt.Parse("640px") == Some(640) {
    assert ParseInt.Decimal(6) == "6" && ParseInt.Decimal(64) == "64" && ParseInt.Decimal(640) == "640";
    ParseInt.RoundTrip(640, "px");
    assert "640" + "px" == "640px";
  }

  lemma Parse768() ensures ParseInt.Parse("768px") == Some(768) {
    assert ParseInt.Decimal(7) == "7" && ParseInt.Decimal(76) == "76" && ParseInt.Decimal(768) == "768";
    ParseInt.RoundTrip(768, "px");
    assert "768" + "px" == "768px";
  }

  lemma Parse1024() ensures ParseInt.Parse("1024px") == Some(1024) {
    assert ParseInt.Decimal(1) == "1" && ParseInt.Decimal(10) == "10" && ParseInt.Decimal(102) == "102" && ParseInt.Decimal(1024) == "1024";
    ParseInt.RoundTrip(1024, "px");
    assert "1024" + "px" == "1024px";
  }

  lemma Parse1280() ensures ParseInt.Parse("1280px") == Some(1280) {
    assert ParseInt.Decimal(1) == "1" && ParseInt.Decimal(12) == "12" && ParseInt.Decimal(128) == "128" && ParseInt.Decimal(1280) == "1280";
    ParseInt.RoundTrip(1280, "px");
    assert "1280" + "px" == "1280px";
  }

  /** One turn of the table-building loop. */
  lemma NormaliseStep(spec: BreakpointSpec, n: nat, m: map<string, nat>, v: nat)
    requires n < |spec| && Normalise(spec[..n]) == Ok(m)
    requires ParseInt.Parse(spec[n].threshold) == Some(v)
    ensures Normalise(spec[..n + 1]) == Ok(m[spec[n].name := v])
  {
    assert spec[..n + 1][..n] == spec[..n];
  }

  /** The first two turns of the table-building loop over the default spec. */
  lemma DefaultTableHalf(spec: BreakpointSpec)
    requires spec == DefaultSpec
    ensures Normalise(spec[..2]) == Ok(map["sm" := 640, "md" := 768])
  {
    assert Normalise(spec[..1]) == Ok(map["sm" := 640]) by {
      assert spec[..0] == [] && spec[0] == Breakpoint("sm", "640px");
      Parse640();
      NormaliseStep(spec, 0, map[], 640);
    }
    assert spec[1] == Breakpoint("md", "768px");
    Parse768();
    NormaliseStep(spec, 1, map["sm" := 640], 768);
  }

  lemma DefaultTable(spec: BreakpointSpec)
    requires spec == DefaultSpec
    ensures Normalise(spec) == Ok(map["sm" := 640, "md" := 768, "lg" := 1024, "xl" := 1280])
  {
    DefaultTableHalf(spec);
    assert Normalise(spec[..3]) == Ok(map["sm" := 640, "md" := 768, "lg" := 1024]) by {
      assert spec[2] == Breakpoint("lg", "1024px");
      Parse1024();
      NormaliseStep(spec, 2, map["sm" := 640, "md" := 768], 1024);
    }
    assert spec[3] == Breakpoint("xl", "1280px");
    Parse1280();
    NormaliseStep(spec, 3, map["sm" := 640, "md" := 768, "lg" := 1024], 1280);
    assert spec[..4] == spec;
  }

  const DefaultNames: seq<string> := ["sm", "md", "lg", "xl"]
  const DefaultValues: map<string, nat> := map["sm" := 640, "md" := 768, "lg" := 1024, "xl" := 1280]

  /** For a spec already listed in ascending order, the sorted names are its own order. */
  lemma ResolvedInOrder(spec: BreakpointSpec, width: Option<nat>, value: map<string, nat>)
    requires Normalise(spec) == Ok(value) && Sorted(Names(spec), value)
    ensures Resolved(spec, width).Ok?
    ensures var res := Resolved(spec, width).value;
            res.sorted == Names(spec) && res.found == Locate(Names(spec), value, width) &&
            res.current == Label(spec, Names(spec), value, width, res.found) &&
            res.selected == Select(Names(spec), res.current)
  {
    NormaliseRefusal(spec);
    StableSortIdempotent(Names(spec), value);
  }

  lemma DefaultNamesInOrder(spec: BreakpointSpec)
    requires spec == DefaultSpec
    ensures Names(spec) == DefaultNames
    ensures Sorted(Names(spec), DefaultValues)
  {
    assert Names(spec) == DefaultNames;
    var v := DefaultValues;
    assert v["sm"] == 640 && v["md"] == 768 && v["lg"] == 1024 && v["xl"] == 1280;
    forall i, j | 0 <= i < j < |DefaultNames| ensures v[DefaultNames[i]] <= v[DefaultNames[j]] {
      if i == 0 {} else if i == 1 {} else {}
    }
  }

  lemma DefaultInOrder(spec: BreakpointSpec, width: Option<nat>)
    requires spec == DefaultSpec
    ensures Resolved(spec, width).Ok?
    ensures Normalise(spec) == Ok(DefaultValues)
    ensures Resolved(spec, width).value.sorted == DefaultNames
  {
    DefaultTable(spec);
    DefaultNamesInOrder(spec);
    ResolvedInOrder(spec, width, DefaultValues);
  }

  lemma DefaultDistinct(spec: BreakpointSpec)
    requires spec == DefaultSpec
    ensures DistinctNames(spec)
  {
  }

  /** The default spec is accepted, its names are distinct and its thresholds are 640, 768, 1024 and 1280. */
  lemma DefaultThresholds(spec: BreakpointSpec)
    requires spec == DefaultSpec
    ensures DistinctNames(spec) && AllNumeric(spec)
    ensures Threshold(spec, 0) == 640 && Threshold(spec, 1) == 768
    ensures Threshold(spec, 2) == 1024 && Threshold(spec, 3) == 1280
  {
    DefaultDistinct(spec);
    assert spec[0].threshold == "640px"; Parse640();
    assert spec[1].threshold == "768px"; Parse768();
    assert spec[2].threshold == "1024px"; Parse1024();
    assert spec[3].threshold == "1280px"; Parse1280();
    forall k | 0 <= k < |spec| ensures ParseInt.Parse(spec[k].threshold).Some? {
      if k == 0 {} else if k == 1 {} else if k == 2 {} else {}
    }
  }

  /** Every default threshold is at least 640. */
  lemma DefaultSmallest(spec: BreakpointSpec, w: nat)
    requires spec == DefaultSpec && w < 640
    ensures DistinctNames(spec) && AllNumeric(spec)
    ensures forall k :: 0 <= k < |spec| ==> w < Threshold(spec, k)
  {
    DefaultThresholds(spec);
    forall k | 0 <= k < |spec| ensures w < Threshold(spec, k) {
      if k == 0 {} else if k == 1 {} else if k == 2 {} else {}
    }
  }

  /** The original threshold string of "sm", as the label quotes it. */
  lemma DefaultSmThreshold(spec: BreakpointSpec)
    requires spec == DefaultSpec
    ensures Lookup(spec, "sm") == Some("640px")
  {
    assert spec[0].name == "sm";
    DefaultDistinct(spec);
  }

  /** Width 500 is below "sm": the label quotes the smallest threshold and no marker is drawn. */
  lemma DefaultAt500(spec: BreakpointSpec)
    requires spec == DefaultSpec
    ensures Resolved(spec, Some(500)).Ok?
    ensures Resolved(spec, Some(500)).value.found == 0
    ensures Resolved(spec, Some(500)).value.current == Some("< 640px")
  {
    DefaultSmallest(spec, 500);
    DefaultInOrder(spec, Some(500));
    ResolvedBelowFirst(spec, Some(500));
    DefaultSmThreshold(spec);
    BelowSmText();
  }

  /** The text the label shows below "sm". */
  lemma BelowSmText()
    ensures "< " + "640px" == "< 640px"
  {
  }

  /** The only default bucket whose threshold is at most `w` while the next one exceeds it. */
  lemma DefaultBucketAt(b: int, w: nat)
    requires 0 <= b < |DefaultNames| && DefaultValues[DefaultNames[b]] <= w
    requires b + 1 < |DefaultNames| ==> DefaultValues[DefaultNames[b + 1]] > w
    ensures w < 768 ==> b == 0
    ensures 768 <= w < 1024 ==> b == 1
    ensures 1024 <= w < 1280 ==> b == 2
    ensures 1280 <= w ==> b == 3
  {
    var v := DefaultValues;
    assert v["sm"] == 640 && v["md"] == 768 && v["lg"] == 1024 && v["xl"] == 1280;
    if b == 0 {} else if b == 1 {} else if b == 2 {} else {}
  }

  /** A width of at least 640 is past the first bucket boundary, so a breakpoint is selected. */
  lemma DefaultBucket(spec: BreakpointSpec, w: nat)
    requires spec == DefaultSpec && 640 <= w
    ensures Resolved(spec, Some(w)).Ok?
    ensures var res := Resolved(spec, Some(w)).value;
            res.found != 0 && res.sorted == DefaultNames && 0 <= res.selected < |DefaultNames| &&
            res.current == Some(DefaultNames[res.selected]) &&
            (w < 768 ==> res.selected == 0) && (768 <= w < 1024 ==> res.selected == 1) &&
            (1024 <= w < 1280 ==> res.selected == 2) && (1280 <= w ==> res.selected == 3)
  {
    DefaultThresholds(spec);
    var res := Resolved(spec, Some(w)).value;
    assert res.found != 0 by {
      DefaultThresholds(spec);
      ResolvedBelowFirst(spec, Some(w));
    }
    assert res.sorted == DefaultNames && Normalise(spec).value == DefaultValues by {
      DefaultInOrder(spec, Some(w));
    }
    ResolvedBucket(spec, w);
    DefaultBucketAt(res.selected, w);
  }

  /** Width 640 equals the "sm" threshold, which is not above it: the label is "sm". */
  lemma DefaultAt640(spec: BreakpointSpec)
    requires spec == DefaultSpec
    ensures Resolved(spec, Some(640)).Ok?
    ensures Resolved(spec, Some(640)).value.current == Some("sm")
    ensures Resolved(spec, Some(640)).value.selected == 0
  {
    DefaultBucket(spec, 640);
  }

  /** Width 700 lies between "sm" and "md": the label is "sm". */
  lemma DefaultAt700(spec: BreakpointSpec)
    requires spec == DefaultSpec
    ensures Resolved(spec, Some(700)).Ok?
    ensures Resolved(spec, Some(700)).value.current == Some("sm")
    ensures Resolved(spec, Some(700)).value.selected == 0
  {
    DefaultBucket(spec, 700);
  }

  /** Width 2000 is above every threshold: the top bucket "xl", found index -1. */
  lemma DefaultAt2000(spec: BreakpointSpec)
    requires spec == DefaultSpec
    ensures Resolved(spec, Some(2000)).Ok?
    ensures Resolved(spec, Some(2000)).value.found == -1
    ensures Resolved(spec, Some(2000)).value.current == Some("xl")
    ensures Resolved(spec, Some(2000)).value.selected == 3
  {
    DefaultBucket(spec, 2000);
    var res := Resolved(spec, Some(2000)).value;
    assert res.found == -1 by {
      DefaultThresholds(spec);
      ResolvedBucket(spec, 2000);
    }
  }
}
