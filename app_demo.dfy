/**
 * The demo page mounts the component with eight breakpoints, listed in
 * ascending order. Concrete resolutions against that spec.
 */
module AppDemo {
  import opened Common
  import ParseInt
  import opened BreakpointTable
  import opened Resolver
  import opened Breaky
  import opened Scenarios

  const AppSpec: BreakpointSpec := [
    Breakpoint("xs", "320px"),
    Breakpoint("sm", "640px"),
    Breakpoint("md", "768px"),
    Breakpoint("lg", "1024px"),
    Breakpoint("xl", "1280px"),
    Breakpoint("full-hd", "1920px"),
    Breakpoint("2k", "2048px"),
    Breakpoint("4k", "3840px")
  ]

  /** The pixel values of `AppSpec`, entry by entry. */
  const AppPixels: seq<nat> := [320, 640, 768, 1024, 1280, 1920, 2048, 3840]

  lemma Parse320() ensures ParseInt.Parse("320px") == Some(320) {
    assert ParseInt.Decimal(3) == "3" && ParseInt.Decimal(32) == "32" && ParseInt.Decimal(320) == "320";
    ParseInt.RoundTrip(320, "px");
    assert "320" + "px" == "320px";
  }

  lemma Parse1920() ensures ParseInt.Parse("1920px") == Some(1920) {
    assert ParseInt.Decimal(1) == "1" && ParseInt.Decimal(19) == "19" && ParseInt.Decimal(192) == "192" && ParseInt.Decimal(1920) == "1920";
    ParseInt.RoundTrip(1920, "px");
    assert "1920" + "px" == "1920px";
  }

  lemma Parse2048() ensures ParseInt.Parse("2048px") == Some(2048) {
    assert ParseInt.Decimal(2) == "2" && ParseInt.Decimal(20) == "20" && ParseInt.Decimal(204) == "204" && ParseInt.Decimal(2048) == "2048";
    ParseInt.RoundTrip(2048, "px");
    assert "2048" + "px" == "2048px";
  }

  lemma Parse3840() ensures ParseInt.Parse("3840px") == Some(3840) {
    assert ParseInt.Decimal(3) == "3" && ParseInt.Decimal(38) == "38" && ParseInt.Decimal(384) == "384" && ParseInt.Decimal(3840) == "3840";
    ParseInt.RoundTrip(3840, "px");
    assert "3840" + "px" == "3840px";
  }

  /** Entry `k` of the demo spec parses to its pixel value. */
  lemma AppParses(spec: BreakpointSpec, k: nat)
    requires spec == AppSpec && k < |spec|
    ensures ParseInt.Parse(spec[k].threshold) == Some(AppPixels[k])
  {
    if k == 0 { assert spec[0].threshold == "320px"; Parse320(); }
    else if k == 1 { assert spec[1].threshold == "640px"; Parse640(); }
    else if k == 2 { assert spec[2].threshold == "768px"; Parse768(); }
    else if k == 3 { assert spec[3].threshold == "1024px"; Parse1024(); }
    else if k == 4 { assert spec[4].threshold == "1280px"; Parse1280(); }
    else if k == 5 { assert spec[5].threshold == "1920px"; Parse1920(); }
    else if k == 6 { assert spec[6].threshold == "2048px"; Parse2048(); }
    else { assert spec[7].threshold == "3840px"; Parse3840(); }
  }

  /** The names of the demo spec are distinct. */
  lemma AppDistinct(spec: BreakpointSpec)
    requires spec == AppSpec
    ensures DistinctNames(spec)
  {
  }

  /** The demo spec is accepted and its thresholds are the pixel values of `AppPixels`. */
  lemma AppThresholds(spec: BreakpointSpec)
    requires spec == AppSpec
    ensures AllNumeric(spec) && |spec| == |AppPixels|
    ensures forall k :: 0 <= k < |spec| ==> Threshold(spec, k) == AppPixels[k]
  {
    forall k | 0 <= k < |spec| ensures ParseInt.Parse(spec[k].threshold) == Some(AppPixels[k]) {
      AppParses(spec, k);
    }
  }

  /** The demo spec is accepted, its names are distinct and its thresholds ascend. */
  lemma AppValid(spec: BreakpointSpec)
    requires spec == AppSpec
    ensures DistinctNames(spec) && AllNumeric(spec)
    ensures forall k :: 0 <= k < |spec| ==> Threshold(spec, k) == AppPixels[k]
    ensures forall k :: 0 < k < |spec| ==> Threshold(spec, k - 1) <= Threshold(spec, k)
  {
    AppDistinct(spec);
    AppThresholds(spec);
    AppPixelsAscend();
  }

  lemma AppPixelsAscend()
    ensures forall k :: 0 < k < |AppPixels| ==> AppPixels[k - 1] <= AppPixels[k]
  {
    forall k | 0 < k < |AppPixels| ensures AppPixels[k - 1] <= AppPixels[k] {
      if k == 1 {} else if k == 2 {} else if k == 3 {}
      else if k == 4 {} else if k == 5 {} else if k == 6 {} else {}
    }
  }

  /** The only demo bucket whose threshold is at most `w` while the next one exceeds it. */
  lemma AppBucketAt(b: int, w: nat)
    requires 0 <= b < |AppPixels| && AppPixels[b] <= w
    requires b + 1 < |AppPixels| ==> AppPixels[b + 1] > w
    ensures 1920 <= w < 2048 ==> b == 5
  {
    if b == 0 {} else if b == 1 {} else if b == 2 {} else if b == 3 {}
    else if b == 4 {} else if b == 5 {} else if b == 6 {} else {}
  }

  /** At a full-HD width of 1920 pixels the demo shows "full-hd", the sixth row. */
  lemma AppAt1920(spec: BreakpointSpec)
    requires spec == AppSpec
    ensures Resolved(spec, Some(1920)).Ok?
    ensures Resolved(spec, Some(1920)).value.current == Some("full-hd")
    ensures Resolved(spec, Some(1920)).value.selected == 5
  {
    AppValid(spec);
    AscendingBucket(spec, 1920);
    var b := Resolved(spec, Some(1920)).value.selected;
    AppBucketAt(b, 1920);
    assert spec[5].name == "full-hd";
  }
}
