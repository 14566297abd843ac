/**
 * The breakpoint table: the developer's name -> "NNNpx" mapping and its
 * conversion to name -> pixel value (`mappedBreakpoints` in Breaky.tsx).
 */
module BreakpointTable {
  import opened Common
  import ParseInt

  /** One entry of the `breakpoints` prop: a name and its threshold string, e.g. ("md", "768px"). */
  datatype Breakpoint = Breakpoint(name: string, threshold: string)

  /** The `breakpoints` prop, in `Object.keys` order. */
  type BreakpointSpec = seq<Breakpoint>

  /** Why a spec is refused: the threshold of `name` has no leading digits (parseInt gives NaN). */
  datatype SpecError = NotANumber(name: string)

  /** The keys of a JavaScript object are distinct. */
  predicate DistinctNames(spec: BreakpointSpec) {
    forall i, j :: 0 <= i < j < |spec| ==> spec[i].name != spec[j].name
  }

  /** `Object.keys(breakpoints)`. */
  function Names(spec: BreakpointSpec): (names: seq<string>)
    ensures |names| == |spec|
    ensures forall k :: 0 <= k < |spec| ==> names[k] == spec[k].name
  {
    if spec == [] then [] else Names(spec[..|spec| - 1]) + [spec[|spec| - 1].name]
  }

  /** `breakpoints[name]`: the original threshold string, `None` (undefined) for an unknown name. */
  function Lookup(spec: BreakpointSpec, name: string): (r: Option<string>)
    ensures r.Some? <==> name in Names(spec)
    ensures forall k :: 0 <= k < |spec| && spec[k].name == name ==>
              r.Some? && (DistinctNames(spec) ==> r.value == spec[k].threshold)
  {
    if spec == [] then None
    else if spec[0].name == name then Some(spec[0].threshold)
    else
      NamesFront(spec);
      Lookup(spec[1..], name)
  }

  /** `Names`, read from the front. */
  lemma NamesFront(spec: BreakpointSpec)
    requires spec != []
    ensures Names(spec) == [spec[0].name] + Names(spec[1..])
  {
    var front := [spec[0].name] + Names(spec[1..]);
    forall k | 0 <= k < |spec| ensures Names(spec)[k] == front[k] {
      if k > 0 {
        assert front[k] == Names(spec[1..])[k - 1];
      }
    }
  }

  /** Every threshold of the spec has a numeric prefix. */
  predicate AllNumeric(spec: BreakpointSpec) {
    forall k :: 0 <= k < |spec| ==> ParseInt.Parse(spec[k].threshold).Some?
  }

  /**
   * The name -> pixel value table built by the `forEach` loop: each entry in turn
   * is added (later entries overwrite earlier ones with the same name). A
   * threshold without a numeric prefix refuses the spec, naming the first such
   * entry.
   */
  function Normalise(spec: BreakpointSpec): Result<map<string, nat>, SpecError>
  {
    if spec == [] then Ok(map[])
    else
      var last := spec[|spec| - 1];
      match Normalise(spec[..|spec| - 1])
      case Err(e) => Err(e)
      case Ok(m) =>
        match ParseInt.Parse(last.threshold)
        case None => Err(NotANumber(last.name))
        case Some(v) => Ok(m[last.name := v])
  }

  /** Once a prefix of the spec is refused, the whole spec is refused with the same error. */
  lemma {:induction false} NormaliseErrorPersists(spec: BreakpointSpec, n: nat)
    requires n <= |spec| && Normalise(spec[..n]).Err?
    ensures Normalise(spec) == Normalise(spec[..n])
  {
    if n < |spec| {
      assert spec[..|spec| - 1][..n] == spec[..n];
      NormaliseErrorPersists(spec[..|spec| - 1], n);
    } else {
      assert spec[..n] == spec;
    }
  }

  /**
   * The table is refused exactly when some threshold has no numeric prefix, and
   * the error names the first such entry.
   */
  lemma {:induction false} NormaliseRefusal(spec: BreakpointSpec)
    ensures Normalise(spec).Ok? <==> AllNumeric(spec)
    ensures Normalise(spec).Err? ==>
              exists k :: 0 <= k < |spec| && Normalise(spec).error == NotANumber(spec[k].name) &&
                ParseInt.Parse(spec[k].threshold).None? && AllNumeric(spec[..k])
  {
    if spec != [] {
      var init := spec[..|spec| - 1];
      NormaliseRefusal(init);
      assert forall k :: 0 <= k < |init| ==> init[k] == spec[k];
      if Normalise(init).Err? {
        var k :| 0 <= k < |init| && Normalise(init).error == NotANumber(init[k].name) &&
                 ParseInt.Parse(init[k].threshold).None? && AllNumeric(init[..k]);
        assert init[..k] == spec[..k];
      } else {
        assert AllNumeric(init);
      }
    }
  }

  /** The table keeps exactly the spec's names. */
  lemma {:induction false} NormaliseKeys(spec: BreakpointSpec)
    requires Normalise(spec).Ok?
    ensures Normalise(spec).value.Keys == set k | 0 <= k < |spec| :: spec[k].name
  {
    if spec != [] {
      var init := spec[..|spec| - 1];
      NormaliseKeys(init);
      assert (set k | 0 <= k < |spec| :: spec[k].name)
          == (set k | 0 <= k < |init| :: init[k].name) + {spec[|spec| - 1].name};
    }
  }

  /** Each name is mapped to the number read from its own threshold string ("1024px" -> 1024). */
  lemma {:induction false} NormaliseValues(spec: BreakpointSpec)
    requires DistinctNames(spec) && Normalise(spec).Ok?
    ensures forall k :: 0 <= k < |spec| ==>
              spec[k].name in Normalise(spec).value &&
              ParseInt.Parse(spec[k].threshold) == Some(Normalise(spec).value[spec[k].name])
  {
    if spec != [] {
      var init := spec[..|spec| - 1];
      NormaliseValues(init);
      forall k | 0 <= k < |init| ensures init[k] == spec[k] && init[k].name != spec[|spec| - 1].name { }
    }
  }

  /**
   * `mappedBreakpoints`: the loop over `Object.keys(breakpoints)` that rebuilds the
   * table one entry at a time.
   */
  method MapBreakpoints(spec: BreakpointSpec) returns (r: Result<map<string, nat>, SpecError>)
    ensures r == Normalise(spec)
  {
    var mapped: map<string, nat> := map[];
    var i := 0;
    while i < |spec|
      invariant i <= |spec|
      invariant Normalise(spec[..i]) == Ok(mapped)
    {
      assert spec[..i + 1][..i] == spec[..i];
      var v := ParseInt.Parse(spec[i].threshold);
      if v.None? {
        NormaliseErrorPersists(spec, i + 1);
        return Err(NotANumber(spec[i].name));
      }
      mapped := mapped[spec[i].name := v.value];
      i := i + 1;
    }
    assert spec[..i] == spec;
    return Ok(mapped);
  }
}
