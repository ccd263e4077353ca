/**
 * combineReducerMapSelectors: builds a reducer table keyed by state segment
 * and a flat selector table whose entries read their own segment's slice of
 * the global state, reporting two irregularities through `warning`.
 *
 * The method at the end is the nested loop of the source; the functions
 * before it state its result: `Process` is the state after a prefix of the
 * segments, `ExportsStep` the state after a prefix of one segment's exports.
 */
module Combine {
  import opened Objects

  /** Whether `warning` only logs (the combiner carries on) or throws (the first warning aborts). */
  datatype WarningMode = LogWarnings | ThrowOnWarning

  /** The two irregularities the combiner reports. */
  datatype Diagnostic =
    | MissingReducer(segment: string)
    | DuplicateSelector(segment: string, selector: string)

  /**
   * A selector registered by the combiner: the closure that reads
   * `reducerSelectors[segment][selector]` when called and hands it
   * `globalState[segment]`.
   */
  datatype Wrapped = Wrapped(segment: string, selector: string)

  /** The result of the library's `combineReducers` on the reducer table; its behaviour is not modelled. */
  datatype RootReducer = CombinedReducers(slices: map<string, Export>)

  /** `{ rootReducer, selectors }`. */
  datatype Combined = Combined(rootReducer: RootReducer, selectors: map<string, Wrapped>)

  /**
   * What one call does: it returns a result, having emitted `warnings` in order,
   * or the `warning` it raised propagates out of it.
   */
  datatype Outcome = Completed(result: Combined, warnings: seq<Diagnostic>) | Threw(error: Diagnostic)

  /** The combiner's working state: `reducers`, `selectors` and the warnings emitted so far. */
  datatype Tables = Tables(reducers: map<string, Export>, selectors: map<string, Wrapped>, diagnostics: seq<Diagnostic>)

  /** The argument `reducerSelectors`: segment name to module export object. */
  type Input = Obj<Segment>

  const MISSING_REDUCER_PHRASE := "must define a reducer"
  const DUPLICATE_SELECTOR_PHRASE := "a selector of the same name is defined by another reducer"

  /** The text handed to `warning` for each diagnostic. */
  function Message(d: Diagnostic): string {
    match d
    case MissingReducer(seg) =>
      "state " + seg + " " + MISSING_REDUCER_PHRASE + " as it's default export"
    case DuplicateSelector(seg, sel) =>
      "Failed to add " + seg + "." + sel + "() selector, " + DUPLICATE_SELECTOR_PHRASE + "."
  }

  /** Every segment's export object is a well-formed object. */
  ghost predicate SegmentsValid(input: Input) {
    forall i | 0 <= i < |input.keys| :: SegmentAt(input, i).Valid()
  }

  /** `reducerSelectors` and each of its export objects are well-formed objects. */
  ghost predicate WellFormed(input: Input) {
    input.Valid() && SegmentsValid(input)
  }

  /** Reading `reducerSelectors[name]`; a name with no entry reads as an object with no properties. */
  function SegmentNamed(input: Input, name: string): Segment {
    if name in input.props then input.props[name] else Obj([], map[])
  }

  /** The module export object of the `i`-th segment in key order. */
  function SegmentAt(input: Input, i: nat): Segment
    requires i < |input.keys|
  {
    SegmentNamed(input, input.keys[i])
  }

  /** A default export the combiner accepts as a reducer. */
  predicate IsReducer(e: Export) {
    e.Function?
  }

  /** An export the combiner registers as a selector. */
  predicate IsSelector(key: string, e: Export) {
    key != "default" && e.Function?
  }

  predicate DefinesSelector(seg: Segment, s: string) {
    IsSelector(s, Property(seg, s))
  }

  /** `seg` defines selector `s` under one of its first `j` keys. */
  predicate SelectorAmong(seg: Segment, j: nat, s: string)
    requires j <= |seg.keys|
  {
    s in seg.keys[..j] && DefinesSelector(seg, s)
  }

  /** Lines 22-25 for one segment: warn about a missing reducer, then record the default export. */
  function EnterSegment(t: Tables, name: string, seg: Segment): Tables {
    var d := Property(seg, "default");
    Tables(t.reducers[name := d], t.selectors, t.diagnostics + (if IsReducer(d) then [] else [MissingReducer(name)]))
  }

  /**
   * Lines 28-38 over the first `j` keys of segment `name`: each selector export
   * is registered under its own name, replacing any earlier entry, with a
   * warning when the name was already registered.
   */
  function ExportsStep(t: Tables, name: string, seg: Segment, j: nat): (r: Tables)
    requires j <= |seg.keys|
    ensures r.reducers == t.reducers
    ensures t.diagnostics <= r.diagnostics
    decreases j
  {
    if j == 0 then t
    else
      var r0 := ExportsStep(t, name, seg, j - 1);
      var s := seg.keys[j - 1];
      if IsSelector(s, Property(seg, s)) then
        Tables(r0.reducers, r0.selectors[s := Wrapped(name, s)],
               r0.diagnostics + (if s in r0.selectors then [DuplicateSelector(name, s)] else []))
      else
        r0
  }

  /** One iteration of the outer loop (lines 20-39) for segment `name`. */
  function SegmentStep(t: Tables, name: string, seg: Segment): Tables {
    ExportsStep(EnterSegment(t, name, seg), name, seg, |seg.keys|)
  }

  /** The tables after the first `n` segments in key order. */
  function Process(input: Input, n: nat): (r: Tables)
    requires n <= |input.keys|
  {
    if n == 0 then Tables(map[], map[], [])
    else SegmentStep(Process(input, n - 1), input.keys[n - 1], SegmentAt(input, n - 1))
  }

  /** Every warning a call emits when `warning` only logs, in emission order. */
  function Diagnostics(input: Input): seq<Diagnostic> {
    Process(input, |input.keys|).diagnostics
  }

  /** The returned `{ rootReducer, selectors }` when `warning` only logs. */
  function Result(input: Input): Combined {
    var t := Process(input, |input.keys|);
    Combined(CombinedReducers(t.reducers), t.selectors)
  }

  /**
   * Calling a registered selector: `reducerSelectors[segment][selector](globalState[segment], ...params)`,
   * with `None` where JavaScript throws a TypeError.
   */
  function Apply(input: Input, w: Wrapped, global: Value, params: seq<Value>): Option<Value> {
    if w.segment in input.props && w.selector in input.props[w.segment].props
       && input.props[w.segment].props[w.selector].Function?
    then
      match Slice(global, w.segment)
      case None => None
      case Some(slice) => Some(input.props[w.segment].props[w.selector].call(slice, params))
    else None
  }

  lemma {:induction false} ExportsStepGrows(t: Tables, name: string, seg: Segment, j: nat, k: nat)
    requires j <= k <= |seg.keys|
    ensures ExportsStep(t, name, seg, j).diagnostics <= ExportsStep(t, name, seg, k).diagnostics
    decreases k
  {
    if j < k {
      ExportsStepGrows(t, name, seg, j, k - 1);
    }
  }

  lemma {:induction false} ProcessGrows(input: Input, n: nat, m: nat)
    requires n <= m <= |input.keys|
    ensures Process(input, n).diagnostics <= Process(input, m).diagnostics
    decreases m
  {
    if n < m {
      ProcessGrows(input, n, m - 1);
    }
  }

  /**
   * The inner `forEach` (lines 28-38) for segment `name`, starting from tables
   * `t`: registers each selector export under its own name, with a warning
   * when the name is already registered. When `warning` throws, the first such
   * warning ends the call and comes back as `error`.
   */
  method RegisterSelectors(t: Tables, name: string, seg: Segment, mode: WarningMode)
    returns (selectors: map<string, Wrapped>, warnings: seq<Diagnostic>, error: Option<Diagnostic>)
    requires mode == ThrowOnWarning ==> t.diagnostics == []
    ensures error.None? ==> Tables(t.reducers, selectors, warnings) == ExportsStep(t, name, seg, |seg.keys|)
    ensures error.None? && mode == ThrowOnWarning ==> warnings == []
    ensures error.Some? ==> mode == ThrowOnWarning && [error.value] <= ExportsStep(t, name, seg, |seg.keys|).diagnostics
  {
    selectors := t.selectors;
    warnings := t.diagnostics;
    var j := 0;
    while j < |seg.keys|
      invariant 0 <= j <= |seg.keys|
      invariant Tables(t.reducers, selectors, warnings) == ExportsStep(t, name, seg, j)
      invariant mode == ThrowOnWarning ==> warnings == []
    {
      var s := seg.keys[j];
      var e := Property(seg, s);
      if IsSelector(s, e) {
        if s in selectors {
          var d := DuplicateSelector(name, s);
          if mode == ThrowOnWarning {
            assert ExportsStep(t, name, seg, j + 1).diagnostics == [d];
            ExportsStepGrows(t, name, seg, j + 1, |seg.keys|);
            return selectors, warnings, Some(d);
          }
          warnings := warnings + [d];
        }
        selectors := selectors[s := Wrapped(name, s)];
      }
      j := j + 1;
    }
    error := None;
  }

  /**
   * combineReducerMapSelectors(reducerSelectors). When `warning` logs, the call
   * completes with the tables `Result` describes and the warnings `Diagnostics`
   * lists; when it throws, the call aborts with the first of those warnings, or
   * completes as before on an input that draws none.
   */
  method CombineReducerMapSelectors(input: Input, mode: WarningMode) returns (outcome: Outcome)
    ensures mode == LogWarnings ==> outcome == Completed(Result(input), Diagnostics(input))
    ensures mode == ThrowOnWarning ==>
      outcome == if Diagnostics(input) == [] then Completed(Result(input), [])
                 else Threw(Diagnostics(input)[0])
  {
    var reducers: map<string, Export> := map[];
    var selectors: map<string, Wrapped> := map[];
    var warnings: seq<Diagnostic> := [];
    var i := 0;
    while i < |input.keys|
      invariant 0 <= i <= |input.keys|
      invariant Tables(reducers, selectors, warnings) == Process(input, i)
      invariant mode == ThrowOnWarning ==> warnings == []
    {
      var name := input.keys[i];
      var seg := SegmentNamed(input, name);
      ghost var before := Tables(reducers, selectors, warnings);
      var default := Property(seg, "default");
      if !IsReducer(default) {
        var d := MissingReducer(name);
        if mode == ThrowOnWarning {
          assert EnterSegment(before, name, seg).diagnostics == [d];
          FirstWarning(input, i, d);
          return Threw(d);
        }
        warnings := warnings + [d];
      }
      reducers := reducers[name := default];
      assert Tables(reducers, selectors, warnings) == EnterSegment(before, name, seg);
      var error;
      selectors, warnings, error := RegisterSelectors(Tables(reducers, selectors, warnings), name, seg, mode);
      if error.Some? {
        FirstWarning(input, i, error.value);
        return Threw(error.value);
      }
      i := i + 1;
    }
    outcome := Completed(Combined(CombinedReducers(reducers), selectors), warnings);
  }

  /** A warning that opens the warnings of the first `i + 1` segments opens those of the whole call. */
  lemma FirstWarning(input: Input, i: nat, d: Diagnostic)
    requires i < |input.keys|
    requires [d] <= Process(input, i + 1).diagnostics
    ensures |Diagnostics(input)| > 0 && Diagnostics(input)[0] == d
  {
    ProcessGrows(input, i + 1, |input.keys|);
  }
}
