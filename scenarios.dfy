/**
 * The three situations the repository's own tests exercise, worked out on
 * the model: two regular segments, a segment without a default export, and
 * two segments exporting a selector of the same name.
 */
module Scenarios {
  import opened Objects
  import opened Combine
  import opened CombineProperties

  /** A selector such as `(state) => state.a`: the field `field` of its state, or `undefined`. */
  function FieldReader(field: string): Callable {
    (state: Value, params: seq<Value>) =>
      match state
      case Record(fields) => if field in fields then fields[field] else Undefined
      case _ => Undefined
  }

  function TwoSegments(segA: Segment, segB: Segment): Input {
    Obj(["stateA", "stateB"], map["stateA" := segA, "stateB" := segB])
  }

  /** A module exporting a reducer as `default` and one selector `sel`. */
  function ReducerAndSelector(reducer: Callable, sel: string, selector: Callable): Segment {
    Obj(["default", sel], map["default" := Function(reducer), sel := Function(selector)])
  }

  /** Such a module adds its reducer and its selector, warning only when `sel` is already registered. */
  lemma ReducerAndSelectorStep(t: Tables, name: string, reducer: Callable, sel: string, selector: Callable)
    requires sel != "default"
    ensures SegmentStep(t, name, ReducerAndSelector(reducer, sel, selector))
            == Tables(t.reducers[name := Function(reducer)], t.selectors[sel := Wrapped(name, sel)],
                      t.diagnostics + (if sel in t.selectors then [DuplicateSelector(name, sel)] else []))
  {
    var seg := ReducerAndSelector(reducer, sel, selector);
    var entered := EnterSegment(t, name, seg);
    assert entered == Tables(t.reducers[name := Function(reducer)], t.selectors, t.diagnostics);
    assert ExportsStep(entered, name, seg, 1) == entered;
  }

  /**
   * `{ stateA: { default, getA }, stateB: { default, getB } }`: no warning,
   * one reducer per segment, both selectors registered, and `getA` reads
   * `'A'` out of `{ stateA: { a: 'A' }, stateB: { b: 'B' } }`.
   */
  lemma RegularSegments(reducerA: Callable, reducerB: Callable)
    ensures var input := TwoSegments(ReducerAndSelector(reducerA, "getA", FieldReader("a")),
                                     ReducerAndSelector(reducerB, "getB", FieldReader("b")));
      var state := Record(map["stateA" := Record(map["a" := Text("A")]), "stateB" := Record(map["b" := Text("B")])]);
      && Diagnostics(input) == []
      && Result(input).rootReducer.slices == map["stateA" := Function(reducerA), "stateB" := Function(reducerB)]
      && Result(input).selectors == map["getA" := Wrapped("stateA", "getA"), "getB" := Wrapped("stateB", "getB")]
      && Apply(input, Result(input).selectors["getA"], state, []) == Some(Text("A"))
      && Apply(input, Result(input).selectors["getB"], state, []) == Some(Text("B"))
  {
    var segA := ReducerAndSelector(reducerA, "getA", FieldReader("a"));
    var segB := ReducerAndSelector(reducerB, "getB", FieldReader("b"));
    var input := TwoSegments(segA, segB);
    assert "getA" != "getB" && "stateA" != "stateB";
    ReducerAndSelectorStep(Process(input, 0), "stateA", reducerA, "getA", FieldReader("a"));
    ReducerAndSelectorStep(Process(input, 1), "stateB", reducerB, "getB", FieldReader("b"));
  }

  /**
   * `{ stateA: { getA }, stateB: { default, getB } }`: the first warning is
   * that `stateA` has no reducer, so a throwing `warning` aborts the call with it.
   */
  lemma MissingDefault(reducerB: Callable, getA: Callable, getB: Callable)
    ensures var input := TwoSegments(Obj(["getA"], map["getA" := Function(getA)]),
                                     Obj(["default", "getB"], map["default" := Function(reducerB), "getB" := Function(getB)]));
      && |Diagnostics(input)| > 0
      && Diagnostics(input)[0] == MissingReducer("stateA")
      && Contains(Message(Diagnostics(input)[0]), MISSING_REDUCER_PHRASE)
  {
    var input := TwoSegments(Obj(["getA"], map["getA" := Function(getA)]),
                             Obj(["default", "getB"], map["default" := Function(reducerB), "getB" := Function(getB)]));
    assert "default" != "getA";
    assert [MissingReducer("stateA")] <= Process(input, 1).diagnostics;
    FirstWarning(input, 0, MissingReducer("stateA"));
    MissingReducerMessage("stateA");
  }

  /**
   * `{ stateA: { default, getValue }, stateB: { default, getValue } }`: the
   * only warning is `stateB`'s duplicate `getValue`, and `stateB`'s selector
   * is the one registered.
   */
  lemma SharedSelectorName(reducerA: Callable, reducerB: Callable, getValueA: Callable, getValueB: Callable)
    ensures var input := TwoSegments(ReducerAndSelector(reducerA, "getValue", getValueA),
                                     ReducerAndSelector(reducerB, "getValue", getValueB));
      && Diagnostics(input) == [DuplicateSelector("stateB", "getValue")]
      && Result(input).selectors == map["getValue" := Wrapped("stateB", "getValue")]
      && Contains(Message(Diagnostics(input)[0]), DUPLICATE_SELECTOR_PHRASE)
  {
    var input := TwoSegments(ReducerAndSelector(reducerA, "getValue", getValueA),
                             ReducerAndSelector(reducerB, "getValue", getValueB));
    ReducerAndSelectorStep(Process(input, 0), "stateA", reducerA, "getValue", getValueA);
    ReducerAndSelectorStep(Process(input, 1), "stateB", reducerB, "getValue", getValueB);
    DuplicateSelectorMessage("stateB", "getValue");
  }
}
