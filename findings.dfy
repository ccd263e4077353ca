/**
 * The duplicate check on line 31 of src/index.js reads `selectors[selector]`
 * on an object created as `{}`. That read also finds the members every such
 * object inherits from `Object.prototype`, and they are all truthy, so a
 * selector named after one of them is reported as a duplicate although no
 * other segment defines it. This module models the check as written, shows
 * an input on which it reports the spurious duplicate, and shows that on
 * every other input it agrees with the own-key check the rest of the model uses.
 */
module PrototypeLookup {
  import opened Objects
  import opened Combine
  import opened CombineProperties

  /** The names `{}` inherits from `Object.prototype`; each has a truthy value there. */
  const OBJECT_PROTOTYPE_MEMBERS: set<string> := {
    "constructor", "hasOwnProperty", "isPrototypeOf", "propertyIsEnumerable",
    "toLocaleString", "toString", "valueOf",
    "__defineGetter__", "__defineSetter__", "__lookupGetter__", "__lookupSetter__", "__proto__"
  }

  /** Line 31 as written: `selectors[s]` is truthy. */
  predicate LooksRegisteredAsWritten(selectors: map<string, Wrapped>, s: string) {
    s in selectors || s in OBJECT_PROTOTYPE_MEMBERS
  }

  /** Lines 28-38 with the duplicate test of line 31 as written. */
  function ExportsStepAsWritten(t: Tables, name: string, seg: Segment, j: nat): (r: Tables)
    requires j <= |seg.keys|
    ensures r.reducers == t.reducers
    ensures r.selectors == ExportsStep(t, name, seg, j).selectors
    ensures t.diagnostics <= r.diagnostics
    decreases j
  {
    if j == 0 then t
    else
      var r0 := ExportsStepAsWritten(t, name, seg, j - 1);
      var s := seg.keys[j - 1];
      if IsSelector(s, Property(seg, s)) then
        Tables(r0.reducers, r0.selectors[s := Wrapped(name, s)],
               r0.diagnostics + (if LooksRegisteredAsWritten(r0.selectors, s) then [DuplicateSelector(name, s)] else []))
      else
        r0
  }

  /** One segment's iteration of the outer loop with line 31 as written. */
  function SegmentStepAsWritten(t: Tables, name: string, seg: Segment): Tables {
    ExportsStepAsWritten(EnterSegment(t, name, seg), name, seg, |seg.keys|)
  }

  /** Where no export is named after an inherited member, the check as written warns exactly as the own-key check does. */
  lemma {:induction false} AsWrittenAgreesAwayFromPrototype(t: Tables, name: string, seg: Segment, j: nat)
    requires j <= |seg.keys|
    requires forall k | 0 <= k < j :: seg.keys[k] !in OBJECT_PROTOTYPE_MEMBERS
    ensures ExportsStepAsWritten(t, name, seg, j) == ExportsStep(t, name, seg, j)
    decreases j
  {
    if j > 0 {
      AsWrittenAgreesAwayFromPrototype(t, name, seg, j - 1);
    }
  }

  /**
   * One segment `stateA` with a reducer and a selector `toString`: no other
   * segment defines `toString`, the own-key check draws no warning, while the
   * check as written reports it as a duplicate.
   */
  lemma SpuriousDuplicateForToString(reducer: Callable, selector: Callable)
    ensures var seg := Obj(["default", "toString"], map["default" := Function(reducer), "toString" := Function(selector)]);
      var input := Obj(["stateA"], map["stateA" := seg]);
      && WellFormed(input)
      && DefinesSelector(seg, "toString")
      && LastDefiner(input, 0, "toString") == -1
      && !("toString" in Process(input, 0).selectors)
      && LooksRegisteredAsWritten(Process(input, 0).selectors, "toString")
      && Diagnostics(input) == []
      && SegmentStepAsWritten(Process(input, 0), "stateA", seg).diagnostics == [DuplicateSelector("stateA", "toString")]
  {
    var seg := Obj(["default", "toString"], map["default" := Function(reducer), "toString" := Function(selector)]);
    var input := Obj(["stateA"], map["stateA" := seg]);
    assert "default" != "toString";
    assert seg.keys[..1] == ["default"];
    assert Distinct(seg.keys);
    assert seg.Valid();
    assert Distinct(input.keys);
    assert SegmentAt(input, 0) == seg;
    var entered := EnterSegment(Process(input, 0), "stateA", seg);
    assert entered.diagnostics == [] && entered.selectors == map[];
    assert ExportsStepAsWritten(entered, "stateA", seg, 1) == entered;
    assert "toString" in OBJECT_PROTOTYPE_MEMBERS;
  }
}
