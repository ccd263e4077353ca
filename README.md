# combineReducerMapSelectors in Dafny

This project models `combineReducerMapSelectors(reducerSelectors)` (src/index.js:16-43).
The function takes an object that maps each state segment name to that segment's module export object.
It builds two tables from it:

- a reducer table, which maps every segment name to the segment's `default` export;
- a flat selector table, which maps every other function-valued export to a wrapper.
  The wrapper reads `globalState[segment]` and then calls the segment's own selector with it.

The function reports two irregularities through `warning`:

- a segment whose `default` export is not a function;
- a selector name that is already registered when a later segment offers it.

Module layout:

- `objects.dfy` (`Objects`): JavaScript values and plain objects.
  An object is its own keys in `Object.keys` order plus a map of their values.
  An export is either `Function(call)` or `Data(value)`.
- `combine.dfy` (`Combine`): the combiner itself.
  - `CombineReducerMapSelectors` is the outer `forEach` as a `while` loop.
  - `RegisterSelectors` is the inner `forEach` over one segment's exports.
  - The functions `EnterSegment`, `ExportsStep`, `SegmentStep` and `Process` specify the state the loops reach.
    `Result` and `Diagnostics` are the returned tables and the emitted warnings.
  - The duplicate test is an own-key test: a name counts as registered only when an earlier segment registered it.
    Line 31 as written also finds the twelve names `{}` inherits from `Object.prototype`; `PrototypeLookup` models that and the difference.
  - `warning` either logs (`LogWarnings`) or throws (`ThrowOnWarning`).
    In the throwing mode the first warning ends the call, as the `@throws` tags at src/index.js:10-11 and the tests expect.
- `properties.dfy` (`CombineProperties`): what the tables and warnings are, stated against reference definitions that do not replay the loop.
  - `LastDefiner` gives the last segment that defines a selector.
  - `AllDiagnostics` gives the per-segment irregularities in key order.
  - `Regular` holds when every segment has a reducer and no two segments share a selector name.
- `findings.dfy` (`PrototypeLookup`): the duplicate test of line 31 as written; see "## Findings".
- `scenarios.dfy` (`Scenarios`): the three inputs of test/index.test.js, worked out on the model.

**Last definer wins.** After the duplicate warning, line 36 assigns unconditionally.
When `warning` returns, the selector of the later segment therefore replaces the earlier one, and each later definer draws its own warning.
The wording of the warning at line 32, "Failed to add …", reads as if the first registration were kept.
Line 36 contradicts it, and the model follows the code (`SelectorsAfter`, `SelectorDelegates`).

## Model

| member | source | states |
|---|---|---|
| Combine.CombineReducerMapSelectors | src/index.js:16-43 | When `warning` logs, the call returns the reducer table, the selector table and the warnings of the reference functions. When it throws, the call fails with the first of those warnings, or completes with no warnings where there are none. The duplicate test is the intended own-key one, which differs from line 31 as written on the `Object.prototype` names (see "## Findings"). |
| Combine.RegisterSelectors | src/index.js:28-38 | One segment's export loop registers selectors and warns exactly as `ExportsStep` describes. In throwing mode it stops at the first duplicate, and that duplicate opens the segment's warnings. |
| Combine.ExportsStep | src/index.js:28-38 | The export loop never touches the reducer table and only appends to the warnings. |
| Combine.EnterSegment | src/index.js:22-25 | No contract of its own: the missing-reducer test and the reducer entry of one segment. Its properties are stated by `ReducersAfter`, `ReducerTable`, `MissingInSegment` and `MissingReducerReported`. |
| Combine.SegmentStep | src/index.js:20-39 | No contract of its own: one iteration of the outer loop. Its warnings are stated by `SegmentStepDiagnostics`, its selectors by `SelectorsAfter`. |
| Combine.Process | src/index.js:20-39 | No contract of its own: the tables after a prefix of the segments. Its properties are stated by `ReducersAfter`, `SelectorsAfter`, `DiagnosticsAfter` and `ProcessGrows`. |
| Combine.Message | src/index.js:23-32 | No contract of its own: the two template literals of lines 23 and 32. Their content is stated by `MissingReducerMessage`, `DuplicateSelectorMessage` and `MessageNamesItsCause`. |
| Combine.Apply | src/index.js:36 | No contract of its own: calling a wrapper built at line 36. Its behaviour is stated by `SelectorDelegates` and `RegularSegments`. |
| Combine.ExportsStepGrows | src/index.js:28-38 | Warnings emitted over fewer exports are a prefix of those emitted over more. |
| Combine.ProcessGrows | src/index.js:20-39 | Warnings emitted over fewer segments are a prefix of those emitted over more. |
| Combine.FirstWarning | src/index.js:20-39 | A warning that opens the warnings of the first segments opens the warnings of the whole call. |
| CombineProperties.LastDefinerIsLast | src/index.js:36 | `LastDefiner` is -1 exactly when no segment defines the selector. Otherwise it names a segment that defines it, and no later segment does. |
| CombineProperties.ReducersAfter | src/index.js:20-25 | After `n` segments, the reducer table holds exactly those segment names, each bound to its segment's `default` property. |
| CombineProperties.ReducerTable | src/index.js:22-25 | The reducer table's keys are exactly the input's segment names. Each value is the segment's `default` export as it is, also where that is missing or not a function. |
| CombineProperties.ExportsStepSelectors | src/index.js:28-37 | The export loop registers exactly the earlier names plus the segment's selector exports. Those exports map to this segment's wrapper, and other entries are unchanged. |
| CombineProperties.SelectorsAfter | src/index.js:20-39 | After `n` segments, a name is registered exactly when one of them defines it, and it maps to the wrapper of the last such segment. |
| CombineProperties.SelectorTableNames | src/index.js:28-29 | The selector table's names are exactly the non-`default`, function-valued exports of all segments together. |
| CombineProperties.SelectorDelegates | src/index.js:36 | A registered selector belongs to the last segment that defines it. Calling it passes that segment's slice of the global state, and the other arguments unchanged, to that segment's selector. |
| CombineProperties.ExportsStepDiagnostics | src/index.js:29-33 | Given a table registered exactly by earlier segments, the export loop appends exactly the reference duplicate warnings of the segment. |
| CombineProperties.SegmentStepDiagnostics | src/index.js:20-38 | One segment's iteration appends exactly that segment's reference warnings. |
| CombineProperties.DiagnosticsAfter | src/index.js:20-39 | After `n` segments the warnings are the reference warnings of those segments, in order. |
| CombineProperties.DiagnosticsInInputOrder | src/index.js:20-39 | Warnings come segment by segment in key order. Within a segment the missing reducer comes first, then the duplicates in key order. |
| CombineProperties.DuplicateCount | src/index.js:28-33 | A segment's duplicate warnings hold one for a name exactly when the segment exports it as a selector and an earlier segment registered it. Otherwise they hold none. |
| CombineProperties.MissingInSegment | src/index.js:22-23 | A segment's warnings hold another segment's missing-reducer warning never. They hold its own exactly once when its default is not a function. |
| CombineProperties.DuplicateInSegment | src/index.js:31-32 | A segment's warnings hold a duplicate warning naming a different segment never. Those naming itself follow `DuplicateCount`. |
| CombineProperties.MissingCountAfter | src/index.js:20-23 | Over the first `n` segments, a segment's missing-reducer warning occurs once if the segment is among them and its default is not a function, otherwise never. |
| CombineProperties.DuplicateCountAfter | src/index.js:20-33 | Over the first `n` segments, a segment's duplicate warning for a name occurs once if the segment is among them, exports the name as a selector and an earlier segment defines it. Otherwise it occurs never. |
| CombineProperties.MissingReducerReported | src/index.js:22-25 | Each segment draws exactly one missing-reducer warning when its `default` is not a function, and none otherwise. |
| CombineProperties.DuplicateSelectorReported | src/index.js:29-33 | A segment draws exactly one duplicate warning for a name when it exports that name as a selector and some earlier segment does too, and none otherwise. |
| CombineProperties.DiagnosticsNameSegments | src/index.js:22-33 | Every warning names a segment of the input. |
| CombineProperties.NoWarningsIffRegular | src/index.js:20-39 | A call emits no warning if and only if every segment has a reducer and no two segments export the same selector name. |
| CombineProperties.MissingReducerMessage | src/index.js:23 | The missing-reducer message names the segment and contains "must define a reducer". |
| CombineProperties.DuplicateSelectorMessage | src/index.js:32 | The duplicate message names the segment and the selector and contains "a selector of the same name is defined by another reducer". |
| CombineProperties.MessageNamesItsCause | src/index.js:22-33 | Every warning's message carries its kind's phrase and names its segment, and its selector where it has one. |
| PrototypeLookup.LooksRegisteredAsWritten | src/index.js:31 | No contract of its own: line 31's truthiness test as written. Its consequences are stated by `AsWrittenAgreesAwayFromPrototype` and `SpuriousDuplicateForToString`. |
| PrototypeLookup.ExportsStepAsWritten | src/index.js:28-38 | With line 31 as written, the export loop registers the same selectors as the own-key check, keeps the reducer table and only appends warnings. |
| PrototypeLookup.AsWrittenAgreesAwayFromPrototype | src/index.js:31 | Where no export is named after an inherited `Object.prototype` member, line 31 as written warns exactly as the own-key check does. |
| PrototypeLookup.SpuriousDuplicateForToString | src/index.js:31 | For one segment exporting a reducer and a selector `toString`, no segment registered `toString` before and the own-key check emits no warning. Line 31 as written still reports a duplicate. |
| Scenarios.ReducerAndSelectorStep | src/index.js:20-39 | A segment exporting a reducer and one selector adds both, and warns only when the selector's name is already registered. |
| Scenarios.RegularSegments | test/index.test.js:25-47 | Two regular segments draw no warning and yield one reducer each and both selectors. Each selector reads its own segment's slice. |
| Scenarios.MissingDefault | test/index.test.js:49-64 | A segment without `default` makes the first warning its missing-reducer warning, whose message contains "must define a reducer". |
| Scenarios.SharedSelectorName | test/index.test.js:66-82 | Two segments exporting `getValue` draw exactly one duplicate warning, for the second segment, and the second segment's selector is the one registered. |

## Left out

- `combineReducers` comes from redux and is not part of this model. The root reducer is the reducer table it is built from, and its behaviour is not modelled. So the state that `rootReducer()` builds (test/index.test.js:4-23) is not proved about.
- src/warning.js is not part of this model. `warning` is modelled as one of two behaviours: it records the message and returns, or it throws with it.
- Truthiness and `typeof` are collapsed into `Function` versus `Data`: an export is a function or it is not. The `!default ||` half of line 22 adds nothing once `typeof` is checked.
- A segment value that is `undefined` or `null` makes line 22 throw a TypeError in JavaScript, as `Object.keys` on line 28 would. The model has no such segment: every segment is an object, and a name with no entry reads as an empty one.
  A primitive segment value does not throw. It is wrapped before the property is read, so it behaves like an object whose properties are all data: `default` reads `undefined`, which draws one missing-reducer warning and binds `undefined` in the reducer table, and no selector is registered (a string's index keys hold characters). The model expresses such a segment as an `Obj` whose exports are all `Data`.
- Assigning to a property named `__proto__` on lines 25 and 36 sets the prototype of `reducers` or `selectors` instead of adding an own key. The model treats it as an ordinary key.
- The `Object.keys` ordering rules (integer-like keys first) are not modelled. Each object's key order is taken as given.
- The wrapper at line 36 looks the selector up again on every call, so a later change to the input would be seen. The model does not model mutation after the call. `Apply` reads the input it was built from.
- User reducers and selectors are uninterpreted total functions. Exceptions thrown by them are not modelled.
- `Apply` returns `None` where the wrapper would throw a TypeError (an `undefined` or `null` global state). Numbers are unbounded integers.
- Apply: reading `globalState[segment]` (through `Slice`) gives `undefined` for a name the state object does not own, and for any primitive state. JavaScript would return an inherited `Object.prototype` member for a segment named like one (`toString`, `constructor`), and a string state's `length` or character for a segment named `length` or `0`. Only segments with such names are affected.
- Message texts are modelled character for character, but only their phrases and the names they carry are proved about.

## Findings

| source | as written | input that shows it | evidently intended | confidence | as-written member | corrected member |
|---|---|---|---|---|---|---|
| src/index.js:31 | `selectors[selector]` on an object created by `{}` is also truthy for members inherited from `Object.prototype` | `{ stateA: { default: reducer, toString: selector } }` reports `stateA.toString()` as a duplicate although no other segment defines it | warn only when another segment registered the name (an own-key test) | not executed | PrototypeLookup.SpuriousDuplicateForToString | CombineProperties.DuplicateSelectorReported |
