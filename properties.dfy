/**
 * What combineReducerMapSelectors promises about its two tables and its
 * warnings, stated against reference definitions that do not replay the
 * loop: the reducer table against the input segments, the selector table
 * against the last segment defining each name, the warnings against the
 * per-segment irregularities in input order.
 */
module CombineProperties {
  import opened Objects
  import opened Combine

  /**
   * The index of the last of the first `n` segments that defines selector
   * `s`, or -1 when none of them does.
   */
  function LastDefiner(input: Input, n: nat, s: string): int
    requires n <= |input.keys|
  {
    if n == 0 then -1
    else if DefinesSelector(SegmentAt(input, n - 1), s) then n - 1
    else LastDefiner(input, n - 1, s)
  }

  /** `LastDefiner` names a defining segment, and no later one of the first `n` defines `s`. */
  lemma {:induction false} LastDefinerIsLast(input: Input, n: nat, s: string)
    requires n <= |input.keys|
    ensures var k := LastDefiner(input, n, s);
      && -1 <= k < n
      && (k >= 0 ==> DefinesSelector(SegmentAt(input, k), s))
      && (k < 0 <==> forall i | 0 <= i < n :: !DefinesSelector(SegmentAt(input, i), s))
      && (forall i | k < i < n :: !DefinesSelector(SegmentAt(input, i), s))
  {
    if n > 0 {
      LastDefinerIsLast(input, n - 1, s);
    }
  }

  /**
   * Reference: the duplicate-selector warnings of segment `i` over its first
   * `j` keys. A selector export draws one exactly when an earlier segment
   * defines the same name.
   */
  function DuplicateDiagnostics(input: Input, i: nat, j: nat): seq<Diagnostic>
    requires i < |input.keys| && j <= |SegmentAt(input, i).keys|
    decreases j
  {
    if j == 0 then []
    else
      var seg := SegmentAt(input, i);
      var s := seg.keys[j - 1];
      DuplicateDiagnostics(input, i, j - 1)
        + (if DefinesSelector(seg, s) && LastDefiner(input, i, s) >= 0
           then [DuplicateSelector(input.keys[i], s)] else [])
  }

  /** Reference: segment `i`'s warnings, the missing reducer first, then its duplicates in key order. */
  function SegmentDiagnostics(input: Input, i: nat): seq<Diagnostic>
    requires i < |input.keys|
  {
    var seg := SegmentAt(input, i);
    (if IsReducer(Property(seg, "default")) then [] else [MissingReducer(input.keys[i])])
      + DuplicateDiagnostics(input, i, |seg.keys|)
  }

  /** Reference: the warnings of the first `n` segments, segment by segment in key order. */
  function AllDiagnostics(input: Input, n: nat): seq<Diagnostic>
    requires n <= |input.keys|
  {
    if n == 0 then []
    else AllDiagnostics(input, n - 1) + SegmentDiagnostics(input, n - 1)
  }

  /** Segment `i`'s reference duplicate warnings all name segment `i`. */
  lemma {:induction false} DuplicatesNameTheirSegment(input: Input, i: nat, j: nat)
    requires i < |input.keys| && j <= |SegmentAt(input, i).keys|
    ensures forall d | d in DuplicateDiagnostics(input, i, j) :: d.DuplicateSelector? && d == DuplicateSelector(input.keys[i], d.selector)
    decreases j
  {
    if j > 0 {
      DuplicatesNameTheirSegment(input, i, j - 1);
    }
  }

  /** The reference warnings of the first `n` segments name one of those segments. */
  lemma {:induction false} AllDiagnosticsNameSegments(input: Input, n: nat)
    requires n <= |input.keys|
    ensures forall d | d in AllDiagnostics(input, n) :: exists i :: 0 <= i < n && d.segment == input.keys[i]
  {
    if n > 0 {
      AllDiagnosticsNameSegments(input, n - 1);
      DuplicatesNameTheirSegment(input, n - 1, |SegmentAt(input, n - 1).keys|);
    }
  }

  /** Every segment has a reducer and no selector name is exported by two segments. */
  ghost predicate Regular(input: Input) {
    && (forall i | 0 <= i < |input.keys| :: IsReducer(Property(SegmentAt(input, i), "default")))
    && (forall k, i, s | 0 <= k < i < |input.keys| ::
          !(DefinesSelector(SegmentAt(input, k), s) && DefinesSelector(SegmentAt(input, i), s)))
  }

  lemma ConcatAssociative<T>(a: seq<T>, b: seq<T>, c: seq<T>)
    ensures (a + b) + c == a + (b + c)
  {
  }

  predicate Contains(text: string, part: string) {
    exists k :: 0 <= k <= |text| && part <= text[k..]
  }

  // ---------------------------------------------------------------------
  // The reducer table

  lemma {:induction false} ReducersAfter(input: Input, n: nat)
    requires n <= |input.keys|
    ensures forall name :: name in Process(input, n).reducers <==> name in input.keys[..n]
    ensures forall name | name in Process(input, n).reducers ::
      Process(input, n).reducers[name] == Property(SegmentNamed(input, name), "default")
  {
    if n > 0 {
      ReducersAfter(input, n - 1);
      assert input.keys[..n] == input.keys[..n - 1] + [input.keys[n - 1]];
    }
  }

  /**
   * The reducer table has exactly one entry per segment, the segment's
   * `default` export as it is, also where that is not a function.
   */
  lemma ReducerTable(input: Input)
    requires WellFormed(input)
    ensures Result(input).rootReducer.slices.Keys == input.props.Keys
    ensures forall name | name in input.props ::
      Result(input).rootReducer.slices[name] == Property(input.props[name], "default")
  {
    ReducersAfter(input, |input.keys|);
    assert input.keys[..|input.keys|] == input.keys;
  }

  // ---------------------------------------------------------------------
  // The selector table

  lemma {:induction false} ExportsStepSelectors(t: Tables, name: string, seg: Segment, j: nat)
    requires j <= |seg.keys|
    ensures forall s :: s in ExportsStep(t, name, seg, j).selectors <==> s in t.selectors || SelectorAmong(seg, j, s)
    ensures forall s | s in ExportsStep(t, name, seg, j).selectors ::
      ExportsStep(t, name, seg, j).selectors[s] == if SelectorAmong(seg, j, s) then Wrapped(name, s) else t.selectors[s]
    decreases j
  {
    if j > 0 {
      ExportsStepSelectors(t, name, seg, j - 1);
      assert seg.keys[..j] == seg.keys[..j - 1] + [seg.keys[j - 1]];
    }
  }

  /** After the first `n` segments, `s` is registered exactly when one of them defines it, by the last such. */
  lemma {:induction false} SelectorsAfter(input: Input, n: nat)
    requires SegmentsValid(input) && n <= |input.keys|
    ensures forall s :: s in Process(input, n).selectors <==> LastDefiner(input, n, s) >= 0
    ensures forall s | s in Process(input, n).selectors ::
      var k := LastDefiner(input, n, s);
      0 <= k < n && Process(input, n).selectors[s] == Wrapped(input.keys[k], s)
  {
    if n > 0 {
      SelectorsAfter(input, n - 1);
      var name := input.keys[n - 1];
      var seg := SegmentAt(input, n - 1);
      ExportsStepSelectors(EnterSegment(Process(input, n - 1), name, seg), name, seg, |seg.keys|);
      assert seg.keys[..|seg.keys|] == seg.keys;
      assert seg.Valid();
    }
  }

  /** The selector table's names are exactly the selector exports of all segments together. */
  lemma SelectorTableNames(input: Input)
    requires WellFormed(input)
    ensures forall s :: s in Result(input).selectors <==>
      exists name :: name in input.props && DefinesSelector(input.props[name], s)
  {
    SelectorsAfter(input, |input.keys|);
    forall s ensures s in Result(input).selectors <==>
      exists name :: name in input.props && DefinesSelector(input.props[name], s)
    {
      var n := |input.keys|;
      LastDefinerIsLast(input, n, s);
      if s in Result(input).selectors {
        var k := LastDefiner(input, n, s);
        assert input.keys[k] in input.props && DefinesSelector(input.props[input.keys[k]], s);
      }
      if exists name :: name in input.props && DefinesSelector(input.props[name], s) {
        var name :| name in input.props && DefinesSelector(input.props[name], s);
        var i :| 0 <= i < n && input.keys[i] == name;
        assert DefinesSelector(SegmentAt(input, i), s);
      }
    }
  }

  /**
   * A registered selector is the last segment's, and calling it hands that
   * segment's selector the segment's slice of the global state and the
   * remaining arguments unchanged.
   */
  lemma SelectorDelegates(input: Input, s: string, global: Value, params: seq<Value>)
    requires WellFormed(input) && s in Result(input).selectors
    ensures var k := LastDefiner(input, |input.keys|, s);
      && 0 <= k < |input.keys|
      && Result(input).selectors[s] == Wrapped(input.keys[k], s)
      && DefinesSelector(input.props[input.keys[k]], s)
      && Apply(input, Result(input).selectors[s], global, params)
         == match Slice(global, input.keys[k])
            case None => None
            case Some(slice) => Some(input.props[input.keys[k]].props[s].call(slice, params))
  {
    SelectorsAfter(input, |input.keys|);
    LastDefinerIsLast(input, |input.keys|, s);
    var k := LastDefiner(input, |input.keys|, s);
    assert input.keys[k] in input.props;
  }

  // ---------------------------------------------------------------------
  // The warnings

  lemma {:induction false} ExportsStepDiagnostics(input: Input, i: nat, t: Tables, j: nat)
    requires i < |input.keys| && SegmentAt(input, i).Valid() && j <= |SegmentAt(input, i).keys|
    requires forall s :: s in t.selectors <==> LastDefiner(input, i, s) >= 0
    ensures ExportsStep(t, input.keys[i], SegmentAt(input, i), j).diagnostics
            == t.diagnostics + DuplicateDiagnostics(input, i, j)
    decreases j
  {
    if j > 0 {
      var name := input.keys[i];
      var seg := SegmentAt(input, i);
      var s := seg.keys[j - 1];
      var r0 := ExportsStep(t, name, seg, j - 1);
      var dups := DuplicateDiagnostics(input, i, j - 1);
      ExportsStepDiagnostics(input, i, t, j - 1);
      ExportsStepSelectors(t, name, seg, j - 1);
      DistinctAt(seg.keys, j - 1);
      assert s in r0.selectors <==> LastDefiner(input, i, s) >= 0;
      var extra := if DefinesSelector(seg, s) && LastDefiner(input, i, s) >= 0 then [DuplicateSelector(name, s)] else [];
      assert ExportsStep(t, name, seg, j).diagnostics == r0.diagnostics + extra;
      assert DuplicateDiagnostics(input, i, j) == dups + extra;
      ConcatAssociative(t.diagnostics, dups, extra);
    }
  }

  /** One segment's step appends exactly that segment's reference warnings. */
  lemma SegmentStepDiagnostics(input: Input, i: nat, p: Tables)
    requires i < |input.keys| && SegmentAt(input, i).Valid()
    requires forall s :: s in p.selectors <==> LastDefiner(input, i, s) >= 0
    ensures SegmentStep(p, input.keys[i], SegmentAt(input, i)).diagnostics
            == p.diagnostics + SegmentDiagnostics(input, i)
  {
    var seg := SegmentAt(input, i);
    var t := EnterSegment(p, input.keys[i], seg);
    var missing := if IsReducer(Property(seg, "default")) then [] else [MissingReducer(input.keys[i])];
    var dups := DuplicateDiagnostics(input, i, |seg.keys|);
    assert t.selectors == p.selectors;
    ExportsStepDiagnostics(input, i, t, |seg.keys|);
    assert t.diagnostics == p.diagnostics + missing;
    ConcatAssociative(p.diagnostics, missing, dups);
  }

  /** The warnings are the segments' irregularities, segment by segment in key order. */
  lemma {:induction false} DiagnosticsAfter(input: Input, n: nat)
    requires SegmentsValid(input) && n <= |input.keys|
    ensures Process(input, n).diagnostics == AllDiagnostics(input, n)
  {
    if n > 0 {
      DiagnosticsAfter(input, n - 1);
      SelectorsAfter(input, n - 1);
      assert SegmentAt(input, n - 1).Valid();
      SegmentStepDiagnostics(input, n - 1, Process(input, n - 1));
    }
  }

  /**
   * Within each segment the missing-reducer warning comes first and the
   * duplicate-selector warnings follow in key order; segments follow in key order.
   */
  lemma DiagnosticsInInputOrder(input: Input)
    requires WellFormed(input)
    ensures Diagnostics(input) == AllDiagnostics(input, |input.keys|)
  {
    DiagnosticsAfter(input, |input.keys|);
  }

  /** How many times `d` occurs in `ds`. */
  function Occurrences(ds: seq<Diagnostic>, d: Diagnostic): nat {
    if |ds| == 0 then 0
    else (if ds[0] == d then 1 else 0) + Occurrences(ds[1..], d)
  }

  /** `Occurrences` is the multiplicity of `d` in the multiset of `ds`. */
  lemma {:induction false} OccurrencesIsMultiplicity(ds: seq<Diagnostic>, d: Diagnostic)
    ensures Occurrences(ds, d) == multiset(ds)[d]
    decreases |ds|
  {
    if |ds| > 0 {
      OccurrencesIsMultiplicity(ds[1..], d);
      assert ds == [ds[0]] + ds[1..];
    }
  }

  lemma {:induction false} OccurrencesConcat(a: seq<Diagnostic>, b: seq<Diagnostic>, d: Diagnostic)
    ensures Occurrences(a + b, d) == Occurrences(a, d) + Occurrences(b, d)
    decreases |a|
  {
    if |a| > 0 {
      assert (a + b)[0] == a[0];
      assert (a + b)[1..] == a[1..] + b;
      OccurrencesConcat(a[1..], b, d);
    } else {
      assert a + b == b;
    }
  }

  lemma {:induction false} OccurrencesAbsent(ds: seq<Diagnostic>, d: Diagnostic)
    requires d !in ds
    ensures Occurrences(ds, d) == 0
    decreases |ds|
  {
    if |ds| > 0 {
      assert d !in ds[1..];
      OccurrencesAbsent(ds[1..], d);
    }
  }

  /** Segment `i`'s first `j` keys draw one duplicate warning for `s` exactly when `s` is among them and registered before. */
  lemma {:induction false} DuplicateCount(input: Input, i: nat, j: nat, s: string)
    requires i < |input.keys| && Distinct(SegmentAt(input, i).keys) && j <= |SegmentAt(input, i).keys|
    ensures Occurrences(DuplicateDiagnostics(input, i, j), DuplicateSelector(input.keys[i], s))
            == if s in SegmentAt(input, i).keys[..j] && DefinesSelector(SegmentAt(input, i), s)
                  && LastDefiner(input, i, s) >= 0
               then 1 else 0
    decreases j
  {
    if j > 0 {
      var seg := SegmentAt(input, i);
      var k := seg.keys[j - 1];
      var dups := DuplicateDiagnostics(input, i, j - 1);
      var extra := if DefinesSelector(seg, k) && LastDefiner(input, i, k) >= 0
                   then [DuplicateSelector(input.keys[i], k)] else [];
      var x := DuplicateSelector(input.keys[i], s);
      assert DuplicateDiagnostics(input, i, j) == dups + extra;
      DuplicateCount(input, i, j - 1, s);
      OccurrencesConcat(dups, extra, x);
      TakeOneMore(seg.keys, j);
      if k == s {
        DistinctAt(seg.keys, j - 1);
        assert Occurrences(dups, x) == 0;
        assert Occurrences(extra, x) == if DefinesSelector(seg, s) && LastDefiner(input, i, s) >= 0 then 1 else 0;
      } else {
        assert Occurrences(extra, x) == 0;
        assert s in seg.keys[..j] <==> s in seg.keys[..j - 1];
      }
    }
  }

  /** Segment `m`'s reference warnings hold segment `i`'s missing-reducer warning once if `m` is `i` and its default is no function. */
  lemma MissingInSegment(input: Input, m: nat, i: nat)
    requires Distinct(input.keys) && m < |input.keys| && i < |input.keys|
    ensures Occurrences(SegmentDiagnostics(input, m), MissingReducer(input.keys[i]))
            == if m == i && !IsReducer(Property(SegmentAt(input, i), "default")) then 1 else 0
  {
    var x := MissingReducer(input.keys[i]);
    var seg := SegmentAt(input, m);
    var missing := if IsReducer(Property(seg, "default")) then [] else [MissingReducer(input.keys[m])];
    var dups := DuplicateDiagnostics(input, m, |seg.keys|);
    OccurrencesConcat(missing, dups, x);
    DuplicatesNameTheirSegment(input, m, |seg.keys|);
    assert x !in dups;
    OccurrencesAbsent(dups, x);
    if m != i {
      DistinctDiffer(input.keys, m, i);
    }
  }

  /** Segment `m`'s reference warnings hold segment `i`'s duplicate warning for `s` once if `m` is `i` and an earlier segment defines `s` too. */
  lemma DuplicateInSegment(input: Input, m: nat, i: nat, s: string)
    requires Distinct(input.keys) && m < |input.keys| && i < |input.keys| && Distinct(SegmentAt(input, i).keys)
    ensures Occurrences(SegmentDiagnostics(input, m), DuplicateSelector(input.keys[i], s))
            == if m == i && s in SegmentAt(input, i).keys && DefinesSelector(SegmentAt(input, i), s)
                  && LastDefiner(input, i, s) >= 0
               then 1 else 0
  {
    var x := DuplicateSelector(input.keys[i], s);
    var seg := SegmentAt(input, m);
    var missing := if IsReducer(Property(seg, "default")) then [] else [MissingReducer(input.keys[m])];
    var dups := DuplicateDiagnostics(input, m, |seg.keys|);
    OccurrencesConcat(missing, dups, x);
    assert x !in missing;
    if m == i {
      DuplicateCount(input, i, |seg.keys|, s);
      assert seg.keys[..|seg.keys|] == seg.keys;
    } else {
      DistinctDiffer(input.keys, m, i);
      DuplicatesNameTheirSegment(input, m, |seg.keys|);
      assert x !in dups;
      OccurrencesAbsent(dups, x);
    }
  }

  /** Among the reference warnings of the first `n` segments, segment `i`'s missing-reducer warning occurs once if `i < n` and its default is no function. */
  lemma {:induction false} MissingCountAfter(input: Input, n: nat, i: nat)
    requires Distinct(input.keys) && n <= |input.keys| && i < |input.keys|
    ensures Occurrences(AllDiagnostics(input, n), MissingReducer(input.keys[i]))
            == if i < n && !IsReducer(Property(SegmentAt(input, i), "default")) then 1 else 0
    decreases n
  {
    if n > 0 {
      var x := MissingReducer(input.keys[i]);
      var before := AllDiagnostics(input, n - 1);
      var here := SegmentDiagnostics(input, n - 1);
      MissingCountAfter(input, n - 1, i);
      MissingInSegment(input, n - 1, i);
      OccurrencesConcat(before, here, x);
      assert AllDiagnostics(input, n) == before + here;
    }
  }

  /** Among the reference warnings of the first `n` segments, segment `i`'s duplicate warning for `s` occurs once if `i < n` and an earlier segment defines `s` too. */
  lemma {:induction false} DuplicateCountAfter(input: Input, n: nat, i: nat, s: string)
    requires Distinct(input.keys) && n <= |input.keys| && i < |input.keys| && Distinct(SegmentAt(input, i).keys)
    ensures Occurrences(AllDiagnostics(input, n), DuplicateSelector(input.keys[i], s))
            == if i < n && s in SegmentAt(input, i).keys && DefinesSelector(SegmentAt(input, i), s)
                  && LastDefiner(input, i, s) >= 0
               then 1 else 0
    decreases n
  {
    if n > 0 {
      assert AllDiagnostics(input, n) == AllDiagnostics(input, n - 1) + SegmentDiagnostics(input, n - 1);
      DuplicateCountAfter(input, n - 1, i, s);
      DuplicateInSegment(input, n - 1, i, s);
      OccurrencesConcat(AllDiagnostics(input, n - 1), SegmentDiagnostics(input, n - 1), DuplicateSelector(input.keys[i], s));
    }
  }

  /** A segment without a function as its default export draws exactly one missing-reducer warning, others none. */
  lemma MissingReducerReported(input: Input, i: nat)
    requires WellFormed(input) && i < |input.keys|
    ensures Occurrences(Diagnostics(input), MissingReducer(input.keys[i]))
            == if IsReducer(Property(SegmentAt(input, i), "default")) then 0 else 1
  {
    DiagnosticsAfter(input, |input.keys|);
    MissingCountAfter(input, |input.keys|, i);
  }

  /**
   * A selector export of segment `i` draws exactly one duplicate warning when
   * an earlier segment already registered the name, and none otherwise.
   */
  lemma DuplicateSelectorReported(input: Input, i: nat, s: string)
    requires WellFormed(input) && i < |input.keys|
    ensures Occurrences(Diagnostics(input), DuplicateSelector(input.keys[i], s))
            == if DefinesSelector(SegmentAt(input, i), s)
                  && exists k :: 0 <= k < i && DefinesSelector(SegmentAt(input, k), s)
               then 1 else 0
  {
    var seg := SegmentAt(input, i);
    assert seg.Valid();
    DiagnosticsAfter(input, |input.keys|);
    DuplicateCountAfter(input, |input.keys|, i, s);
    LastDefinerIsLast(input, i, s);
    if LastDefiner(input, i, s) >= 0 {
      assert DefinesSelector(SegmentAt(input, LastDefiner(input, i, s)), s);
    }
  }

  /** Every warning names a segment of the input. */
  lemma DiagnosticsNameSegments(input: Input)
    requires WellFormed(input)
    ensures forall d | d in Diagnostics(input) :: d.segment in input.props
  {
    DiagnosticsAfter(input, |input.keys|);
    AllDiagnosticsNameSegments(input, |input.keys|);
  }

  /** A call draws no warning exactly when the input is regular. */
  lemma NoWarningsIffRegular(input: Input)
    requires WellFormed(input)
    ensures Diagnostics(input) == [] <==> Regular(input)
  {
    var n := |input.keys|;
    DiagnosticsAfter(input, n);
    if Diagnostics(input) == [] {
      forall i | 0 <= i < n ensures IsReducer(Property(SegmentAt(input, i), "default")) {
        MissingCountAfter(input, n, i);
      }
      forall k, i, s | 0 <= k < i < n
        ensures !(DefinesSelector(SegmentAt(input, k), s) && DefinesSelector(SegmentAt(input, i), s))
      {
        assert SegmentAt(input, i).Valid();
        DuplicateCountAfter(input, n, i, s);
        LastDefinerIsLast(input, i, s);
      }
    } else {
      var d := Diagnostics(input)[0];
      AllDiagnosticsNameSegments(input, n);
      assert d in AllDiagnostics(input, n);
      var i :| 0 <= i < n && input.keys[i] == d.segment;
      match d
      case MissingReducer(_) =>
        MissingCountAfter(input, n, i);
      case DuplicateSelector(_, s) =>
        assert SegmentAt(input, i).Valid();
        DuplicateCountAfter(input, n, i, s);
        LastDefinerIsLast(input, i, s);
        var k := LastDefiner(input, i, s);
        assert DefinesSelector(SegmentAt(input, k), s) && DefinesSelector(SegmentAt(input, i), s);
    }
  }

  // ---------------------------------------------------------------------
  // The messages handed to `warning`

  lemma ContainsSuffix(before: string, part: string)
    ensures Contains(before + part, part)
  {
    assert (before + part)[|before|..] == part;
  }

  lemma ContainsExtended(text: string, part: string, more: string)
    requires Contains(text, part)
    ensures Contains(text + more, part)
  {
    var k :| 0 <= k <= |text| && part <= text[k..];
    assert (text + more)[k..] == text[k..] + more;
  }

  /** The missing-reducer message names the segment and says that it must define a reducer. */
  lemma MissingReducerMessage(seg: string)
    ensures Contains(Message(MissingReducer(seg)), seg)
    ensures Contains(Message(MissingReducer(seg)), MISSING_REDUCER_PHRASE)
  {
    var tail := " as it's default export";
    ContainsSuffix("state ", seg);
    ContainsExtended("state " + seg, seg, " ");
    ContainsExtended("state " + seg + " ", seg, MISSING_REDUCER_PHRASE);
    ContainsExtended("state " + seg + " " + MISSING_REDUCER_PHRASE, seg, tail);
    ContainsSuffix("state " + seg + " ", MISSING_REDUCER_PHRASE);
    ContainsExtended("state " + seg + " " + MISSING_REDUCER_PHRASE, MISSING_REDUCER_PHRASE, tail);
  }

  /** The duplicate-selector message names the segment and the selector and says that another reducer defines it. */
  lemma DuplicateSelectorMessage(seg: string, sel: string)
    ensures Contains(Message(DuplicateSelector(seg, sel)), seg)
    ensures Contains(Message(DuplicateSelector(seg, sel)), sel)
    ensures Contains(Message(DuplicateSelector(seg, sel)), DUPLICATE_SELECTOR_PHRASE)
  {
    var head := "Failed to add ";
    var mid := "() selector, ";
    ContainsSuffix(head, seg);
    ContainsExtended(head + seg, seg, ".");
    ContainsExtended(head + seg + ".", seg, sel);
    ContainsExtended(head + seg + "." + sel, seg, mid);
    ContainsExtended(head + seg + "." + sel + mid, seg, DUPLICATE_SELECTOR_PHRASE);
    ContainsExtended(head + seg + "." + sel + mid + DUPLICATE_SELECTOR_PHRASE, seg, ".");
    ContainsSuffix(head + seg + ".", sel);
    ContainsExtended(head + seg + "." + sel, sel, mid);
    ContainsExtended(head + seg + "." + sel + mid, sel, DUPLICATE_SELECTOR_PHRASE);
    ContainsExtended(head + seg + "." + sel + mid + DUPLICATE_SELECTOR_PHRASE, sel, ".");
    ContainsSuffix(head + seg + "." + sel + mid, DUPLICATE_SELECTOR_PHRASE);
    ContainsExtended(head + seg + "." + sel + mid + DUPLICATE_SELECTOR_PHRASE, DUPLICATE_SELECTOR_PHRASE, ".");
  }

  /** Each message carries its distinguishing phrase and names the segment, and the selector where there is one. */
  lemma MessageNamesItsCause(d: Diagnostic)
    ensures d.MissingReducer? ==>
      Contains(Message(d), MISSING_REDUCER_PHRASE) && Contains(Message(d), d.segment)
    ensures d.DuplicateSelector? ==>
      && Contains(Message(d), DUPLICATE_SELECTOR_PHRASE)
      && Contains(Message(d), d.segment)
      && Contains(Message(d), d.selector)
  {
    match d
    case MissingReducer(seg) => MissingReducerMessage(seg);
    case DuplicateSelector(seg, sel) => DuplicateSelectorMessage(seg, sel);
  }
}
