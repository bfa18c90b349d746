/**
 * The reducer does not depend on how the lines of different suites interleave: its outcome is a
 * function of the per-key subsequences of the stream alone.
 */
module NextestOrder {
  import opened Base
  import opened NextestInventory
  import opened NextestEvents

  /** The name key a line belongs to. */
  function KeyOf(e: Event): Option<NameKey> {
    match e
    case SuiteStarted(id, _) => Some(id.TestNameKey())
    case SuiteEnded(id, _, _, _, _) => Some(id.TestNameKey())
    case Test(_, key, _, _) => Some(key)
    case Malformed => None
  }

  // ----- Outcomes up to the order of the expected attempts -----

  ghost predicate Same(s: State, t: State) {
    s.(expected := []) == t.(expected := []) && multiset(s.expected) == multiset(t.expected)
  }

  ghost predicate SameOutcome(a: Outcome<State>, b: Outcome<State>) {
    a.Accepted? == b.Accepted? && (a.Accepted? ==> Same(a.value, b.value))
  }

  ghost function Then(source: Source, r: Outcome<State>, e: Event): Outcome<State> {
    if r.Accepted? then Step(source, r.value, e) else Refused
  }

  // ----- A step is a local decision and a commuting update -----

  /** What one accepted line changes: one suite's entries, at most one row, and the two totals. */
  datatype Effect = Effect(
    id: SuiteIdentity,
    episode: Option<Episode>,
    row: Option<(string, TestRow)>,
    expected: seq<ExpectedTest>,
    population: Option<U64>,
    executed: Option<U64>,
    passed: U64,
    failed: U64)

  function Set<V>(m: map<SuiteIdentity, V>, id: SuiteIdentity, v: Option<V>): map<SuiteIdentity, V> {
    if v.Some? then m[id := v.value] else m - {id}
  }

  function Lookup<V>(m: map<SuiteIdentity, V>, id: SuiteIdentity): Option<V> {
    if id in m then Some(m[id]) else None
  }

  ghost function Apply(s: State, f: Effect): Outcome<State> {
    if || s.suitePassed + f.passed > U64_MAX
       || s.suiteFailed + f.failed > U64_MAX
       || (f.row.Some? && f.row.value.0 in s.results)
    then
      Refused
    else
      Accepted(State(
        Set(s.open, f.id, f.episode),
        if f.row.Some? then s.results[f.row.value.0 := f.row.value.1] else s.results,
        s.expected + f.expected,
        Set(s.populations, f.id, f.population),
        Set(s.executed, f.id, f.executed),
        s.suitePassed + f.passed,
        s.suiteFailed + f.failed))
  }

  /** The effect of a line, decided from the entries of suites with the line's own key. */
  ghost function Decide(source: Source, s: State, e: Event): Outcome<Effect> {
    match e
    case SuiteStarted(id, testCount) =>
      if MayStart(source, s.open, id, testCount)
      then
        Accepted(Effect(id, Some(Episode(testCount, 0, 0)), None, [],
                        Lookup(s.populations, id), Lookup(s.executed, id), 0, 0))
      else Refused
    case SuiteEnded(id, passed, failed, ignored, filteredOut) =>
      if && id in s.open && passed == s.open[id].passed && failed == s.open[id].failed
         && (source.Some? ==>
               source.value.Suite(id).Accepted? && ignored == source.value.Suite(id).value.IgnoredCount())
         && SuitePopulation(s.open[id].testCount, passed, failed, ignored, filteredOut).Accepted?
      then
        var population := SuitePopulation(s.open[id].testCount, passed, failed, ignored, filteredOut).value;
        Accepted(Effect(id, None, None, [],
                        Some(Larger(s.populations, id, population)), Lookup(s.executed, id), passed, failed))
      else Refused
    case Test(kind, key, test, attempts) =>
      var candidates := Candidates(source, s.open, kind, key, test);
      if Unlisted(source, s.open, key) || |candidates| != 1 then
        Refused
      else
        DecideTest(s, Only(candidates), kind, test, attempts)
    case Malformed => Refused
  }

  ghost function DecideTest(s: State, id: SuiteIdentity, kind: TestEventKind, test: string, attempts: Attempts)
    : Outcome<Effect>
    requires id in s.open
  {
    var episode, passed := s.open[id], kind.Succeeded?;
    if kind.Started? || kind.Ignored? then
      Accepted(Effect(id, Some(episode), None, [], Lookup(s.populations, id), Lookup(s.executed, id), 0, 0))
    else if (if passed then episode.passed else episode.failed) == U64_MAX || ExecutedOf(s.executed, id) == U64_MAX then
      Refused
    else
      Accepted(Effect(
        id,
        Some(if passed then episode.(passed := episode.passed + 1) else episode.(failed := episode.failed + 1)),
        Some((DisplayedTestId(id.package, id.binary, test, id.kind, id.stress), TestRow(passed, attempts))),
        [ExpectedTest(id, test, attempts, passed)],
        Lookup(s.populations, id),
        Some(ExecutedOf(s.executed, id) + 1),
        0, 0))
  }

  lemma SetSame<V>(m: map<SuiteIdentity, V>, id: SuiteIdentity)
    ensures Set(m, id, Lookup(m, id)) == m
  {
  }

  lemma SetsSame(s: State, id: SuiteIdentity)
    ensures Set(s.open, id, Lookup(s.open, id)) == s.open
    ensures Set(s.populations, id, Lookup(s.populations, id)) == s.populations
    ensures Set(s.executed, id, Lookup(s.executed, id)) == s.executed
    ensures s.expected + [] == s.expected
  {
    SetSame(s.open, id);
    SetSame(s.populations, id);
    SetSame(s.executed, id);
  }

  ghost function Perform(s: State, d: Outcome<Effect>): Outcome<State> {
    if d.Accepted? then Apply(s, d.value) else Refused
  }

  lemma TestIsDecideThenApply(source: Source, s: State, e: Event)
    requires e.Test?
    ensures Step(source, s, e) == Perform(s, Decide(source, s, e))
  {
    var candidates := Candidates(source, s.open, e.kind, e.key, e.test);
    if |candidates| == 1 {
      RecordIsDecideThenApply(s, Only(candidates), e.kind, e.test, e.attempts);
    }
  }

  lemma RecordIsDecideThenApply(s: State, id: SuiteIdentity, kind: TestEventKind, test: string, attempts: Attempts)
    requires id in s.open
    ensures Perform(s, DecideTest(s, id, kind, test, attempts))
         == if kind.Started? || kind.Ignored? then Accepted(s) else RecordStep(s, id, test, attempts, kind.Succeeded?)
  {
    SetsSame(s, id);
  }

  lemma StepIsDecideThenApply(source: Source, s: State, e: Event)
    ensures Step(source, s, e) == Perform(s, Decide(source, s, e))
  {
    match e
    case SuiteStarted(id, _) => SetsSame(s, id);
    case SuiteEnded(id, _, _, _, _) => SetsSame(s, id);
    case Test(_, _, _, _) => TestIsDecideThenApply(source, s, e);
    case Malformed =>
  }

  ghost predicate AgreeOnMap<V>(a: map<SuiteIdentity, V>, b: map<SuiteIdentity, V>, key: NameKey) {
    forall id: SuiteIdentity :: id.TestNameKey() == key ==> Lookup(a, id) == Lookup(b, id)
  }

  ghost predicate AgreeOn(s: State, t: State, key: NameKey) {
    && AgreeOnMap(s.open, t.open, key)
    && AgreeOnMap(s.populations, t.populations, key)
    && AgreeOnMap(s.executed, t.executed, key)
  }

  lemma DecidesUnderOwnKey(source: Source, s: State, e: Event)
    requires Decide(source, s, e).Accepted?
    ensures KeyOf(e) == Some(Decide(source, s, e).value.id.TestNameKey())
  {
  }

  lemma CandidatesAreLocal(source: Source, s: State, t: State, kind: TestEventKind, key: NameKey, test: string)
    requires AgreeOn(s, t, key)
    ensures Candidates(source, s.open, kind, key, test) == Candidates(source, t.open, kind, key, test)
    ensures Unlisted(source, s.open, key) == Unlisted(source, t.open, key)
  {
    assert forall id: SuiteIdentity :: id.TestNameKey() == key ==> Lookup(s.open, id) == Lookup(t.open, id);
  }

  lemma MayStartIsLocal(source: Source, s: State, t: State, id: SuiteIdentity, testCount: U64)
    requires AgreeOn(s, t, id.TestNameKey())
    ensures MayStart(source, s.open, id, testCount) == MayStart(source, t.open, id, testCount)
  {
    assert forall o: SuiteIdentity :: o.TestNameKey() == id.TestNameKey() ==> Lookup(s.open, o) == Lookup(t.open, o);
  }

  lemma DecideIsLocal(source: Source, s: State, t: State, e: Event)
    requires KeyOf(e).Some? ==> AgreeOn(s, t, KeyOf(e).value)
    ensures Decide(source, s, e) == Decide(source, t, e)
  {
    match e
    case SuiteStarted(id, testCount) =>
      MayStartIsLocal(source, s, t, id, testCount);
      AgreeAt(s, t, id);
    case SuiteEnded(id, _, _, _, _) => AgreeAt(s, t, id);
    case Test(kind, key, test, _) =>
      CandidatesAreLocal(source, s, t, kind, key, test);
      var candidates := Candidates(source, s.open, kind, key, test);
      if |candidates| == 1 {
        AgreeAt(s, t, Only(candidates));
      }
    case Malformed =>
  }

  lemma AgreeAt(s: State, t: State, id: SuiteIdentity)
    requires AgreeOn(s, t, id.TestNameKey())
    ensures Lookup(s.open, id) == Lookup(t.open, id)
    ensures Lookup(s.populations, id) == Lookup(t.populations, id)
    ensures Lookup(s.executed, id) == Lookup(t.executed, id)
  {
  }

  lemma ApplyKeepsOtherKeys(s: State, f: Effect, key: NameKey)
    requires Apply(s, f).Accepted? && f.id.TestNameKey() != key
    ensures AgreeOn(s, Apply(s, f).value, key)
  {
  }

  lemma SetsCommute<V>(m: map<SuiteIdentity, V>, a: SuiteIdentity, v: Option<V>, b: SuiteIdentity, w: Option<V>)
    requires a != b
    ensures Set(Set(m, a, v), b, w) == Set(Set(m, b, w), a, v)
  {
  }

  ghost function ApplyBoth(s: State, f: Effect, g: Effect): Outcome<State> {
    if Apply(s, f).Accepted? then Apply(Apply(s, f).value, g) else Refused
  }

  ghost predicate Compatible(s: State, f: Effect, g: Effect) {
    && s.suitePassed + f.passed + g.passed <= U64_MAX
    && s.suiteFailed + f.failed + g.failed <= U64_MAX
    && (f.row.Some? ==> f.row.value.0 !in s.results)
    && (g.row.Some? ==> g.row.value.0 !in s.results)
    && (f.row.Some? && g.row.Some? ==> f.row.value.0 != g.row.value.0)
  }

  lemma BothApplyWhenCompatible(s: State, f: Effect, g: Effect)
    ensures ApplyBoth(s, f, g).Accepted? <==> Compatible(s, f, g)
  {
  }

  lemma AppliesCommute(s: State, f: Effect, g: Effect)
    requires f.id != g.id
    ensures SameOutcome(ApplyBoth(s, f, g), ApplyBoth(s, g, f))
  {
    BothApplyWhenCompatible(s, f, g);
    BothApplyWhenCompatible(s, g, f);
    if Compatible(s, f, g) {
      var fg, gf := ApplyBoth(s, f, g).value, ApplyBoth(s, g, f).value;
      assert fg.open == gf.open by { SetsCommute(s.open, f.id, f.episode, g.id, g.episode); }
      assert fg.populations == gf.populations by { SetsCommute(s.populations, f.id, f.population, g.id, g.population); }
      assert fg.executed == gf.executed by { SetsCommute(s.executed, f.id, f.executed, g.id, g.executed); }
      assert fg.results == gf.results by { RowsCommute(s.results, f.row, g.row); }
      assert fg.expected == s.expected + f.expected + g.expected;
      assert gf.expected == s.expected + g.expected + f.expected;
    }
  }

  lemma RowsCommute(results: map<string, TestRow>, f: Option<(string, TestRow)>, g: Option<(string, TestRow)>)
    requires f.Some? && g.Some? ==> f.value.0 != g.value.0
    ensures f.Some? && g.Some? ==>
              results[f.value.0 := f.value.1][g.value.0 := g.value.1]
                == results[g.value.0 := g.value.1][f.value.0 := f.value.1]
  {
  }

  // ----- Runs -----

  lemma StepsCommute(source: Source, s: State, a: Event, b: Event)
    requires KeyOf(a) != KeyOf(b)
    ensures SameOutcome(Then(source, Step(source, s, a), b), Then(source, Step(source, s, b), a))
  {
    StepIsDecideThenApply(source, s, a);
    StepIsDecideThenApply(source, s, b);
    var da, db := Decide(source, s, a), Decide(source, s, b);
    if da.Accepted? { DecidesUnderOwnKey(source, s, a); SecondIsIndependent(source, s, da.value, b); }
    if db.Accepted? { DecidesUnderOwnKey(source, s, b); SecondIsIndependent(source, s, db.value, a); }
    if da.Accepted? && db.Accepted? {
      AppliesCommute(s, da.value, db.value);
    }
  }

  /** After an effect under another key, a line does what it would have done before it. */
  lemma SecondIsIndependent(source: Source, s: State, f: Effect, e: Event)
    requires KeyOf(e) != Some(f.id.TestNameKey())
    ensures Then(source, Apply(s, f), e)
         == (if Decide(source, s, e).Accepted? then ApplyBoth(s, f, Decide(source, s, e).value) else Refused)
  {
    if Apply(s, f).Accepted? {
      var t := Apply(s, f).value;
      if KeyOf(e).Some? {
        ApplyKeepsOtherKeys(s, f, KeyOf(e).value);
      }
      DecideIsLocal(source, s, t, e);
      StepIsDecideThenApply(source, t, e);
    }
  }

  lemma StepRespectsSame(source: Source, s: State, t: State, e: Event)
    requires Same(s, t)
    ensures SameOutcome(Step(source, s, e), Step(source, t, e))
  {
    assert Step(source, s, e) == Perform(s, Decide(source, s, e)) by { StepIsDecideThenApply(source, s, e); }
    assert Step(source, t, e) == Perform(t, Decide(source, t, e)) by { StepIsDecideThenApply(source, t, e); }
    assert Decide(source, s, e) == Decide(source, t, e) by { DecideIsLocal(source, s, t, e); }
    PerformRespectsSame(s, t, Decide(source, s, e));
  }

  lemma PerformRespectsSame(s: State, t: State, d: Outcome<Effect>)
    requires Same(s, t)
    ensures SameOutcome(Perform(s, d), Perform(t, d))
  {
  }

  lemma {:induction false} RunRespectsSame(source: Source, s: State, t: State, events: seq<Event>)
    requires Same(s, t)
    ensures SameOutcome(Run(source, s, events), Run(source, t, events))
    decreases |events|
  {
    if events != [] {
      StepRespectsSame(source, s, t, events[0]);
      if Step(source, s, events[0]).Accepted? {
        RunRespectsSame(source, Step(source, s, events[0]).value, Step(source, t, events[0]).value, events[1..]);
      }
    }
  }

  ghost function RunOn(source: Source, r: Outcome<State>, events: seq<Event>): Outcome<State> {
    if r.Accepted? then Run(source, r.value, events) else Refused
  }

  lemma RunFirst(source: Source, s: State, a: Event, rest: seq<Event>)
    ensures Run(source, s, [a] + rest) == RunOn(source, Step(source, s, a), rest)
  {
    assert ([a] + rest)[1..] == rest;
  }

  lemma RunTwo(source: Source, s: State, a: Event, b: Event, rest: seq<Event>)
    ensures Run(source, s, [a, b] + rest) == RunOn(source, Then(source, Step(source, s, a), b), rest)
  {
    assert ([a, b] + rest)[1..] == [b] + rest;
    assert ([b] + rest)[1..] == rest;
  }

  /** Swapping two adjacent lines of different keys changes nothing but the order of the expected attempts. */
  lemma SwapAdjacent(source: Source, s: State, a: Event, b: Event, rest: seq<Event>)
    requires KeyOf(a) != KeyOf(b)
    ensures SameOutcome(Run(source, s, [a, b] + rest), Run(source, s, [b, a] + rest))
  {
    RunTwo(source, s, a, b, rest);
    RunTwo(source, s, b, a, rest);
    StepsCommute(source, s, a, b);
    var ab, ba := Then(source, Step(source, s, a), b), Then(source, Step(source, s, b), a);
    if ab.Accepted? {
      RunRespectsSame(source, ab.value, ba.value, rest);
    }
  }

  lemma {:induction false} MoveToFront(source: Source, s: State, before: seq<Event>, x: Event, after: seq<Event>)
    requires forall e :: e in before ==> KeyOf(e) != KeyOf(x)
    ensures SameOutcome(Run(source, s, before + [x] + after), Run(source, s, [x] + before + after))
    decreases |before|
  {
    if before == [] {
      assert before + [x] + after == [x] + before + after;
    } else {
      var y, rest := before[0], before[1..];
      assert before + [x] + after == [y] + (rest + [x] + after);
      RunFirst(source, s, y, rest + [x] + after);
      RunFirst(source, s, y, [x] + rest + after);
      if Step(source, s, y).Accepted? {
        MoveToFront(source, Step(source, s, y).value, rest, x, after);
      }
      SwapAdjacent(source, s, y, x, rest + after);
      assert [y, x] + (rest + after) == [y] + ([x] + rest + after);
      assert [x, y] + (rest + after) == [x] + before + after;
    }
  }

  // ----- All interleavings -----

  /** The lines of one key, in order. */
  ghost function Lines(events: seq<Event>, key: Option<NameKey>): seq<Event>
    decreases |events|
  {
    if events == [] then []
    else (if KeyOf(events[0]) == key then [events[0]] else []) + Lines(events[1..], key)
  }

  lemma {:induction false} LinesAppend(a: seq<Event>, b: seq<Event>, key: Option<NameKey>)
    ensures Lines(a + b, key) == Lines(a, key) + Lines(b, key)
    decreases |a|
  {
    if a == [] {
      assert a + b == b;
    } else {
      var head: seq<Event> := if KeyOf(a[0]) == key then [a[0]] else [];
      assert (a + b)[1..] == a[1..] + b;
      LinesAppend(a[1..], b, key);
      assert Lines(a + b, key) == head + (Lines(a[1..], key) + Lines(b, key));
      assert Lines(a, key) == head + Lines(a[1..], key);
    }
  }

  /** The first line of a key splits the stream. */
  lemma {:induction false} FirstLine(events: seq<Event>, key: Option<NameKey>)
    returns (before: seq<Event>, after: seq<Event>)
    requires Lines(events, key) != []
    ensures events == before + [Lines(events, key)[0]] + after
    ensures forall e :: e in before ==> KeyOf(e) != key
    ensures Lines(before, key) == []
    decreases |events|
  {
    if KeyOf(events[0]) == key {
      before, after := [], events[1..];
    } else {
      var tail;
      tail, after := FirstLine(events[1..], key);
      before := [events[0]] + tail;
      assert ([events[0]] + tail)[1..] == tail;
    }
  }

  /** The first line of one stream, found in the other, leaves the same lines per key behind. */
  lemma SameLinesAfterFirst(xs: seq<Event>, ys: seq<Event>) returns (before: seq<Event>, after: seq<Event>)
    requires xs != [] && forall key :: Lines(xs, key) == Lines(ys, key)
    ensures ys == before + [xs[0]] + after && forall e :: e in before ==> KeyOf(e) != KeyOf(xs[0])
    ensures forall key :: Lines(xs[1..], key) == Lines(before + after, key)
  {
    var key := KeyOf(xs[0]);
    assert Lines(xs, key)[0] == xs[0];
    before, after := FirstLine(ys, key);
    forall k ensures Lines(xs[1..], k) == Lines(before + after, k) {
      RestLines(xs, ys, before, after, k);
    }
  }

  /** Two streams with the same lines per key, interleaved in any two ways, reduce alike. */
  lemma {:induction false} InterleavingsAgree(source: Source, s: State, xs: seq<Event>, ys: seq<Event>)
    requires forall key :: Lines(xs, key) == Lines(ys, key)
    ensures SameOutcome(Run(source, s, xs), Run(source, s, ys))
    ensures xs == [] <==> ys == []
    decreases |xs|
  {
    if xs == [] {
      var key := if ys == [] then None else KeyOf(ys[0]);
      assert Lines(xs, key) == Lines(ys, key);
    } else {
      var x := xs[0];
      var before, after := SameLinesAfterFirst(xs, ys);
      MoveToFront(source, s, before, x, after);
      var rest := before + after;
      assert ([x] + before + after)[1..] == rest;
      if Step(source, s, x).Accepted? {
        InterleavingsAgree(source, Step(source, s, x).value, xs[1..], rest);
      }
    }
  }

  lemma {:induction false} RestLines(xs: seq<Event>, ys: seq<Event>, before: seq<Event>, after: seq<Event>,
                                     key: Option<NameKey>)
    requires xs != [] && ys == before + [xs[0]] + after
    requires Lines(before, KeyOf(xs[0])) == []
    requires Lines(xs, key) == Lines(ys, key)
    ensures Lines(xs[1..], key) == Lines(before + after, key)
  {
    var x := [xs[0]];
    LinesAppend(before, after, key);
    LinesAppend(before + x, after, key);
    LinesAppend(before, x, key);
    assert Lines(x, key) == if KeyOf(xs[0]) == key then x else [];
    Cancel(Lines(before, key), Lines(x, key), Lines(after, key), Lines(xs[1..], key));
  }

  lemma Cancel<T>(before: seq<T>, x: seq<T>, after: seq<T>, rest: seq<T>)
    requires before + x + after == x + rest
    requires before == [] || x == []
    ensures rest == before + after
  {
    assert rest == (x + rest)[|x|..];
    assert (before + x + after)[|x|..] == before + after;
  }

  /**
   * Order independence of the reducer: for streams with the same lines per key, both are refused,
   * or both are accepted with the same results and counts and the same expected attempts as a multiset.
   */
  lemma ReductionIsOrderIndependent(source: Source, xs: seq<Event>, ys: seq<Event>)
    requires forall key :: Lines(xs, key) == Lines(ys, key)
    ensures var a, b := Reduced(source, xs), Reduced(source, ys);
            && a.Accepted? == b.Accepted?
            && (a.Accepted? ==>
                  && a.value.(expected := []) == b.value.(expected := [])
                  && multiset(a.value.expected) == multiset(b.value.expected))
  {
    InterleavingsAgree(source, INITIAL, xs, ys);
    var s, t := Run(source, INITIAL, xs), Run(source, INITIAL, ys);
    if s.Accepted? {
      assert Skipped(s.value) == Skipped(t.value);
    }
  }
}
