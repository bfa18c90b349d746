/** What every prefix of an event stream keeps: attribution, conservation and the reported populations. */
module NextestSafety {
  import opened Base
  import opened Totals
  import opened NextestInventory
  import opened NextestEvents

  lemma {:induction false} RunAppend(source: Source, s: State, events: seq<Event>, e: Event)
    ensures Run(source, s, events + [e]) == match Run(source, s, events)
                                            case Refused => Refused
                                            case Accepted(t) => Step(source, t, e)
    decreases |events|
  {
    if events == [] {
      assert (events + [e])[1..] == [];
    } else {
      assert (events + [e])[1..] == events[1..] + [e];
      match Step(source, s, events[0])
      case Refused =>
      case Accepted(next) => RunAppend(source, next, events[1..], e);
    }
  }

  // ----- Attribution -----

  /** Open suites sharing a name key never share a test name they may start, and all are in the inventory. */
  ghost predicate Attributable(source: Source, s: State) {
    && (forall id :: id in s.open && source.Some? ==> source.value.Suite(id).Accepted?)
    && (forall a, b :: a in s.open && b in s.open && a != b && a.TestNameKey() == b.TestNameKey() ==>
           Separated(source, a, b))
  }

  lemma StepKeepsAttribution(source: Source, s: State, e: Event)
    requires Attributable(source, s) && Step(source, s, e).Accepted?
    ensures Attributable(source, Step(source, s, e).value)
  {
    var t := Step(source, s, e).value;
    if e.SuiteStarted? {
      forall a, b | a in t.open && b in t.open && a != b && a.TestNameKey() == b.TestNameKey()
        ensures Separated(source, a, b)
      {
        if b == e.suite {
          assert Separated(source, b, a);
        }
      }
    } else {
      assert t.open.Keys <= s.open.Keys;
    }
  }

  lemma {:induction false} RunKeepsAttribution(source: Source, s: State, events: seq<Event>)
    requires Attributable(source, s) && Run(source, s, events).Accepted?
    ensures Attributable(source, Run(source, s, events).value)
    decreases |events|
  {
    if events != [] {
      StepKeepsAttribution(source, s, events[0]);
      RunKeepsAttribution(source, Step(source, s, events[0]).value, events[1..]);
    }
  }

  /**
   * After every accepted prefix, every test event names at most one open suite, so a refusal for
   * ambiguity can only mean that none is eligible; and no open suite is missing from the inventory.
   */
  lemma AttributionSafety(source: Source, events: seq<Event>, kind: TestEventKind, key: NameKey, test: string)
    requires Run(source, INITIAL, events).Accepted?
    ensures var s := Run(source, INITIAL, events).value;
            && Attributable(source, s)
            && |Candidates(source, s.open, kind, key, test)| <= 1
            && !Unlisted(source, s.open, key)
  {
    RunKeepsAttribution(source, INITIAL, events);
    var s := Run(source, INITIAL, events).value;
    var candidates := Candidates(source, s.open, kind, key, test);
    forall a, b | a in candidates && b in candidates ensures a == b {
      assert a != b ==> Separated(source, a, b);
    }
    if candidates != {} {
      var id :| id in candidates;
      assert candidates == {id};
    }
  }

  /** Without an inventory no two suites that share a name key are ever open together. */
  lemma KeysUniqueWithoutInventory(events: seq<Event>, a: SuiteIdentity, b: SuiteIdentity)
    requires Run(None, INITIAL, events).Accepted?
    requires var open := Run(None, INITIAL, events).value.open; a in open && b in open
    ensures a.TestNameKey() == b.TestNameKey() ==> a == b
  {
    RunKeepsAttribution(None, INITIAL, events);
    assert !Separated(None, a, b);
  }

  // ----- Conservation -----

  ghost function Passing<K>(results: map<K, TestRow>): set<K> {
    set id | id in results && results[id].passed
  }

  ghost function OpenPassed(open: map<SuiteIdentity, Episode>): map<SuiteIdentity, int> {
    map id | id in open :: open[id].passed
  }

  ghost function OpenFailed(open: map<SuiteIdentity, Episode>): map<SuiteIdentity, int> {
    map id | id in open :: open[id].failed
  }

  /** Every result row is accounted for once: by a closed episode's record or by an open episode's count. */
  ghost predicate Conserved(s: State) {
    && |Passing(s.results)| == s.suitePassed + Total(OpenPassed(s.open))
    && |s.results| - |Passing(s.results)| == s.suiteFailed + Total(OpenFailed(s.open))
    && |s.results| == Total(s.executed)
    && s.executed.Keys <= s.populations.Keys + s.open.Keys
  }

  lemma InsertRow<K>(results: map<K, TestRow>, id: K, row: TestRow)
    requires id !in results
    ensures |results[id := row]| == |results| + 1
    ensures |Passing(results[id := row])| == |Passing(results)| + (if row.passed then 1 else 0)
  {
    var after := results[id := row];
    assert after.Keys == results.Keys + {id};
    if row.passed {
      assert Passing(after) == Passing(results) + {id};
    } else {
      assert Passing(after) == Passing(results);
    }
  }

  lemma UpdateEpisode(open: map<SuiteIdentity, Episode>, id: SuiteIdentity, episode: Episode)
    ensures Total(OpenPassed(open[id := episode]))
            == Total(OpenPassed(open)) + episode.passed - (if id in open then open[id].passed else 0)
    ensures Total(OpenFailed(open[id := episode]))
            == Total(OpenFailed(open)) + episode.failed - (if id in open then open[id].failed else 0)
  {
    assert OpenPassed(open[id := episode]) == OpenPassed(open)[id := episode.passed];
    assert OpenFailed(open[id := episode]) == OpenFailed(open)[id := episode.failed];
    TotalUpdate(OpenPassed(open), id, episode.passed);
    TotalUpdate(OpenFailed(open), id, episode.failed);
  }

  lemma CloseEpisode(open: map<SuiteIdentity, Episode>, id: SuiteIdentity)
    requires id in open
    ensures Total(OpenPassed(open - {id})) == Total(OpenPassed(open)) - open[id].passed
    ensures Total(OpenFailed(open - {id})) == Total(OpenFailed(open)) - open[id].failed
  {
    assert OpenPassed(open - {id}) == OpenPassed(open) - {id};
    assert OpenFailed(open - {id}) == OpenFailed(open) - {id};
    TotalRemove(OpenPassed(open), id);
    TotalRemove(OpenFailed(open), id);
  }

  lemma RecordCounts(s: State, id: SuiteIdentity, test: string, attempts: Attempts, passed: bool)
    requires id in s.open && RecordStep(s, id, test, attempts, passed).Accepted?
    ensures var t := RecordStep(s, id, test, attempts, passed).value;
            && Total(OpenPassed(t.open)) == Total(OpenPassed(s.open)) + (if passed then 1 else 0)
            && Total(OpenFailed(t.open)) == Total(OpenFailed(s.open)) + (if passed then 0 else 1)
            && Total(t.executed) == Total(s.executed) + 1
  {
    var t := RecordStep(s, id, test, attempts, passed).value;
    UpdateEpisode(s.open, id, t.open[id]);
    TotalUpdate(s.executed, id, t.executed[id]);
  }

  lemma RecordRows(s: State, id: SuiteIdentity, test: string, attempts: Attempts, passed: bool)
    requires id in s.open && RecordStep(s, id, test, attempts, passed).Accepted?
    ensures var t := RecordStep(s, id, test, attempts, passed).value;
            && |t.results| == |s.results| + 1
            && |Passing(t.results)| == |Passing(s.results)| + (if passed then 1 else 0)
  {
    var row := DisplayedTestId(id.package, id.binary, test, id.kind, id.stress);
    InsertRow(s.results, row, TestRow(passed, attempts));
  }

  lemma RecordConserves(s: State, id: SuiteIdentity, test: string, attempts: Attempts, passed: bool)
    requires id in s.open && Conserved(s) && RecordStep(s, id, test, attempts, passed).Accepted?
    ensures Conserved(RecordStep(s, id, test, attempts, passed).value)
  {
    RecordCounts(s, id, test, attempts, passed);
    RecordRows(s, id, test, attempts, passed);
  }

  lemma StartConserves(source: Source, s: State, id: SuiteIdentity, testCount: U64)
    requires Conserved(s) && StartStep(source, s, id, testCount).Accepted?
    ensures Conserved(StartStep(source, s, id, testCount).value)
  {
    UpdateEpisode(s.open, id, Episode(testCount, 0, 0));
  }

  lemma EndConserves(source: Source, s: State, id: SuiteIdentity, passed: U64, failed: U64, ignored: U64,
                     filteredOut: U64)
    requires Conserved(s) && EndStep(source, s, id, passed, failed, ignored, filteredOut).Accepted?
    ensures Conserved(EndStep(source, s, id, passed, failed, ignored, filteredOut).value)
  {
    CloseEpisode(s.open, id);
  }

  lemma TestConserves(source: Source, s: State, kind: TestEventKind, key: NameKey, test: string, attempts: Attempts)
    requires Conserved(s) && TestStep(source, s, kind, key, test, attempts).Accepted?
    ensures Conserved(TestStep(source, s, kind, key, test, attempts).value)
  {
    if kind.Succeeded? || kind.Failed? {
      RecordConserves(s, Only(Candidates(source, s.open, kind, key, test)), test, attempts, kind.Succeeded?);
    }
  }

  lemma StepConserves(source: Source, s: State, e: Event)
    requires Conserved(s) && Step(source, s, e).Accepted?
    ensures Conserved(Step(source, s, e).value)
  {
    match e
    case SuiteStarted(id, testCount) => StartConserves(source, s, id, testCount);
    case SuiteEnded(id, passed, failed, ignored, filteredOut) =>
      EndConserves(source, s, id, passed, failed, ignored, filteredOut);
    case Test(kind, key, test, attempts) => TestConserves(source, s, kind, key, test, attempts);
  }

  lemma {:induction false} RunConserves(source: Source, s: State, events: seq<Event>)
    requires Conserved(s) && Run(source, s, events).Accepted?
    ensures Conserved(Run(source, s, events).value)
    decreases |events|
  {
    if events != [] {
      StepConserves(source, s, events[0]);
      RunConserves(source, Step(source, s, events[0]).value, events[1..]);
    }
  }

  lemma ReachableConserved(source: Source, events: seq<Event>)
    requires Run(source, INITIAL, events).Accepted?
    ensures Conserved(Run(source, INITIAL, events).value)
  {
    assert Passing(INITIAL.results) == {};
    assert OpenPassed(INITIAL.open) == map[];
    assert OpenFailed(INITIAL.open) == map[];
    RunConserves(source, INITIAL, events);
  }

  lemma ClosedTotals(s: State)
    requires Conserved(s) && s.open == map[]
    ensures s.suitePassed + s.suiteFailed == |s.results| == Total(s.executed)
    ensures s.executed.Keys <= s.populations.Keys
  {
    assert OpenPassed(s.open) == map[] && OpenFailed(s.open) == map[];
  }

  /**
   * The final aggregate comparison can never be what refuses: a stream is accepted exactly when its
   * run is, no suite is left open, and the populations cover the executed rows.
   */
  lemma AggregateNeverRefuses(source: Source, events: seq<Event>)
    ensures Reduced(source, events).Accepted? <==>
            && events != []
            && Run(source, INITIAL, events).Accepted?
            && var s := Run(source, INITIAL, events).value;
               s.open == map[] && |s.results| <= U64_MAX && PopulationsCover(s)
  {
    if Run(source, INITIAL, events).Accepted? {
      ReachableConserved(source, events);
      FinishExactly(Run(source, INITIAL, events).value);
    }
  }

  lemma FinishExactly(s: State)
    requires Conserved(s)
    ensures Finish(s).Accepted? <==> s.open == map[] && |s.results| <= U64_MAX && PopulationsCover(s)
  {
    if s.open == map[] {
      ClosedTotals(s);
    }
  }

  // ----- Every terminal line is one row -----

  predicate IsTerminal(e: Event) {
    e.Test? && (e.kind.Succeeded? || e.kind.Failed?)
  }

  ghost function TerminalLines(events: seq<Event>): (lines: seq<Event>)
    ensures forall i :: 0 <= i < |lines| ==> IsTerminal(lines[i])
  {
    if events == [] then []
    else
      var e := events[|events| - 1];
      TerminalLines(events[..|events| - 1]) + if IsTerminal(e) then [e] else []
  }

  /** The expectation is the line's own, under a suite the line could mean. */
  ghost predicate Records(source: Source, e: Event, x: ExpectedTest)
    requires IsTerminal(e)
  {
    && Candidate(source, x.suite, e.kind, e.key, e.test)
    && x.test == e.test && x.attempts == e.attempts && x.passed == e.kind.Succeeded?
  }

  function RowId(x: ExpectedTest): string {
    DisplayedTestId(x.suite.package, x.suite.binary, x.test, x.suite.kind, x.suite.stress)
  }

  /** How many lines report a success. */
  ghost function Successes(lines: seq<Event>): nat
    requires forall i :: 0 <= i < |lines| ==> IsTerminal(lines[i])
  {
    if lines == [] then 0
    else
      assert IsTerminal(lines[|lines| - 1]);
      Successes(lines[..|lines| - 1]) + if lines[|lines| - 1].kind.Succeeded? then 1 else 0
  }

  ghost predicate LinesMatch(source: Source, terminal: seq<Event>, expected: seq<ExpectedTest>) {
    && |terminal| == |expected|
    && forall i :: 0 <= i < |terminal| ==> IsTerminal(terminal[i]) && Records(source, terminal[i], expected[i])
  }

  ghost predicate RowsMatch(expected: seq<ExpectedTest>, results: map<string, TestRow>) {
    && |results| == |expected|
    && forall i :: 0 <= i < |expected| ==>
         && RowId(expected[i]) in results
         && results[RowId(expected[i])] == TestRow(expected[i].passed, expected[i].attempts)
  }

  /** The expectations are the terminal lines in order, and the results are exactly their rows, none sharing an id. */
  ghost predicate Recorded(source: Source, terminal: seq<Event>, s: State) {
    && LinesMatch(source, terminal, s.expected)
    && RowsMatch(s.expected, s.results)
    && Successes(terminal) == |Passing(s.results)|
  }

  lemma RowsMatchNext(expected: seq<ExpectedTest>, results: map<string, TestRow>, x: ExpectedTest)
    requires RowsMatch(expected, results) && RowId(x) !in results
    ensures RowsMatch(expected + [x], results[RowId(x) := TestRow(x.passed, x.attempts)])
  {
    InsertRow(results, RowId(x), TestRow(x.passed, x.attempts));
  }

  lemma SuccessesNext(source: Source, terminal: seq<Event>, expected: seq<ExpectedTest>, e: Event, x: ExpectedTest)
    requires LinesMatch(source, terminal, expected) && IsTerminal(e) && Records(source, e, x)
    ensures LinesMatch(source, terminal + [e], expected + [x])
    ensures Successes(terminal + [e]) == Successes(terminal) + if x.passed then 1 else 0
  {
    assert (terminal + [e])[..|terminal|] == terminal;
  }

  /** What recording a row does to the results and the expectations. */
  lemma RecordAppends(s: State, id: SuiteIdentity, test: string, attempts: Attempts, passed: bool)
    requires id in s.open && RecordStep(s, id, test, attempts, passed).Accepted?
    ensures var x, t := ExpectedTest(id, test, attempts, passed), RecordStep(s, id, test, attempts, passed).value;
            && RowId(x) !in s.results
            && t.expected == s.expected + [x]
            && t.results == s.results[RowId(x) := TestRow(passed, attempts)]
  {
  }

  lemma RowRecorded(source: Source, terminal: seq<Event>, s: State, t: State, e: Event, x: ExpectedTest)
    requires Recorded(source, terminal, s) && IsTerminal(e) && Records(source, e, x) && RowId(x) !in s.results
    requires t.expected == s.expected + [x] && t.results == s.results[RowId(x) := TestRow(x.passed, x.attempts)]
    ensures Recorded(source, terminal + [e], t)
  {
    assert RowsMatch(t.expected, t.results) by { RowsMatchNext(s.expected, s.results, x); }
    SuccessesNext(source, terminal, s.expected, e, x);
    assert |Passing(t.results)| == |Passing(s.results)| + (if x.passed then 1 else 0) by {
      InsertRow(s.results, RowId(x), TestRow(x.passed, x.attempts));
    }
  }

  lemma StepRecords(source: Source, terminal: seq<Event>, s: State, e: Event)
    requires Recorded(source, terminal, s) && Step(source, s, e).Accepted?
    ensures Recorded(source, terminal + if IsTerminal(e) then [e] else [], Step(source, s, e).value)
  {
    if IsTerminal(e) {
      var id := Only(Candidates(source, s.open, e.kind, e.key, e.test));
      assert id in Candidates(source, s.open, e.kind, e.key, e.test);
      RecordAppends(s, id, e.test, e.attempts, e.kind.Succeeded?);
      var x := ExpectedTest(id, e.test, e.attempts, e.kind.Succeeded?);
      RowRecorded(source, terminal, s, Step(source, s, e).value, e, x);
    } else {
      assert terminal + [] == terminal;
    }
  }

  lemma {:induction false} RunRecords(source: Source, events: seq<Event>)
    requires Run(source, INITIAL, events).Accepted?
    ensures Recorded(source, TerminalLines(events), Run(source, INITIAL, events).value)
    decreases |events|
  {
    if events != [] {
      var prefix, e := events[..|events| - 1], events[|events| - 1];
      assert events == prefix + [e];
      RunAppend(source, INITIAL, prefix, e);
      RunRecords(source, prefix);
      StepRecords(source, TerminalLines(prefix), Run(source, INITIAL, prefix).value, e);
    }
  }

  /** On acceptance the results and the expected attempts are the terminal lines, each once and unaltered. */
  lemma AcceptedRowsAreTerminalLines(source: Source, events: seq<Event>)
    requires Reduced(source, events).Accepted?
    ensures var parsed, lines := Reduced(source, events).value, TerminalLines(events);
            && parsed.executed == |lines| == |parsed.expected| == |parsed.results|
            && Successes(lines) == |Passing(parsed.results)|
            && forall i :: 0 <= i < |lines| ==>
                 && Records(source, lines[i], parsed.expected[i])
                 && RowId(parsed.expected[i]) in parsed.results
                 && parsed.results[RowId(parsed.expected[i])]
                      == TestRow(parsed.expected[i].passed, parsed.expected[i].attempts)
  {
    RunRecords(source, events);
  }

  // ----- The populations are the largest ever reported -----

  predicate TouchesSuite(e: Event, id: SuiteIdentity) {
    (e.SuiteStarted? || e.SuiteEnded?) && e.suite == id
  }

  /** Lines `i` and `j` open and close one episode of `id`. */
  ghost predicate IsEpisode(events: seq<Event>, id: SuiteIdentity, i: nat, j: nat) {
    && i < j < |events|
    && events[i].SuiteStarted? && events[i].suite == id
    && events[j].SuiteEnded? && events[j].suite == id
    && forall k :: i < k < j ==> !TouchesSuite(events[k], id)
  }

  ghost function EpisodePopulation(events: seq<Event>, i: nat, j: nat): Outcome<U64>
    requires i < |events| && j < |events| && events[i].SuiteStarted? && events[j].SuiteEnded?
  {
    SuitePopulation(events[i].testCount, events[j].passed, events[j].failed, events[j].ignored, events[j].filteredOut)
  }

  /** Some episode of `id` reports `population`. */
  ghost predicate Reported(events: seq<Event>, id: SuiteIdentity, population: U64) {
    exists i: nat, j: nat :: IsEpisode(events, id, i, j) && EpisodePopulation(events, i, j) == Accepted(population)
  }

  ghost predicate IsLargestReported(events: seq<Event>, id: SuiteIdentity, populations: map<SuiteIdentity, U64>) {
    && (id in populations ==> Reported(events, id, populations[id]))
    && (forall p: U64 :: Reported(events, id, p) ==> id in populations && p <= populations[id])
  }

  /** Line `i` opened the episode of `id` that is still open. */
  ghost predicate OpenedAt(events: seq<Event>, id: SuiteIdentity, i: nat, testCount: U64) {
    && i < |events|
    && events[i] == SuiteStarted(id, testCount)
    && forall k :: i < k < |events| ==> !TouchesSuite(events[k], id)
  }

  ghost predicate Faithful(events: seq<Event>, s: State) {
    && (forall id :: id in s.open ==> exists i: nat :: OpenedAt(events, id, i, s.open[id].testCount))
    && (forall id :: IsLargestReported(events, id, s.populations))
  }

  lemma ReportsKept(events: seq<Event>, e: Event, id: SuiteIdentity, p: U64)
    requires Reported(events, id, p)
    ensures Reported(events + [e], id, p)
  {
    var i: nat, j: nat :| IsEpisode(events, id, i, j) && EpisodePopulation(events, i, j) == Accepted(p);
    assert IsEpisode(events + [e], id, i, j);
  }

  /** A new report can only come from the line just read, closing the open episode. */
  lemma ReportsNew(events: seq<Event>, e: Event, id: SuiteIdentity, p: U64)
    requires Reported(events + [e], id, p) && !Reported(events, id, p)
    ensures e.SuiteEnded? && e.suite == id
    ensures forall i: nat, testCount: U64 :: OpenedAt(events, id, i, testCount) ==>
              SuitePopulation(testCount, e.passed, e.failed, e.ignored, e.filteredOut) == Accepted(p)
  {
    var after := events + [e];
    var i: nat, j: nat :| IsEpisode(after, id, i, j) && EpisodePopulation(after, i, j) == Accepted(p);
    if j < |events| {
      assert forall k :: i < k < j ==> after[k] == events[k];
      assert IsEpisode(events, id, i, j);
    }
    assert j == |events| && after[j] == e;
    forall i': nat, testCount: U64 | OpenedAt(events, id, i', testCount) ensures i' == i {
      assert TouchesSuite(after[i], id) && TouchesSuite(after[i'], id);
      assert after[i] == events[i] && after[i'] == events[i'];
    }
  }

  lemma OpenedAtKept(events: seq<Event>, e: Event, id: SuiteIdentity, i: nat, testCount: U64)
    requires OpenedAt(events, id, i, testCount) && !TouchesSuite(e, id)
    ensures OpenedAt(events + [e], id, i, testCount)
  {
  }

  lemma StepKeepsOpenings(source: Source, events: seq<Event>, s: State, e: Event)
    requires Faithful(events, s) && Step(source, s, e).Accepted?
    ensures var t := Step(source, s, e).value;
            forall id :: id in t.open ==> exists i: nat :: OpenedAt(events + [e], id, i, t.open[id].testCount)
  {
    var t := Step(source, s, e).value;
    forall id | id in t.open ensures exists i: nat :: OpenedAt(events + [e], id, i, t.open[id].testCount) {
      StepOpens(source, s, e, id);
      OpeningKept(events, s.open, e, id, t.open[id].testCount);
    }
  }

  /** An open episode is the one just started, or was open before with the same start count. */
  lemma StepOpens(source: Source, s: State, e: Event, id: SuiteIdentity)
    requires Step(source, s, e).Accepted? && id in Step(source, s, e).value.open
    ensures var testCount := Step(source, s, e).value.open[id].testCount;
            || e == SuiteStarted(id, testCount)
            || (!TouchesSuite(e, id) && id in s.open && s.open[id].testCount == testCount)
  {
  }

  lemma OpeningKept(events: seq<Event>, open: map<SuiteIdentity, Episode>, e: Event, id: SuiteIdentity, testCount: U64)
    requires || e == SuiteStarted(id, testCount)
             || (!TouchesSuite(e, id) && id in open && open[id].testCount == testCount)
    requires id in open ==> exists i: nat :: OpenedAt(events, id, i, open[id].testCount)
    ensures exists i: nat :: OpenedAt(events + [e], id, i, testCount)
  {
    if e == SuiteStarted(id, testCount) {
      assert OpenedAt(events + [e], id, |events|, testCount);
    } else {
      var i: nat :| OpenedAt(events, id, i, testCount);
      OpenedAtKept(events, e, id, i, testCount);
    }
  }

  lemma StepKeepsReports(source: Source, events: seq<Event>, s: State, e: Event, id: SuiteIdentity)
    requires Faithful(events, s) && Step(source, s, e).Accepted?
    ensures IsLargestReported(events + [e], id, Step(source, s, e).value.populations)
  {
    var t := Step(source, s, e).value;
    assert IsLargestReported(events, id, s.populations);
    if id in s.populations {
      ReportsKept(events, e, id, s.populations[id]);
    }
    if e.SuiteEnded? && e.suite == id {
      var i: nat :| OpenedAt(events, id, i, s.open[id].testCount);
      assert IsEpisode(events + [e], id, i, |events|);
      assert EpisodePopulation(events + [e], i, |events|)
          == SuitePopulation(s.open[id].testCount, e.passed, e.failed, e.ignored, e.filteredOut);
    }
    forall p: U64 | Reported(events + [e], id, p) ensures id in t.populations && p <= t.populations[id] {
      if !Reported(events, id, p) {
        ReportsNew(events, e, id, p);
      }
    }
  }

  lemma {:induction false} RunFaithful(source: Source, events: seq<Event>)
    requires Run(source, INITIAL, events).Accepted?
    ensures Faithful(events, Run(source, INITIAL, events).value)
    decreases |events|
  {
    if events != [] {
      var prefix, e := events[..|events| - 1], events[|events| - 1];
      assert events == prefix + [e];
      RunAppend(source, INITIAL, prefix, e);
      RunFaithful(source, prefix);
      var s := Run(source, INITIAL, prefix).value;
      StepKeepsOpenings(source, prefix, s, e);
      forall id ensures IsLargestReported(events, id, Step(source, s, e).value.populations) {
        StepKeepsReports(source, prefix, s, e, id);
      }
    }
  }

  ghost function FinalPopulations(source: Source, events: seq<Event>): map<SuiteIdentity, U64>
    requires Run(source, INITIAL, events).Accepted?
  {
    Run(source, INITIAL, events).value.populations
  }

  /**
   * On acceptance the executed and filtered counts together are the sum, over the suites that
   * reported at all, of the largest population any episode of the suite reported.
   */
  lemma AcceptedCountsArePopulations(source: Source, events: seq<Event>)
    requires Reduced(source, events).Accepted?
    ensures var parsed := Reduced(source, events).value;
            var populations := FinalPopulations(source, events);
            && parsed.executed == |parsed.results|
            && parsed.executed + parsed.filtered == Total(populations)
            && forall id :: IsLargestReported(events, id, populations)
  {
    ReachableConserved(source, events);
    RunFaithful(source, events);
    var s := Run(source, INITIAL, events).value;
    ClosedTotals(s);
    ExecutedEverywhere(s);
    forall id ensures IsLargestReported(events, id, FinalPopulations(source, events)) {
      assert IsLargestReported(events, id, s.populations);
    }
  }

  /** When every executed suite has a population, skipped and executed rows fill the populations. */
  lemma ExecutedEverywhere(s: State)
    requires s.executed.Keys <= s.populations.Keys
    ensures Total(Skipped(s)) + Total(s.executed) == Total(s.populations)
  {
    var padded: map<SuiteIdentity, int> := map id | id in s.populations :: ExecutedOf(s.executed, id);
    PadWithZeros(s.executed, padded);
    TotalAdd(Skipped(s), padded, s.populations);
  }

  lemma {:induction false} PadWithZeros(part: map<SuiteIdentity, int>, whole: map<SuiteIdentity, int>)
    requires part.Keys <= whole.Keys
    requires forall id :: id in whole ==> whole[id] == if id in part then part[id] else 0
    ensures Total(part) == Total(whole)
    decreases |whole|
  {
    if whole == map[] {
      assert part == map[];
    } else {
      var id :| id in whole;
      TotalRemove(whole, id);
      PadWithZeros(part - {id}, whole - {id});
      if id in part {
        TotalRemove(part, id);
      } else {
        assert part - {id} == part;
      }
    }
  }
}
