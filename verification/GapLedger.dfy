/** The known-gap node: which tests a run executes, which of them are required, and what each result counts as. */
module GapLedger {
  import opened Base
  import opened Tables

  /** How a ledger row's attempt must end, or that its test is not run. */
  datatype Expected = ExpectFailed | ExpectCpuTimeout | NotRun {
    predicate IsRun() { !NotRun? }
  }

  datatype Row = Row(id: string, outcome: Expected, signature: Option<string>)

  datatype Declaration = Declaration(prefix: string, proofTest: string, backend: string) {
    function ProofId(): string { prefix + proofTest }
  }

  /** A test of Nextest's list. */
  datatype Case = Case(ignored: bool, selected: bool)

  datatype AttemptOutcome = Passed | Failed | WallTimeout | CpuTimeout

  datatype Result = Result(id: string, passed: bool, attempts: nat)

  datatype Evidence = Evidence(
    results: Option<seq<Result>>,
    executed: nat,
    status: int,
    ends: map<string, AttemptOutcome>,
    outputs: map<string, string>,
    proof: Option<seq<string>>)

  const NEXTEST_TEST_FAILURES: int := 100

  // ----- The ledger's rules -----

  /** The test a row names, if its id carries the prefix. */
  function TestOf(d: Declaration, id: string): Option<string> {
    if d.prefix <= id then Some(id[|d.prefix|..]) else None
  }

  /** `known_gaps::check`: rows name tests that are not ignored, and the proof test is one and is no row. */
  predicate LedgerHolds(d: Declaration, rows: seq<Row>, tests: map<string, bool>) {
    && (forall row :: row in rows ==>
          TestOf(d, row.id).Some? && TestOf(d, row.id).value in tests && !tests[TestOf(d, row.id).value])
    && d.proofTest in tests && !tests[d.proofTest]
    && (forall row :: row in rows ==> row.id != d.ProofId())
  }

  function RunIds(rows: seq<Row>): set<string> {
    set row | row in rows && row.outcome.IsRun() :: row.id
  }

  function SkippedIds(rows: seq<Row>): set<string> {
    set row | row in rows && !row.outcome.IsRun() :: row.id
  }

  function SkippedTests(d: Declaration, rows: seq<Row>): set<string> {
    set row | row in rows && !row.outcome.IsRun() && TestOf(d, row.id).Some? :: TestOf(d, row.id).value
  }

  // ----- Listing -----

  predicate ListAgrees(listed: map<string, Case>, tests: map<string, bool>, skipped: set<string>) {
    && (forall t :: t in listed ==> t in tests)
    && (forall t :: t in tests ==> t in listed)
    && (forall t :: t in tests && t in listed ==> listed[t].ignored == tests[t])
    && (forall t :: t in listed ==> listed[t].ignored || listed[t].selected || t in skipped)
    && (forall t :: t in listed ==> !(listed[t].selected && t in skipped))
  }

  function ListedPopulation(d: Declaration, listed: map<string, Case>, tests: map<string, bool>, skipped: set<string>)
    : Outcome<set<string>>
  {
    if d.prefix == "" || d.prefix[|d.prefix| - 1] != '$' || !ListAgrees(listed, tests, skipped) then Refused
    else
      var population := set t | t in listed && !listed[t].ignored && listed[t].selected :: d.prefix + t;
      if population == {} then Refused else Accepted(population)
  }

  /** The ids of the declared tests that are not ignored and that no row skips. */
  ghost function ExecutedIds(d: Declaration, tests: map<string, bool>, skipped: set<string>): set<string> {
    set t | t in tests && !tests[t] && t !in skipped :: d.prefix + t
  }

  /** Whatever Nextest lists, an accepted list executes exactly those. */
  lemma ListedExactly(d: Declaration, listed: map<string, Case>, tests: map<string, bool>, skipped: set<string>)
    requires ListedPopulation(d, listed, tests, skipped).Accepted?
    ensures ListedPopulation(d, listed, tests, skipped).value == ExecutedIds(d, tests, skipped)
  {
    assert forall t ::
        (t in listed && !listed[t].ignored && listed[t].selected) <==> (t in tests && !tests[t] && t !in skipped);
  }

  // ----- Planning -----

  function Plan(d: Declaration, rows: seq<Row>, population: set<string>, expectedRequired: nat): Outcome<set<string>> {
    var gaps := RunIds(rows);
    if || d.ProofId() !in population
       || !(gaps <= population)
       || !(SkippedIds(rows) !! population)
       || |population - gaps| != expectedRequired
    then Refused
    else Accepted(population - gaps)
  }

  // ----- Judging -----

  /** What a result counts as. Only the first class is a pass; only the fourth is a diagnostic failure. */
  datatype Class = RequiredPassed | RequiredFailed | GapPassing | GapKnown | GapWrong {
    predicate Blocking() { RequiredFailed? || GapPassing? || GapWrong? }
  }

  /** The node's result for one test: what it counts as, and its attempt's outcome. */
  datatype Judged = Judged(kind: Class, outcome: AttemptOutcome)

  predicate Proved(d: Declaration, proof: Option<seq<string>>) {
    proof.Some? && proof.value != [] && forall line :: line in proof.value ==> line == d.backend
  }

  function ExpectedEnd(outcome: Expected): AttemptOutcome
    requires outcome.IsRun()
  {
    if outcome.ExpectFailed? then Failed else CpuTimeout
  }

  /** `matches(signature, output)` is the ledger's signature match. */
  function Classify(d: Declaration, gaps: map<string, Row>, id: string, end: AttemptOutcome, e: Evidence,
                    matches: (string, string) -> bool)
    : Judged
    requires id in gaps ==> gaps[id].outcome.IsRun()
  {
    if id !in gaps then
      if end != Passed then Judged(RequiredFailed, end)
      else if id == d.ProofId() && !Proved(d, e.proof) then Judged(RequiredFailed, Failed)
      else Judged(RequiredPassed, Passed)
    else if end == Passed then
      Judged(GapPassing, Failed)
    else
      var row := gaps[id];
      var output := if id in e.outputs then e.outputs[id] else "";
      if end == ExpectedEnd(row.outcome) && (row.signature.None? || matches(row.signature.value, output))
      then Judged(GapKnown, end)
      else Judged(GapWrong, end)
  }

  function GapRows(rows: seq<Row>): (gaps: map<string, Row>)
    ensures gaps.Keys == RunIds(rows)
    ensures forall id :: id in gaps ==> gaps[id] in rows && gaps[id].id == id && gaps[id].outcome.IsRun()
  {
    if rows == [] then map[]
    else
      var last := rows[|rows| - 1];
      assert rows == rows[..|rows| - 1] + [last];
      if last.outcome.IsRun() then GapRows(rows[..|rows| - 1])[last.id := last] else GapRows(rows[..|rows| - 1])
  }

  ghost function ByIdPairs(results: seq<Result>): seq<(string, Result)> {
    seq(|results|, i requires 0 <= i < |results| => (results[i].id, results[i]))
  }

  function Failures(results: seq<Result>): nat {
    if results == [] then 0 else Failures(results[..|results| - 1]) + if results[|results| - 1].passed then 0 else 1
  }

  /** The run reported every test of the population once, with one attempt, and its parts agree. */
  ghost predicate Finished(d: Declaration, population: set<string>, e: Evidence) {
    && e.results.Some?
    && (forall r :: r in e.results.value ==> r.attempts == 1)
    && Table(ByIdPairs(e.results.value)).Accepted?
    && var byId := Table(ByIdPairs(e.results.value)).value;
       && d.ProofId() in byId
       && byId.Keys == population
       && e.executed == |population|
       && e.status == (if Failures(e.results.value) == 0 then 0 else NEXTEST_TEST_FAILURES)
       && EndsAgree(byId, e.ends)
  }

  datatype Verdict = Verdict(
    rows: map<string, Judged>,
    requiredPassed: nat,
    requiredFailed: nat,
    gapsPassing: nat,
    gapsKnown: nat,
    gapsWrong: nat,
    ok: bool)

  ghost function Members(rows: map<string, Judged>, kind: Class): set<string> {
    set id | id in rows && rows[id].kind == kind
  }

  ghost predicate Tallied(rows: map<string, Judged>, v: Verdict) {
    && v.requiredPassed == |Members(rows, RequiredPassed)|
    && v.requiredFailed == |Members(rows, RequiredFailed)|
    && v.gapsPassing == |Members(rows, GapPassing)|
    && v.gapsKnown == |Members(rows, GapKnown)|
    && v.gapsWrong == |Members(rows, GapWrong)|
  }

  lemma AddMember(rows: map<string, Judged>, id: string, judged: Judged, kind: Class)
    requires id !in rows
    ensures |Members(rows[id := judged], kind)| == |Members(rows, kind)| + if judged.kind == kind then 1 else 0
  {
    var after := rows[id := judged];
    if judged.kind == kind {
      assert Members(after, kind) == Members(rows, kind) + {id};
    } else {
      assert Members(after, kind) == Members(rows, kind);
    }
  }

  /** The five classes partition the rows. */
  lemma {:induction false} ClassesPartition(rows: map<string, Judged>)
    ensures |Members(rows, RequiredPassed)| + |Members(rows, RequiredFailed)| + |Members(rows, GapPassing)|
            + |Members(rows, GapKnown)| + |Members(rows, GapWrong)| == |rows|
    decreases |rows|
  {
    if rows != map[] {
      var id :| id in rows;
      var rest := rows - {id};
      ClassesPartition(rest);
      assert rows == rest[id := rows[id]];
      AddMember(rest, id, rows[id], RequiredPassed);
      AddMember(rest, id, rows[id], RequiredFailed);
      AddMember(rest, id, rows[id], GapPassing);
      AddMember(rest, id, rows[id], GapKnown);
      AddMember(rest, id, rows[id], GapWrong);
    }
  }

  /** The table of results by id, of one attempt each. */
  method IndexResults(results: seq<Result>) returns (r: Outcome<map<string, Result>>)
    ensures r == if forall x :: x in results ==> x.attempts == 1 then Table(ByIdPairs(results)) else Refused
  {
    var byId: map<string, Result> := map[];
    for i := 0 to |results|
      invariant Table(ByIdPairs(results)[..i]) == Accepted(byId)
      invariant forall k :: 0 <= k < i ==> results[k].attempts == 1
    {
      if results[i].attempts != 1 {
        assert results[i] in results;
        return Refused;
      }
      assert ByIdPairs(results)[..i + 1] == ByIdPairs(results)[..i] + [(results[i].id, results[i])];
      TableNext(ByIdPairs(results)[..i], results[i].id, results[i]);
      if results[i].id in byId {
        TablePrefix(ByIdPairs(results), i + 1);
        return Refused;
      }
      byId := byId[results[i].id := results[i]];
    }
    assert ByIdPairs(results)[..|results|] == ByIdPairs(results);
    return Accepted(byId);
  }

  predicate EndAgrees(id: string, result: Result, ends: map<string, AttemptOutcome>) {
    id in ends && (ends[id] == Passed <==> result.passed)
  }

  ghost predicate EndsAgree(byId: map<string, Result>, ends: map<string, AttemptOutcome>) {
    forall id :: id in byId ==> EndAgrees(id, byId[id], ends)
  }

  ghost function Classified(d: Declaration, rows: seq<Row>, ids: set<string>, e: Evidence,
                            matches: (string, string) -> bool)
    : map<string, Judged>
    requires ids <= e.ends.Keys
  {
    map id | id in ids :: Classify(d, GapRows(rows), id, e.ends[id], e, matches)
  }

  /** One more row in its class. */
  method Count(v: Verdict, id: string, judged: Judged) returns (w: Verdict)
    requires id !in v.rows && Tallied(v.rows, v)
    ensures w.rows == v.rows[id := judged] && Tallied(w.rows, w)
  {
    AddMember(v.rows, id, judged, RequiredPassed);
    AddMember(v.rows, id, judged, RequiredFailed);
    AddMember(v.rows, id, judged, GapPassing);
    AddMember(v.rows, id, judged, GapKnown);
    AddMember(v.rows, id, judged, GapWrong);
    w := v.(rows := v.rows[id := judged]);
    match judged.kind
    case RequiredPassed => w := w.(requiredPassed := w.requiredPassed + 1);
    case RequiredFailed => w := w.(requiredFailed := w.requiredFailed + 1);
    case GapPassing => w := w.(gapsPassing := w.gapsPassing + 1);
    case GapKnown => w := w.(gapsKnown := w.gapsKnown + 1);
    case GapWrong => w := w.(gapsWrong := w.gapsWrong + 1);
  }

  lemma ClassifiedNext(d: Declaration, rows: seq<Row>, done: set<string>, id: string, e: Evidence,
                       matches: (string, string) -> bool)
    requires done <= e.ends.Keys && id in e.ends
    ensures Classified(d, rows, done + {id}, e, matches)
         == Classified(d, rows, done, e, matches)[id := Classify(d, GapRows(rows), id, e.ends[id], e, matches)]
  {
  }

  method NoVerdict() returns (v: Verdict)
    ensures v.rows == map[] && Tallied(v.rows, v)
  {
    v := Verdict(map[], 0, 0, 0, 0, 0, false);
    assert forall kind :: Members(v.rows, kind) == {};
  }

  /** The verdict so far, on the results in `done`. */
  ghost predicate JudgedSoFar(d: Declaration, rows: seq<Row>, byId: map<string, Result>, done: set<string>, e: Evidence,
                              matches: (string, string) -> bool, v: Verdict)
  {
    && (forall id :: id in done ==> id in byId && EndAgrees(id, byId[id], e.ends))
    && v.rows == Classified(d, rows, done * e.ends.Keys, e, matches)
    && Tallied(v.rows, v)
  }

  /** One more result, whose end agrees. */
  method JudgeNext(d: Declaration, rows: seq<Row>, byId: map<string, Result>, ghost rest: set<string>, id: string,
                   e: Evidence, matches: (string, string) -> bool, v: Verdict)
    returns (w: Verdict)
    requires rest <= byId.Keys && id in rest && EndAgrees(id, byId[id], e.ends)
    requires JudgedSoFar(d, rows, byId, byId.Keys - rest, e, matches, v)
    ensures JudgedSoFar(d, rows, byId, byId.Keys - (rest - {id}), e, matches, w)
  {
    ghost var done := (byId.Keys - rest) * e.ends.Keys;
    var judged := Classify(d, GapRows(rows), id, e.ends[id], e, matches);
    ClassifiedNext(d, rows, done, id, e, matches);
    assert (byId.Keys - (rest - {id})) * e.ends.Keys == done + {id};
    w := Count(v, id, judged);
  }

  /** The judging loop, with its five counters. */
  method TallyResults(d: Declaration, rows: seq<Row>, byId: map<string, Result>, e: Evidence,
                      matches: (string, string) -> bool)
    returns (r: Outcome<Verdict>)
    ensures r.Accepted? <==> EndsAgree(byId, e.ends)
    ensures r.Accepted? ==> r.value.rows == Classified(d, rows, byId.Keys, e, matches)
    ensures r.Accepted? ==> Tallied(r.value.rows, r.value)
  {
    var rest := byId.Keys;
    var v := NoVerdict();
    assert byId.Keys - rest == {};
    while rest != {}
      invariant rest <= byId.Keys && JudgedSoFar(d, rows, byId, byId.Keys - rest, e, matches, v)
      decreases rest
    {
      var id :| id in rest;
      if !EndAgrees(id, byId[id], e.ends) {
        return Refused;
      }
      v := JudgeNext(d, rows, byId, rest, id, e, matches, v);
      rest := rest - {id};
    }
    JudgedAll(d, rows, byId, rest, e, matches, v);
    return Accepted(v);
  }

  lemma JudgedAll(d: Declaration, rows: seq<Row>, byId: map<string, Result>, rest: set<string>, e: Evidence,
                  matches: (string, string) -> bool, v: Verdict)
    requires rest == {} && JudgedSoFar(d, rows, byId, byId.Keys - rest, e, matches, v)
    ensures EndsAgree(byId, e.ends) && v.rows == Classified(d, rows, byId.Keys, e, matches) && Tallied(v.rows, v)
  {
    assert (byId.Keys - rest) * e.ends.Keys == byId.Keys;
  }

  /** What every verdict says. */
  ghost predicate Sound(d: Declaration, rows: seq<Row>, population: set<string>, e: Evidence,
                        matches: (string, string) -> bool, v: Verdict)
  {
    && population <= e.ends.Keys
    && v.rows == Classified(d, rows, population, e, matches)
    && Tallied(v.rows, v)
    && v.requiredPassed + v.requiredFailed + v.gapsPassing + v.gapsKnown + v.gapsWrong == |population|
    && (v.ok <==> forall id :: id in v.rows ==> !v.rows[id].kind.Blocking())
  }

  /** `judge`: a verdict exactly for a finished run. */
  method Judge(d: Declaration, rows: seq<Row>, population: set<string>, e: Evidence, matches: (string, string) -> bool)
    returns (r: Outcome<Verdict>)
    ensures r.Accepted? <==> Finished(d, population, e)
    ensures r.Accepted? ==> Sound(d, rows, population, e, matches, r.value)
  {
    if e.results.None? {
      return Refused;
    }
    var byId := IndexResults(e.results.value);
    if byId.Refused? || d.ProofId() !in byId.value || byId.value.Keys != population || e.executed != |population| {
      return Refused;
    }
    var failures := Failures(e.results.value);
    if !(e.status == 0 && failures == 0) && !(e.status == NEXTEST_TEST_FAILURES && failures > 0) {
      return Refused;
    }
    r := TallyResults(d, rows, byId.value, e, matches);
    if r.Accepted? {
      r := Accepted(Conclude(r.value, population));
    }
  }

  /** The last lines: whether anything blocks. */
  function Conclude(v: Verdict, ghost population: set<string>): (w: Verdict)
    requires Tallied(v.rows, v) && v.rows.Keys == population
    ensures w.rows == v.rows && Tallied(w.rows, w)
    ensures w.requiredPassed + w.requiredFailed + w.gapsPassing + w.gapsKnown + w.gapsWrong == |population|
    ensures w.ok <==> forall id :: id in w.rows ==> !w.rows[id].kind.Blocking()
  {
    ClassesPartition(v.rows);
    NoneBlocking(v.rows, v);
    v.(ok := v.requiredFailed == 0 && v.gapsWrong == 0 && v.gapsPassing == 0)
  }

  lemma NoneBlocking(rows: map<string, Judged>, v: Verdict)
    requires Tallied(rows, v)
    ensures v.requiredFailed == 0 && v.gapsWrong == 0 && v.gapsPassing == 0
            <==> forall id :: id in rows ==> !rows[id].kind.Blocking()
  {
    forall id | id in rows && rows[id].kind.Blocking() ensures id in Members(rows, rows[id].kind) {
    }
  }

  // ----- The node -----

  /** Every declared test that is not ignored and has no ledger row. */
  ghost function RequiredIds(d: Declaration, rows: seq<Row>, tests: map<string, bool>): set<string> {
    set t | t in tests && !tests[t] && !HasRow(rows, d.prefix + t) :: d.prefix + t
  }

  ghost predicate HasRow(rows: seq<Row>, id: string) {
    exists row :: row in rows && row.id == id
  }

  /** The planned required tests are those, whatever the list was. */
  lemma PlannedExactly(d: Declaration, rows: seq<Row>, tests: map<string, bool>)
    requires LedgerHolds(d, rows, tests)
    ensures ExecutedIds(d, tests, SkippedTests(d, rows)) - RunIds(rows) == RequiredIds(d, rows, tests)
  {
    forall t | t in tests && !tests[t]
      ensures HasRow(rows, d.prefix + t) <==> d.prefix + t in RunIds(rows) || t in SkippedTests(d, rows)
    {
      var id := d.prefix + t;
      assert TestOf(d, id) == Some(t);
      if t in SkippedTests(d, rows) {
        var row :| row in rows && !row.outcome.IsRun() && TestOf(d, row.id) == Some(t);
        assert row.id == id;
      }
    }
  }

  /**
   * The node's promise: a pass is always a required test, no gap row is ever a pass, skipped rows
   * have no result, an attempt is recorded as passed only for a pass, and when the verdict is ok
   * the passes are exactly the required tests, as many as the node is pinned to.
   */
  ghost predicate Kept(d: Declaration, rows: seq<Row>, tests: map<string, bool>, expectedRequired: nat, v: Verdict) {
    KeptFor(RequiredIds(d, rows, tests), rows, expectedRequired, v)
  }

  ghost predicate KeptFor(required: set<string>, rows: seq<Row>, expectedRequired: nat, v: Verdict) {
    && Members(v.rows, RequiredPassed) <= required
    && Members(v.rows, RequiredPassed) + Members(v.rows, RequiredFailed) == required
    && |required| == expectedRequired
    && (forall row :: row in rows && row.id in v.rows ==> v.rows[row.id].kind != RequiredPassed)
    && (forall row :: row in rows && !row.outcome.IsRun() ==> row.id !in v.rows)
    && (forall id :: id in v.rows ==> (v.rows[id].outcome == Passed <==> v.rows[id].kind == RequiredPassed))
    && (v.ok ==> Members(v.rows, RequiredPassed) == required && v.requiredPassed == expectedRequired)
    && (v.ok <==> forall id :: id in v.rows ==> !v.rows[id].kind.Blocking())
  }

  /** The attempt ended as the row says, and its output shows the row's signature if it has one. */
  ghost predicate FailedAsKnown(row: Row, e: Evidence, matches: (string, string) -> bool) {
    && row.outcome.IsRun()
    && row.id in e.ends && e.ends[row.id] == ExpectedEnd(row.outcome)
    && (row.signature.Some? ==> matches(row.signature.value, if row.id in e.outputs then e.outputs[row.id] else ""))
  }

  /**
   * Every count is earned: a pass by a passing attempt, with the proof where one is due; a known
   * gap by the failure its row names.
   */
  ghost predicate Earned(d: Declaration, rows: seq<Row>, e: Evidence, matches: (string, string) -> bool, v: Verdict) {
    && (forall id :: id in Members(v.rows, RequiredPassed) ==> id in e.ends && e.ends[id] == Passed)
    && (d.ProofId() in Members(v.rows, RequiredPassed) ==> Proved(d, e.proof))
    && (forall id :: id in Members(v.rows, GapKnown) ==>
          exists row ::
            row in rows && row.id == id && FailedAsKnown(row, e, matches) && v.rows[id].outcome == e.ends[id])
  }

  lemma CountsEarned(d: Declaration, rows: seq<Row>, population: set<string>, e: Evidence,
                     matches: (string, string) -> bool, v: Verdict)
    requires population <= e.ends.Keys && v.rows == Classified(d, rows, population, e, matches)
    ensures Earned(d, rows, e, matches, v)
  {
    forall id | id in Members(v.rows, GapKnown)
      ensures exists row ::
                row in rows && row.id == id && FailedAsKnown(row, e, matches) && v.rows[id].outcome == e.ends[id]
    {
      assert FailedAsKnown(GapRows(rows)[id], e, matches);
    }
  }

  lemma ClassOf(d: Declaration, gaps: map<string, Row>, id: string, end: AttemptOutcome, e: Evidence,
                matches: (string, string) -> bool)
    requires id in gaps ==> gaps[id].outcome.IsRun()
    ensures var j := Classify(d, gaps, id, end, e, matches);
            && (j.kind == RequiredPassed || j.kind == RequiredFailed <==> id !in gaps)
            && (j.outcome == Passed <==> j.kind == RequiredPassed)
  {
  }

  lemma JudgedKinds(d: Declaration, rows: seq<Row>, population: set<string>, e: Evidence,
                    matches: (string, string) -> bool, judged: map<string, Judged>)
    requires population <= e.ends.Keys && judged == Classified(d, rows, population, e, matches)
    ensures judged.Keys == population
    ensures forall id :: id in judged ==> (judged[id].outcome == Passed <==> judged[id].kind == RequiredPassed)
    ensures forall id :: id in judged && id in RunIds(rows) ==> judged[id].kind != RequiredPassed
    ensures Members(judged, RequiredPassed) + Members(judged, RequiredFailed) == population - RunIds(rows)
  {
    forall id | id in judged
      ensures judged[id].kind == RequiredPassed || judged[id].kind == RequiredFailed <==> id !in RunIds(rows)
      ensures judged[id].outcome == Passed <==> judged[id].kind == RequiredPassed
    {
      ClassOf(d, GapRows(rows), id, e.ends[id], e, matches);
    }
  }

  lemma RowsAreNoPasses(rows: seq<Row>, population: set<string>, judged: map<string, Judged>)
    requires judged.Keys == population && SkippedIds(rows) !! population
    requires forall id :: id in judged && id in RunIds(rows) ==> judged[id].kind != RequiredPassed
    ensures forall row :: row in rows && row.id in judged ==> judged[row.id].kind != RequiredPassed
    ensures forall row :: row in rows && !row.outcome.IsRun() ==> row.id !in judged
  {
    forall row | row in rows && !row.outcome.IsRun() ensures row.id !in judged {
      assert row.id in SkippedIds(rows);
    }
    forall row | row in rows && row.id in judged ensures judged[row.id].kind != RequiredPassed {
      assert row.outcome.IsRun() ==> row.id in RunIds(rows);
    }
  }

  lemma JudgedKept(d: Declaration, rows: seq<Row>, population: set<string>, required: set<string>, e: Evidence,
                   matches: (string, string) -> bool, v: Verdict)
    requires Sound(d, rows, population, e, matches, v)
    requires required == population - RunIds(rows) && SkippedIds(rows) !! population
    ensures KeptFor(required, rows, |required|, v)
  {
    JudgedKinds(d, rows, population, e, matches, v.rows);
    RowsAreNoPasses(rows, population, v.rows);
    if v.ok {
      NoRequiredFailure(v.rows);
    }
  }

  lemma PlanPins(d: Declaration, rows: seq<Row>, population: set<string>, expectedRequired: nat)
    requires Plan(d, rows, population, expectedRequired).Accepted?
    ensures |population - RunIds(rows)| == expectedRequired && SkippedIds(rows) !! population
  {
  }

  lemma PipelineKept(d: Declaration, rows: seq<Row>, tests: map<string, bool>, population: set<string>,
                     expectedRequired: nat, e: Evidence, matches: (string, string) -> bool, v: Verdict)
    requires LedgerHolds(d, rows, tests) && population == ExecutedIds(d, tests, SkippedTests(d, rows))
    requires Plan(d, rows, population, expectedRequired).Accepted? && Sound(d, rows, population, e, matches, v)
    ensures Kept(d, rows, tests, expectedRequired, v)
  {
    var required := RequiredIds(d, rows, tests);
    assert required == population - RunIds(rows) by { PlannedExactly(d, rows, tests); }
    PlanPins(d, rows, population, expectedRequired);
    assert KeptFor(required, rows, |required|, v) by { JudgedKept(d, rows, population, required, e, matches, v); }
  }

  lemma NoRequiredFailure(judged: map<string, Judged>)
    requires forall id :: id in judged ==> !judged[id].kind.Blocking()
    ensures Members(judged, RequiredFailed) == {}
  {
  }

  /** The three stages accept: the list selects a population, the plan pins it, and the run finished on it. */
  ghost predicate Judgeable(d: Declaration, rows: seq<Row>, tests: map<string, bool>, listed: map<string, Case>,
                            expectedRequired: nat, e: Evidence)
  {
    && LedgerHolds(d, rows, tests)
    && var population := ListedPopulation(d, listed, tests, SkippedTests(d, rows));
       && population.Accepted?
       && Plan(d, rows, population.value, expectedRequired).Accepted?
       && Finished(d, population.value, e)
  }

  /** `run`, from the ledger and the list to the verdict on the counted run's evidence. */
  method RunNode(d: Declaration, rows: seq<Row>, tests: map<string, bool>, listed: map<string, Case>,
                 expectedRequired: nat, e: Evidence, matches: (string, string) -> bool) returns (r: Outcome<Verdict>)
    ensures r.Accepted? <==> Judgeable(d, rows, tests, listed, expectedRequired, e)
    ensures r.Accepted? ==> Kept(d, rows, tests, expectedRequired, r.value) && Earned(d, rows, e, matches, r.value)
  {
    if !LedgerHolds(d, rows, tests) {
      return Refused;
    }
    var population := ListedPopulation(d, listed, tests, SkippedTests(d, rows));
    if population.Refused? {
      return Refused;
    }
    ListedExactly(d, listed, tests, SkippedTests(d, rows));
    if Plan(d, rows, population.value, expectedRequired).Refused? {
      return Refused;
    }
    r := Judge(d, rows, population.value, e, matches);
    if r.Accepted? {
      PipelineKept(d, rows, tests, population.value, expectedRequired, e, matches, r.value);
      CountsEarned(d, rows, population.value, e, matches, r.value);
    }
  }
}
