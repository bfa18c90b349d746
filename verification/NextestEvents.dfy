/**
 * The reducer over nextest's libtest event stream: suites open and close by full identity, while a
 * test row names only a rendered package and binary and is attributed through the inventory.
 */
module NextestEvents {
  import opened Base
  import opened Totals
  import opened NextestInventory

  type Attempts = n: U64 | n >= 1 witness 1

  /** One nonblank line, already typed; `Malformed` is a line that does not decode. */
  datatype Event =
    | SuiteStarted(suite: SuiteIdentity, testCount: U64)
    | SuiteEnded(suite: SuiteIdentity, passed: U64, failed: U64, ignored: U64, filteredOut: U64)
    | Test(kind: TestEventKind, key: NameKey, test: string, attempts: Attempts)
    | Malformed

  datatype Episode = Episode(testCount: U64, passed: U64, failed: U64)

  datatype TestRow = TestRow(passed: bool, attempts: Attempts)

  datatype ExpectedTest = ExpectedTest(suite: SuiteIdentity, test: string, attempts: Attempts, passed: bool)

  /** Everything the loop updates. */
  datatype State = State(
    open: map<SuiteIdentity, Episode>,
    results: map<string, TestRow>,
    expected: seq<ExpectedTest>,
    populations: map<SuiteIdentity, U64>,
    executed: map<SuiteIdentity, U64>,
    suitePassed: U64,
    suiteFailed: U64)

  const INITIAL := State(map[], map[], [], map[], map[], 0, 0)

  datatype ParsedEvents = ParsedEvents(
    executed: U64,
    filtered: U64,
    results: map<string, TestRow>,
    expected: seq<ExpectedTest>)

  type Source = Option<Inventory>

  // ----- One suite's population -----

  /** The wrapped filtered-out counts nextest 0.9.100 is known to emit, by their true arithmetic. */
  predicate KnownWrap(testCount: U64, executed: int, ignored: U64, filteredOut: U64) {
    || (filteredOut + ignored == U64_MAX + 1 && executed <= ignored && executed <= testCount)
    || (filteredOut + executed == U64_MAX + 1 && executed <= ignored && executed <= testCount)
    || (executed == 0 && ignored == testCount && filteredOut + ignored > U64_MAX + 1)
  }

  /**
   * `suite_population`. A representable sum is never overridden: the result is then the larger of
   * the sum and the start count. An unrepresentable one is admitted exactly for the known wraps,
   * as the start count.
   */
  function SuitePopulation(testCount: U64, passed: U64, failed: U64, ignored: U64, filteredOut: U64): (r: Outcome<U64>)
    ensures var sum := passed + failed + ignored + filteredOut;
            && (sum <= U64_MAX ==> r == Accepted(if sum < testCount then testCount else sum))
            && (sum > U64_MAX ==>
                  r == if passed + failed <= U64_MAX && KnownWrap(testCount, passed + failed, ignored, filteredOut)
                       then Accepted(testCount) else Refused)
    ensures r.Accepted? ==> r.value >= testCount && r.value >= passed + failed
  {
    if passed + failed > U64_MAX then
      Refused
    else
      var executed: U64 := passed + failed;
      if filteredOut != 0 && (filteredOut == WrappingNeg(ignored) || filteredOut == WrappingNeg(executed)) then
        if executed > ignored || executed > testCount then Refused else Accepted(testCount)
      else
        var deficit := WrappingNeg(filteredOut);
        if executed == 0 && ignored == testCount && deficit != 0 && deficit < ignored then
          Accepted(testCount)
        else if executed + ignored + filteredOut > U64_MAX then
          Refused
        else
          var population := executed + ignored + filteredOut;
          Accepted(if population < testCount then testCount else population)
  }

  // ----- One event -----

  /** Whether two suites with one name key can be told apart by every test name they may start. */
  predicate Separated(source: Source, a: SuiteIdentity, b: SuiteIdentity) {
    && source.Some?
    && source.value.Suite(a).Accepted?
    && source.value.Suite(b).Accepted?
    && forall test :: test in source.value.Suite(a).value.testcases ==>
         !(source.value.Suite(a).value.Reports(test, Started) && source.value.Suite(b).value.Reports(test, Started))
  }

  predicate MayStart(source: Source, open: map<SuiteIdentity, Episode>, id: SuiteIdentity, testCount: U64) {
    && id !in open
    && (source.Some? ==> source.value.Suite(id).Accepted? && testCount == source.value.Suite(id).value.StartCount())
    && forall other :: other in open && other.TestNameKey() == id.TestNameKey() ==> Separated(source, id, other)
  }

  function StartStep(source: Source, s: State, id: SuiteIdentity, testCount: U64): Outcome<State> {
    if MayStart(source, s.open, id, testCount)
    then Accepted(s.(open := s.open[id := Episode(testCount, 0, 0)]))
    else Refused
  }

  function Larger(populations: map<SuiteIdentity, U64>, id: SuiteIdentity, population: U64): U64 {
    if id in populations && populations[id] > population then populations[id] else population
  }

  function EndStep(source: Source, s: State, id: SuiteIdentity, passed: U64, failed: U64, ignored: U64,
                   filteredOut: U64)
    : Outcome<State>
  {
    if && id in s.open
       && passed == s.open[id].passed
       && failed == s.open[id].failed
       && s.suitePassed + passed <= U64_MAX
       && s.suiteFailed + failed <= U64_MAX
       && (source.Some? ==> source.value.Suite(id).Accepted? && ignored == source.value.Suite(id).value.IgnoredCount())
    then
      match SuitePopulation(s.open[id].testCount, passed, failed, ignored, filteredOut)
      case Refused => Refused
      case Accepted(population) =>
        Accepted(s.(open := s.open - {id},
                    suitePassed := s.suitePassed + passed,
                    suiteFailed := s.suiteFailed + failed,
                    populations := s.populations[id := Larger(s.populations, id, population)]))
    else
      Refused
  }

  /** Whether an open suite may be the one a test row names; a suite missing from the inventory is `Unlisted`. */
  predicate Candidate(source: Source, id: SuiteIdentity, kind: TestEventKind, key: NameKey, test: string) {
    && id.TestNameKey() == key
    && (source.Some? ==> source.value.Suite(id).Accepted? && source.value.Suite(id).value.Reports(test, kind))
  }

  function Candidates(source: Source, open: map<SuiteIdentity, Episode>, kind: TestEventKind, key: NameKey,
                      test: string)
    : set<SuiteIdentity>
  {
    set id | id in open && Candidate(source, id, kind, key, test)
  }

  predicate Unlisted(source: Source, open: map<SuiteIdentity, Episode>, key: NameKey) {
    exists id :: id in open && id.TestNameKey() == key && source.Some? && source.value.Suite(id).Refused?
  }

  /** The terminal row of `test` in the open suite `id`. */
  function RecordStep(s: State, id: SuiteIdentity, test: string, attempts: Attempts, passed: bool): Outcome<State>
    requires id in s.open
  {
    var episode := s.open[id];
    var row := DisplayedTestId(id.package, id.binary, test, id.kind, id.stress);
    var count := if id in s.executed then s.executed[id] else 0;
    if (if passed then episode.passed else episode.failed) == U64_MAX || row in s.results || count == U64_MAX then
      Refused
    else
      Accepted(s.(open := s.open[id := if passed then episode.(passed := episode.passed + 1)
                                                 else episode.(failed := episode.failed + 1)],
                  expected := s.expected + [ExpectedTest(id, test, attempts, passed)],
                  results := s.results[row := TestRow(passed, attempts)],
                  executed := s.executed[id := count + 1]))
  }

  /** The element of a singleton. */
  ghost function Only<T>(one: set<T>): (x: T)
    requires |one| == 1
    ensures one == {x}
  {
    var x :| x in one;
    assert |one - {x}| == 0;
    x
  }

  ghost function TestStep(source: Source, s: State, kind: TestEventKind, key: NameKey, test: string, attempts: Attempts)
    : Outcome<State>
  {
    var candidates := Candidates(source, s.open, kind, key, test);
    if Unlisted(source, s.open, key) || |candidates| != 1 then
      Refused
    else if kind.Started? || kind.Ignored? then
      Accepted(s)
    else
      RecordStep(s, Only(candidates), test, attempts, kind.Succeeded?)
  }

  ghost function Step(source: Source, s: State, e: Event): Outcome<State> {
    match e
    case SuiteStarted(id, testCount) => StartStep(source, s, id, testCount)
    case SuiteEnded(id, passed, failed, ignored, filteredOut) =>
      EndStep(source, s, id, passed, failed, ignored, filteredOut)
    case Test(kind, key, test, attempts) => TestStep(source, s, kind, key, test, attempts)
    case Malformed => Refused
  }

  // ----- The whole stream -----

  ghost function Run(source: Source, s: State, events: seq<Event>): Outcome<State>
    decreases |events|
  {
    if events == [] then
      Accepted(s)
    else match Step(source, s, events[0])
      case Refused => Refused
      case Accepted(next) => Run(source, next, events[1..])
  }

  function ExecutedOf(executed: map<SuiteIdentity, U64>, id: SuiteIdentity): U64 {
    if id in executed then executed[id] else 0
  }

  ghost function Skipped(s: State): map<SuiteIdentity, int> {
    map id | id in s.populations :: s.populations[id] - ExecutedOf(s.executed, id)
  }

  /** Every suite's population covers its executed rows, and the uncovered rest adds up in 64 bits. */
  ghost predicate PopulationsCover(s: State) {
    && (forall id :: id in s.populations ==> ExecutedOf(s.executed, id) <= s.populations[id])
    && Total(Skipped(s)) <= U64_MAX
  }

  /** The checks after the last line. */
  ghost function Finish(s: State): Outcome<ParsedEvents> {
    if || s.open != map[]
       || |s.results| > U64_MAX
       || s.suitePassed + s.suiteFailed != |s.results|
       || !PopulationsCover(s)
    then
      Refused
    else
      TotalNonNegative(Skipped(s));
      Accepted(ParsedEvents(|s.results|, Total(Skipped(s)), s.results, s.expected))
  }

  ghost function Reduced(source: Source, events: seq<Event>): Outcome<ParsedEvents> {
    match Run(source, INITIAL, events)
    case Refused => Refused
    case Accepted(s) => if events == [] then Refused else Finish(s)
  }
}
