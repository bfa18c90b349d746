/** The reducer as the source runs it: one pass over the lines, with loops over the open suites. */
module NextestReducer {
  import opened Base
  import opened Totals
  import opened NextestInventory
  import opened NextestEvents

  /** The overlap loop of a suite start. */
  method CheckStart(source: Source, open: map<SuiteIdentity, Episode>, suite: SuiteIdentity, testCount: U64)
    returns (ok: bool)
    ensures ok == MayStart(source, open, suite, testCount)
  {
    if suite in open {
      return false;
    }
    if source.Some? {
      var listed := source.value.Suite(suite);
      if listed.Refused? || testCount != listed.value.StartCount() {
        return false;
      }
    }
    var rest := open.Keys;
    while rest != {}
      invariant rest <= open.Keys
      invariant forall other :: other in open && other !in rest && other.TestNameKey() == suite.TestNameKey() ==>
                  Separated(source, suite, other)
      decreases rest
    {
      var active :| active in rest;
      if active.TestNameKey() == suite.TestNameKey() && !Separated(source, suite, active) {
        return false;
      }
      rest := rest - {active};
    }
    return true;
  }

  /** The candidate loop of a test row: the open suites it may belong to, unless one is not in the inventory. */
  method CollectCandidates(source: Source, open: map<SuiteIdentity, Episode>, kind: TestEventKind, key: NameKey,
                           test: string)
    returns (r: Outcome<set<SuiteIdentity>>)
    ensures r.Refused? <==> Unlisted(source, open, key)
    ensures r.Accepted? ==> r.value == Candidates(source, open, kind, key, test)
  {
    var candidates: set<SuiteIdentity> := {};
    var rest := open.Keys;
    while rest != {}
      invariant rest <= open.Keys
      invariant forall id :: id in candidates <==> id in open && id !in rest && Candidate(source, id, kind, key, test)
      invariant forall id :: id in open && id !in rest && id.TestNameKey() == key && source.Some? ==>
                  source.value.Suite(id).Accepted?
      decreases rest
    {
      var id :| id in rest;
      if id.TestNameKey() == key {
        if source.Some? && source.value.Suite(id).Refused? {
          return Refused;
        }
        if source.None? || source.value.Suite(id).value.Reports(test, kind) {
          candidates := candidates + {id};
        }
      }
      rest := rest - {id};
    }
    return Accepted(candidates);
  }

  /** The one suite a test row belongs to, or a refusal. */
  method Attribute(source: Source, open: map<SuiteIdentity, Episode>, kind: TestEventKind, key: NameKey, test: string)
    returns (r: Outcome<SuiteIdentity>)
    ensures r.Accepted? <==> !Unlisted(source, open, key) && |Candidates(source, open, kind, key, test)| == 1
    ensures r.Accepted? ==> Candidates(source, open, kind, key, test) == {r.value}
  {
    var candidates := CollectCandidates(source, open, kind, key, test);
    if candidates.Refused? || |candidates.value| != 1 {
      return Refused;
    }
    ghost var only := Only(candidates.value);
    var found :| found in candidates.value;
    return Accepted(found);
  }

  ghost function SkippedIn(s: State, ids: set<SuiteIdentity>): map<SuiteIdentity, int> {
    map id | id in s.populations && id in ids :: s.populations[id] - ExecutedOf(s.executed, id)
  }

  lemma AddSkipped(s: State, done: set<SuiteIdentity>, id: SuiteIdentity)
    requires id in s.populations && id !in done
    ensures Total(SkippedIn(s, done + {id}))
            == Total(SkippedIn(s, done)) + s.populations[id] - ExecutedOf(s.executed, id)
  {
    var skipped := s.populations[id] - ExecutedOf(s.executed, id);
    assert SkippedIn(s, done + {id}) == SkippedIn(s, done)[id := skipped];
    TotalUpdate(SkippedIn(s, done), id, skipped);
  }

  /** The checked fold of the filtered count. */
  method SumSkipped(s: State) returns (r: Outcome<U64>)
    ensures r.Accepted? <==> PopulationsCover(s)
    ensures r.Accepted? ==> r.value == Total(Skipped(s))
  {
    var total: U64 := 0;
    var rest := s.populations.Keys;
    ghost var done: set<SuiteIdentity> := {};
    while rest != {}
      invariant rest + done == s.populations.Keys && rest !! done
      invariant forall id :: id in done ==> ExecutedOf(s.executed, id) <= s.populations[id]
      invariant total == Total(SkippedIn(s, done))
      decreases rest
    {
      var id :| id in rest;
      var executed := ExecutedOf(s.executed, id);
      if executed > s.populations[id] {
        return Refused;
      }
      var skipped := s.populations[id] - executed;
      AddSkipped(s, done, id);
      if total + skipped > U64_MAX {
        PartialSum(s, done + {id});
        return Refused;
      }
      total := total + skipped;
      done, rest := done + {id}, rest - {id};
    }
    assert SkippedIn(s, done) == Skipped(s);
    return Accepted(total);
  }

  /** A partial sum that does not fit leaves no total that does. */
  lemma PartialSum(s: State, done: set<SuiteIdentity>)
    requires done <= s.populations.Keys
    requires Total(SkippedIn(s, done)) > U64_MAX
    ensures !PopulationsCover(s)
  {
    if forall id :: id in s.populations ==> ExecutedOf(s.executed, id) <= s.populations[id] {
      PartsBelowWhole(SkippedIn(s, done), Skipped(s));
    }
  }

  lemma {:induction false} PartsBelowWhole(part: map<SuiteIdentity, int>, whole: map<SuiteIdentity, int>)
    requires forall id :: id in part ==> id in whole && part[id] == whole[id]
    requires forall id :: id in whole ==> whole[id] >= 0
    ensures Total(part) <= Total(whole)
    decreases |part|
  {
    if part == map[] {
      TotalNonNegative(whole);
    } else {
      var id :| id in part;
      TotalRemove(part, id);
      TotalRemove(whole, id);
      PartsBelowWhole(part - {id}, whole - {id});
    }
  }

  /** One line against the state, by the loops above. */
  method ReadLine(source: Source, s: State, e: Event) returns (r: Outcome<State>)
    ensures r == Step(source, s, e)
  {
    match e
    case SuiteStarted(suite, testCount) =>
      var ok := CheckStart(source, s.open, suite, testCount);
      if !ok {
        return Refused;
      }
      r := Accepted(s.(open := s.open[suite := Episode(testCount, 0, 0)]));
    case SuiteEnded(suite, passed, failed, ignored, filteredOut) =>
      r := EndStep(source, s, suite, passed, failed, ignored, filteredOut);
    case Test(kind, key, test, attempts) =>
      var found := Attribute(source, s.open, kind, key, test);
      if found.Refused? {
        return Refused;
      }
      if kind.Started? || kind.Ignored? {
        return Accepted(s);
      }
      r := RecordStep(s, found.value, test, attempts, kind.Succeeded?);
    case Malformed =>
      r := Refused;
  }

  /** `parse_event_text_with_inventory`. */
  method Reduce(source: Source, events: seq<Event>) returns (r: Outcome<ParsedEvents>)
    ensures r == Reduced(source, events)
  {
    var s := INITIAL;
    var i := 0;
    while i < |events|
      invariant 0 <= i <= |events|
      invariant Run(source, INITIAL, events) == Run(source, s, events[i..])
    {
      assert events[i..][1..] == events[i + 1..];
      var next := ReadLine(source, s, events[i]);
      if next.Refused? {
        return Refused;
      }
      s := next.value;
      i := i + 1;
    }
    if s.open != map[] || |events| == 0 || |s.results| > U64_MAX || s.suitePassed + s.suiteFailed != |s.results| {
      return Refused;
    }
    var filtered := SumSkipped(s);
    if filtered.Refused? {
      return Refused;
    }
    return Accepted(ParsedEvents(|s.results|, filtered.value, s.results, s.expected));
  }
}
