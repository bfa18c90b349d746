/** The producer from the event stream to its report: reduce, reconcile, reclassify and count. */
module NextestPublish {
  import opened Base
  import opened Ordered
  import opened NextestEvents
  import opened NextestReconcile
  import opened NextestReclassify
  import NextestInventory
  import NextestSafety
  import NextestReducer

  // ----- Orders -----

  function CharOrder(): (char, char) -> bool {
    (a: char, b: char) => a < b
  }

  function StringOrder(): (string, string) -> bool {
    LexicalOrder(CharOrder())
  }

  lemma StringOrderIsStrict()
    ensures StrictOrder(StringOrder())
  {
    LexicalIsOrder(CharOrder());
  }

  /** Attempt identities by package, binary, test and attempt number. */
  function AttemptOrder(): (AttemptIdentity, AttemptIdentity) -> bool {
    (a: AttemptIdentity, b: AttemptIdentity) =>
      if a.package != b.package then StringOrder()(a.package, b.package)
      else if a.binary != b.binary then StringOrder()(a.binary, b.binary)
      else if a.test != b.test then StringOrder()(a.test, b.test)
      else a.attempt < b.attempt
  }

  lemma AttemptOrderIsStrict()
    ensures StrictOrder(AttemptOrder())
  {
    StringOrderIsStrict();
    var less := AttemptOrder();
    assert forall a :: !less(a, a);
    forall a, b | a != b ensures less(a, b) || less(b, a) {
      assert a.package == b.package && a.binary == b.binary && a.test == b.test ==> a.attempt != b.attempt;
    }
    forall a, b, c | less(a, b) && less(b, c) ensures less(a, c) {
      AttemptsTransitive(a, b, c);
    }
  }

  lemma AttemptsTransitive(a: AttemptIdentity, b: AttemptIdentity, c: AttemptIdentity)
    requires StrictOrder(StringOrder()) && AttemptOrder()(a, b) && AttemptOrder()(b, c)
    ensures AttemptOrder()(a, c)
  {
  }

  // ----- Rows -----

  function RowOf(id: string, row: TestRow): Row {
    Row(id, row.passed, None, row.attempts, None)
  }

  /** The results as rows, by id. */
  ghost function RowsOf(results: map<string, TestRow>): (rows: seq<Row>)
    ensures forall row :: row in rows ==> Fresh(row)
  {
    StringOrderIsStrict();
    Listed(results, InOrder(results.Keys, StringOrder()))
  }

  function Listed(results: map<string, TestRow>, ids: seq<string>): seq<Row>
    requires forall id :: id in ids ==> id in results
  {
    seq(|ids|, i requires 0 <= i < |ids| => assert ids[i] in ids; RowOf(ids[i], results[ids[i]]))
  }

  method ListRows(results: map<string, TestRow>) returns (rows: seq<Row>)
    ensures rows == RowsOf(results)
  {
    StringOrderIsStrict();
    var ids := List(results.Keys, StringOrder());
    ListIsInOrder(ids, results.Keys, StringOrder());
    rows := Listed(results, ids);
  }

  // ----- Counting -----

  function IsPass(): Row -> bool {
    (row: Row) => row.passed
  }

  function IsSkip(): Row -> bool {
    (row: Row) => row.skipReason.Some?
  }

  function IsFailure(): Row -> bool {
    (row: Row) => !row.passed && row.skipReason.None?
  }

  ghost function Those(rows: seq<Row>, p: Row -> bool): set<nat> {
    set i: nat | i < |rows| && p(rows[i])
  }

  lemma ThoseNext(rows: seq<Row>, p: Row -> bool, n: nat)
    requires n < |rows|
    ensures |Those(rows[..n + 1], p)| == |Those(rows[..n], p)| + if p(rows[n]) then 1 else 0
  {
    var before, after := Those(rows[..n], p), Those(rows[..n + 1], p);
    if p(rows[n]) {
      assert after == before + {n};
    } else {
      assert after == before;
    }
  }

  method Count(rows: seq<Row>, p: Row -> bool) returns (n: nat)
    ensures n == |Those(rows, p)|
  {
    n := 0;
    for i := 0 to |rows|
      invariant n == |Those(rows[..i], p)|
    {
      ThoseNext(rows, p, i);
      if p(rows[i]) {
        n := n + 1;
      }
    }
    assert rows[..|rows|] == rows;
  }

  /** Passes, skips and failures make up the rows when no row is both a pass and a skip. */
  lemma {:induction false} CountsPartition(rows: seq<Row>, n: nat)
    requires n <= |rows| && forall i :: 0 <= i < |rows| ==> !(rows[i].passed && rows[i].skipReason.Some?)
    ensures |Those(rows[..n], IsPass())| + |Those(rows[..n], IsSkip())| + |Those(rows[..n], IsFailure())| == n
  {
    if n > 0 {
      CountsPartition(rows, n - 1);
      ThoseNext(rows, IsPass(), n - 1);
      ThoseNext(rows, IsSkip(), n - 1);
      ThoseNext(rows, IsFailure(), n - 1);
    }
  }

  lemma AllCounted(rows: seq<Row>)
    requires forall i :: 0 <= i < |rows| ==> !(rows[i].passed && rows[i].skipReason.Some?)
    ensures |Those(rows, IsPass())| + |Those(rows, IsSkip())| + |Those(rows, IsFailure())| == |rows|
  {
    CountsPartition(rows, |rows|);
    assert rows[..|rows|] == rows;
  }

  /** The passing rows are as many as the passing results. */
  lemma {:induction false} PassesListed(results: map<string, TestRow>, ids: seq<string>, n: nat)
    requires n <= |ids| && (forall id :: id in ids ==> id in results)
    requires forall i, j :: 0 <= i < j < |ids| ==> ids[i] != ids[j]
    ensures |Those(Listed(results, ids)[..n], IsPass())| == |set id | id in ids[..n] && results[id].passed|
  {
    if n > 0 {
      PassesListed(results, ids, n - 1);
      ThoseNext(Listed(results, ids), IsPass(), n - 1);
      PassedNext(results, ids[..n - 1], ids[n - 1]);
      assert ids[..n] == ids[..n - 1] + [ids[n - 1]];
    }
  }

  lemma PassedNext(results: map<string, TestRow>, ids: seq<string>, last: string)
    requires (forall id :: id in ids ==> id in results) && last in results && last !in ids
    ensures |set id | id in ids + [last] && results[id].passed|
         == |set id | id in ids && results[id].passed| + if results[last].passed then 1 else 0
  {
    var before := set id | id in ids && results[id].passed;
    var after := set id | id in ids + [last] && results[id].passed;
    assert after == if results[last].passed then before + {last} else before;
  }

  lemma PassingRows(results: map<string, TestRow>)
    ensures |RowsOf(results)| == |results|
    ensures |Those(RowsOf(results), IsPass())| == |NextestSafety.Passing(results)|
  {
    StringOrderIsStrict();
    var ids := InOrder(results.Keys, StringOrder());
    PassesListed(results, ids, |ids|);
    assert ids[..|ids|] == ids && Listed(results, ids)[..|ids|] == Listed(results, ids);
    assert (set id | id in ids && results[id].passed) == NextestSafety.Passing(results);
    ListingSize(ids, results.Keys);
  }

  lemma {:induction false} ListingSize(ids: seq<string>, keys: set<string>)
    requires (forall i, j :: 0 <= i < j < |ids| ==> ids[i] != ids[j]) && forall id :: id in ids <==> id in keys
    ensures |ids| == |keys|
    decreases |ids|
  {
    if ids == [] {
      assert keys == {};
    } else {
      var n := |ids| - 1;
      assert ids == ids[..n] + [ids[n]];
      ListingSize(ids[..n], keys - {ids[n]});
    }
  }

  // ----- The producer -----

  datatype Cpu = Cpu(records: seq<Record>, entries: seq<NextestInventory.Entry>)

  datatype Settings = Settings(status: int, schema5: bool, skips: seq<Marker>, skids: seq<Marker>, pinned: Option<U64>)

  datatype Report = Report(executed: U64, filtered: U64, passed: nat, skipped: nat, failed: nat, rows: seq<Row>)

  /** The attempts a fail-fast cancel killed, in identity order. */
  ghost function CancelledOf(expected: seq<ExpectedTest>, cpu: Option<Cpu>): seq<AttemptIdentity>
    requires cpu.Some? ==> Agreement(expected, cpu.value.records, cpu.value.entries)
  {
    if cpu.None? then []
    else
      AttemptOrderIsStrict();
      var killed := set r | r in cpu.value.records && !Wanted(expected, cpu.value.entries, r.identity) :: r.identity;
      InOrder(killed, AttemptOrder())
  }

  /** The rows to report: refused on disagreement, on markers without schema 5, or by a pass. */
  ghost function FinalRows(settings: Settings, parsed: ParsedEvents, cpu: Option<Cpu>): Outcome<seq<Row>> {
    if cpu.Some? && !Agreement(parsed.expected, cpu.value.records, cpu.value.entries) then
      Refused
    else if settings.schema5 then
      Reclassified(RowsOf(parsed.results), settings.skips, settings.skids, CancelledOf(parsed.expected, cpu),
                   if cpu.Some? then Some(cpu.value.entries) else None)
    else if settings.skips == [] && settings.skids == [] then
      Accepted(RowsOf(parsed.results))
    else
      Refused
  }

  method Reconciling(expected: seq<ExpectedTest>, cpu: Option<Cpu>) returns (r: Outcome<seq<AttemptIdentity>>)
    requires cpu.Some? ==> |cpu.value.records| <= U64_MAX
    ensures r.Refused? <==> cpu.Some? && !Agreement(expected, cpu.value.records, cpu.value.entries)
    ensures r.Accepted? ==> r.value == CancelledOf(expected, cpu)
  {
    if cpu.None? {
      return Accepted([]);
    }
    var reconciled := Reconcile(expected, cpu.value.records, cpu.value.entries);
    if reconciled.Refused? {
      return Refused;
    }
    AttemptOrderIsStrict();
    var cancelled := List(reconciled.value.cancelled, AttemptOrder());
    ListIsInOrder(cancelled, reconciled.value.cancelled, AttemptOrder());
    assert reconciled.value.cancelled
        == set r | r in cpu.value.records && !Wanted(expected, cpu.value.entries, r.identity) :: r.identity;
    return Accepted(cancelled);
  }

  /** The final rows pass, skip or fail, and lose exactly one pass for each skip marker. */
  ghost predicate Accounted(settings: Settings, results: map<string, TestRow>, rows: seq<Row>) {
    && |rows| == |results|
    && (forall i :: 0 <= i < |rows| ==> !(rows[i].passed && rows[i].skipReason.Some?))
    && |Those(rows, IsPass())| + |settings.skips| == |NextestSafety.Passing(results)|
  }

  method Finalise(settings: Settings, parsed: ParsedEvents, cpu: Option<Cpu>) returns (r: Outcome<seq<Row>>)
    requires cpu.Some? ==> |cpu.value.records| <= U64_MAX
    ensures r == FinalRows(settings, parsed, cpu)
    ensures r.Accepted? ==> Accounted(settings, parsed.results, r.value)
  {
    var cancelled := Reconciling(parsed.expected, cpu);
    if cancelled.Refused? || (!settings.schema5 && !(|settings.skips| == 0 && |settings.skids| == 0)) {
      return Refused;
    }
    var rows := ListRows(parsed.results);
    PassingRows(parsed.results);
    assert forall i :: 0 <= i < |rows| ==> rows[i] in rows;
    if !settings.schema5 {
      return Accepted(rows);
    }
    r := Reclassify(rows, settings.skips, settings.skids, cancelled.value,
                    if cpu.Some? then Some(cpu.value.entries) else None);
    if r.Accepted? {
      UnlaunderedCounts(rows, settings.skips, r.value);
      PassesAreThose(rows);
      PassesAreThose(r.value);
      assert forall i :: 0 <= i < |rows| ==> RowUnlaundered(rows[i], Marked(Ids(rows), settings.skips, i), r.value[i]);
    }
  }

  lemma PassesAreThose(rows: seq<Row>)
    ensures Those(rows, IsPass()) == Passing(rows)
  {
  }

  /** Everything is accepted, a successful run has no failed row, and the executed count is the pinned one. */
  ghost predicate Publishable(settings: Settings, source: Source, events: seq<Event>, cpu: Option<Cpu>) {
    && Reduced(source, events).Accepted?
    && FinalRows(settings, Reduced(source, events).value, cpu).Accepted?
    && (settings.status == 0 ==>
           Those(FinalRows(settings, Reduced(source, events).value, cpu).value, IsFailure()) == {})
    && (settings.pinned.Some? ==> settings.pinned.value == Reduced(source, events).value.executed)
  }

  /**
   * `run`. The checked subtraction that gives the failures never refuses, whatever was skipped or
   * cancelled: passes, skips and failures make up the executed tests. The passes are the stream's
   * successes less one for each skip marker.
   */
  method Publish(settings: Settings, source: Source, events: seq<Event>, cpu: Option<Cpu>) returns (r: Outcome<Report>)
    requires cpu.Some? ==> |cpu.value.records| <= U64_MAX
    ensures r.Accepted? <==> Publishable(settings, source, events, cpu)
    ensures r.Accepted? ==>
              var parsed, report := Reduced(source, events).value, r.value;
              && FinalRows(settings, parsed, cpu) == Accepted(report.rows)
              && report.executed == parsed.executed && report.filtered == parsed.filtered
              && report.passed + report.skipped + report.failed == report.executed
              && report.failed == |Those(report.rows, IsFailure())|
              && report.skipped == |Those(report.rows, IsSkip())|
              && report.passed + |settings.skips| == NextestSafety.Successes(NextestSafety.TerminalLines(events))
  {
    var parsed := NextestReducer.Reduce(source, events);
    if parsed.Refused? {
      return Refused;
    }
    NextestSafety.AcceptedRowsAreTerminalLines(source, events);
    var rows := Finalise(settings, parsed.value, cpu);
    if rows.Refused? {
      return Refused;
    }
    AllCounted(rows.value);
    var passed := Count(rows.value, IsPass());
    var skipped := Count(rows.value, IsSkip());
    if passed + skipped > parsed.value.executed {
      return Refused;
    }
    var failed := parsed.value.executed - (passed + skipped);
    if (settings.status == 0 && failed != 0)
       || (settings.pinned.Some? && settings.pinned.value != parsed.value.executed) {
      return Refused;
    }
    return Accepted(Report(parsed.value.executed, parsed.value.filtered, passed, skipped, failed, rows.value));
  }
}
