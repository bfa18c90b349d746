/** Reconciling the typed retry counts with the CPU wrapper's one-record-per-attempt files. */
module NextestReconcile {
  import opened Base
  import opened Tables
  import opened NextestInventory
  import opened NextestEvents

  datatype AttemptIdentity = AttemptIdentity(package: string, binary: string, test: string, attempt: U64)

  datatype Completion = Exit(code: int) | Signal(signal: int) | SupervisorSignal(signal: int) | CpuTimeout {
    predicate IsSuccess() { this == Exit(0) }
    predicate ByASignal() { Signal? || SupervisorSignal? }
  }

  datatype Record = Record(runId: string, identity: AttemptIdentity, completion: Completion)

  datatype Reconciled = Reconciled(
    runId: Option<string>,
    attempts: map<AttemptIdentity, Record>,
    cancelled: set<AttemptIdentity>)

  // ----- What the typed events require -----

  predicate Resolvable(expected: seq<ExpectedTest>, entries: seq<Entry>) {
    forall i :: 0 <= i < |expected| ==> BinaryOf(expected[i], entries).Accepted?
  }

  function BinaryOf(t: ExpectedTest, entries: seq<Entry>): Outcome<BinaryId> {
    IdentityForSuite(entries, t.suite.package, t.suite.binary, t.suite.kind)
  }

  function AttemptOf(t: ExpectedTest, bin: BinaryId, n: nat): (AttemptIdentity, bool)
    requires 1 <= n <= t.attempts
  {
    (AttemptIdentity(bin.package, bin.binary, t.test, n), t.passed && n == t.attempts)
  }

  function AttemptsOf(t: ExpectedTest, bin: BinaryId): seq<(AttemptIdentity, bool)> {
    seq(t.attempts, n requires 0 <= n < t.attempts => AttemptOf(t, bin, n + 1))
  }

  /** Every attempt the typed events imply, with whether it must have succeeded. */
  function Expansion(expected: seq<ExpectedTest>, entries: seq<Entry>): seq<(AttemptIdentity, bool)>
    requires Resolvable(expected, entries)
  {
    if expected == [] then []
    else
      var t := expected[|expected| - 1];
      Expansion(expected[..|expected| - 1], entries) + AttemptsOf(t, BinaryOf(t, entries).value)
  }

  function Required(expected: seq<ExpectedTest>): nat {
    if expected == [] then 0 else Required(expected[..|expected| - 1]) + expected[|expected| - 1].attempts
  }

  lemma {:induction false} ExpansionLength(expected: seq<ExpectedTest>, entries: seq<Entry>)
    requires Resolvable(expected, entries)
    ensures |Expansion(expected, entries)| == Required(expected)
  {
    if expected != [] {
      ExpansionLength(expected[..|expected| - 1], entries);
    }
  }

  lemma {:induction false} ExpansionPrefix(expected: seq<ExpectedTest>, entries: seq<Entry>, n: nat)
    requires Resolvable(expected, entries) && n <= |expected|
    ensures Expansion(expected[..n], entries) <= Expansion(expected, entries)
    decreases |expected|
  {
    if n < |expected| {
      ExpansionPrefix(expected[..|expected| - 1], entries, n);
      assert expected[..|expected| - 1][..n] == expected[..n];
    } else {
      assert expected[..n] == expected;
    }
  }

  lemma {:induction false} RequiredGrows(expected: seq<ExpectedTest>, n: nat)
    requires n <= |expected|
    ensures Required(expected[..n]) <= Required(expected)
    decreases |expected|
  {
    if n < |expected| {
      RequiredGrows(expected[..|expected| - 1], n);
      assert expected[..|expected| - 1][..n] == expected[..n];
    } else {
      assert expected[..n] == expected;
    }
  }

  // ----- What agreement means -----

  ghost function Rows(records: seq<Record>): seq<(AttemptIdentity, Record)> {
    seq(|records|, i requires 0 <= i < |records| => (records[i].identity, records[i]))
  }

  ghost predicate OneRun(records: seq<Record>) {
    forall i :: 0 <= i < |records| ==> records[i].runId == records[0].runId
  }

  ghost predicate Wanted(expected: seq<ExpectedTest>, entries: seq<Entry>, id: AttemptIdentity)
    requires Resolvable(expected, entries)
  {
    HasKey(Expansion(expected, entries), id)
  }

  /** Both sides name every attempt once, agree on the wanted ones, and the rest were killed. */
  ghost predicate Agreement(expected: seq<ExpectedTest>, records: seq<Record>, entries: seq<Entry>) {
    && (forall t :: t in expected ==> t.suite.stress.None?)
    && Resolvable(expected, entries)
    && OneRun(records)
    && Distinct(Rows(records))
    && var expansion := Expansion(expected, entries);
       && Distinct(expansion)
       && (forall p :: p in expansion ==>
             exists r :: r in records && r.identity == p.0 && r.completion.IsSuccess() == p.1)
       && (forall r :: r in records && !Wanted(expected, entries, r.identity) ==> r.completion.ByASignal())
  }

  /** The bound on the retry population refuses nothing that would otherwise agree. */
  lemma AgreementIsBounded(expected: seq<ExpectedTest>, records: seq<Record>, entries: seq<Entry>)
    requires Agreement(expected, records, entries)
    ensures Required(expected) <= |records|
  {
    var expansion := Expansion(expected, entries);
    ExpansionLength(expected, entries);
    var keys := set r | r in records :: r.identity;
    assert forall i :: 0 <= i < |expansion| ==> expansion[i] in expansion;
    DistinctFits(expansion, keys);
    KeysOf(records);
  }

  lemma {:induction false} KeysOf(records: seq<Record>)
    ensures |set r | r in records :: r.identity| <= |records|
  {
    if records != [] {
      var n := |records| - 1;
      KeysOf(records[..n]);
      assert (set r | r in records :: r.identity)
          == (set r | r in records[..n] :: r.identity) + {records[n].identity};
    }
  }

  /**
   * What agreement gives the reader: a test reported with k attempts has records 1 to k, of which
   * only the last may have succeeded, and it did exactly when the test passed.
   */
  lemma EachAttemptIsRecorded(expected: seq<ExpectedTest>, records: seq<Record>, entries: seq<Entry>, i: nat, n: U64)
    requires Agreement(expected, records, entries)
    requires i < |expected| && 1 <= n <= expected[i].attempts
    ensures var t := expected[i];
            var bin := BinaryOf(t, entries).value;
            exists r :: r in records && r.identity == AttemptIdentity(bin.package, bin.binary, t.test, n)
                        && r.completion.IsSuccess() == (t.passed && n == t.attempts)
  {
    AttemptExpanded(expected, entries, i, n);
  }

  lemma ExpansionNext(expected: seq<ExpectedTest>, entries: seq<Entry>, i: nat)
    requires i < |expected| && Resolvable(expected[..i + 1], entries)
    ensures Resolvable(expected[..i], entries) && BinaryOf(expected[i], entries).Accepted?
    ensures Expansion(expected[..i + 1], entries)
         == Expansion(expected[..i], entries) + AttemptsOf(expected[i], BinaryOf(expected[i], entries).value)
  {
    assert expected[..i + 1][..i] == expected[..i] && expected[..i + 1][i] == expected[i];
  }

  lemma AttemptExpanded(expected: seq<ExpectedTest>, entries: seq<Entry>, i: nat, n: U64)
    requires Resolvable(expected, entries) && i < |expected| && 1 <= n <= expected[i].attempts
    ensures AttemptOf(expected[i], BinaryOf(expected[i], entries).value, n) in Expansion(expected, entries)
  {
    var t, bin := expected[i], BinaryOf(expected[i], entries).value;
    assert AttemptsOf(t, bin)[n - 1] == AttemptOf(t, bin, n);
    assert AttemptOf(t, bin, n) in Expansion(expected[..i + 1], entries) by { ExpansionNext(expected, entries, i); }
    assert Expansion(expected[..i + 1], entries) <= Expansion(expected, entries) by {
      ExpansionPrefix(expected, entries, i + 1);
    }
    InPrefix(AttemptOf(t, bin, n), Expansion(expected[..i + 1], entries), Expansion(expected, entries));
  }

  lemma InPrefix<T>(x: T, prefix: seq<T>, whole: seq<T>)
    requires prefix <= whole && x in prefix
    ensures x in whole
  {
    var i :| 0 <= i < |prefix| && prefix[i] == x;
    assert whole[i] == x;
  }

  /** A repeat among the first attempts is a repeat among all. */
  lemma ExpansionRefused(expected: seq<ExpectedTest>, entries: seq<Entry>, n: nat)
    requires n <= |expected| && Resolvable(expected[..n], entries) && Table(Expansion(expected[..n], entries)).Refused?
    ensures Resolvable(expected, entries) ==> Table(Expansion(expected, entries)).Refused?
  {
    if Resolvable(expected, entries) {
      ExpansionPrefix(expected, entries, n);
      var whole, done := Expansion(expected, entries), Expansion(expected[..n], entries);
      assert whole[..|done|] == done;
      TablePrefix(whole, |done|);
    }
  }

  // ----- The reconciliation as it runs -----

  /** The checked fold of the retry counts. */
  method CountRequired(expected: seq<ExpectedTest>) returns (r: Outcome<U64>)
    ensures r.Accepted? <==> Required(expected) <= U64_MAX
    ensures r.Accepted? ==> r.value == Required(expected)
  {
    var total: U64 := 0;
    for i := 0 to |expected|
      invariant total == Required(expected[..i])
    {
      assert expected[..i + 1][..i] == expected[..i];
      RequiredGrows(expected, i + 1);
      if total + expected[i].attempts > U64_MAX {
        return Refused;
      }
      total := total + expected[i].attempts;
    }
    assert expected[..|expected|] == expected;
    return Accepted(total);
  }

  /** Inserts the attempts of one test after `before`, which the table already holds. */
  method InsertAttempts(t: ExpectedTest, bin: BinaryId, table: map<AttemptIdentity, bool>,
                        ghost before: seq<(AttemptIdentity, bool)>)
    returns (r: Outcome<map<AttemptIdentity, bool>>)
    requires Table(before) == Accepted(table)
    ensures r == Table(before + AttemptsOf(t, bin))
  {
    var next := table;
    ghost var whole := before + AttemptsOf(t, bin);
    assert whole[..|before|] == before;
    for n := 0 to t.attempts
      invariant Table(whole[..|before| + n]) == Accepted(next)
    {
      var (id, passed) := AttemptOf(t, bin, n + 1);
      assert whole[..|before| + n + 1] == whole[..|before| + n] + [(id, passed)];
      TableNext(whole[..|before| + n], id, passed);
      if id in next {
        TablePrefix(whole, |before| + n + 1);
        return Refused;
      }
      next := next[id := passed];
    }
    assert whole[..|before| + t.attempts] == whole;
    return Accepted(next);
  }

  /** The table of every attempt the typed events imply. */
  method Expand(expected: seq<ExpectedTest>, entries: seq<Entry>) returns (r: Outcome<map<AttemptIdentity, bool>>)
    ensures r == if Resolvable(expected, entries) then Table(Expansion(expected, entries)) else Refused
  {
    var table: map<AttemptIdentity, bool> := map[];
    for i := 0 to |expected|
      invariant Resolvable(expected[..i], entries)
      invariant Table(Expansion(expected[..i], entries)) == Accepted(table)
    {
      var found := BinaryOf(expected[i], entries);
      if found.Refused? {
        return Refused;
      }
      assert Resolvable(expected[..i + 1], entries);
      ExpansionNext(expected, entries, i);
      var next := InsertAttempts(expected[i], found.value, table, Expansion(expected[..i], entries));
      if next.Refused? {
        ExpansionRefused(expected, entries, i + 1);
        return Refused;
      }
      table := next.value;
    }
    assert expected[..|expected|] == expected;
    return Accepted(table);
  }

  /** The table of the supplied records, which must share a run. */
  method Index(records: seq<Record>) returns (r: Outcome<(Option<string>, map<AttemptIdentity, Record>)>)
    ensures r.Accepted? <==> OneRun(records) && Table(Rows(records)).Accepted?
    ensures r.Accepted? ==> Table(Rows(records)) == Accepted(r.value.1)
    ensures r.Accepted? ==> r.value.0 == if records == [] then None else Some(records[0].runId)
  {
    var table: map<AttemptIdentity, Record> := map[];
    var runId: Option<string> := None;
    for i := 0 to |records|
      invariant Table(Rows(records)[..i]) == Accepted(table)
      invariant runId == if i == 0 then None else Some(records[0].runId)
      invariant forall k :: 0 <= k < i ==> records[k].runId == records[0].runId
    {
      if runId.Some? && runId.value != records[i].runId {
        return Refused;
      }
      runId := Some(records[i].runId);
      var id := records[i].identity;
      assert Rows(records)[..i + 1] == Rows(records)[..i] + [(id, records[i])];
      TableNext(Rows(records)[..i], id, records[i]);
      if id in table {
        TablePrefix(Rows(records), i + 1);
        return Refused;
      }
      table := table[id := records[i]];
    }
    assert Rows(records)[..|records|] == Rows(records);
    return Accepted((runId, table));
  }

  /** The two tables agree. */
  ghost predicate TablesAgree(wanted: map<AttemptIdentity, bool>, actual: map<AttemptIdentity, Record>) {
    && (forall id :: id in wanted ==> id in actual && actual[id].completion.IsSuccess() == wanted[id])
    && (forall id :: id in actual && id !in wanted ==> actual[id].completion.ByASignal())
  }

  lemma TablesDecideAgreement(expected: seq<ExpectedTest>, records: seq<Record>, entries: seq<Entry>,
                              wanted: map<AttemptIdentity, bool>, actual: map<AttemptIdentity, Record>)
    requires Resolvable(expected, entries) && Tabulates(Expansion(expected, entries), wanted)
             && Tabulates(Rows(records), actual)
    requires forall t :: t in expected ==> t.suite.stress.None?
    requires OneRun(records)
    ensures TablesAgree(wanted, actual) <==> Agreement(expected, records, entries)
    ensures forall id :: id in wanted <==> Wanted(expected, entries, id)
    ensures forall r :: r in records <==> r.identity in actual && actual[r.identity] == r
    ensures forall id :: id in actual ==> actual[id].identity == id
  {
    RowsAreRecords(records, actual);
    var expansion := Expansion(expected, entries);
    if TablesAgree(wanted, actual) {
      WantedRecorded(expansion, records, wanted, actual);
    }
    if Agreement(expected, records, entries) {
      forall id | id in wanted ensures id in actual && actual[id].completion.IsSuccess() == wanted[id] {
        assert HasKey(expansion, id);
      }
    }
  }

  lemma WantedRecorded(expansion: seq<(AttemptIdentity, bool)>, records: seq<Record>,
                       wanted: map<AttemptIdentity, bool>, actual: map<AttemptIdentity, Record>)
    requires TablesAgree(wanted, actual) && forall p :: p in expansion ==> p.0 in wanted && wanted[p.0] == p.1
    requires forall id :: id in actual ==> actual[id].identity == id
    requires forall r :: r in records <==> r.identity in actual && actual[r.identity] == r
    ensures forall p :: p in expansion ==>
              exists r :: r in records && r.identity == p.0 && r.completion.IsSuccess() == p.1
  {
    forall p | p in expansion
      ensures exists r :: r in records && r.identity == p.0 && r.completion.IsSuccess() == p.1
    {
      assert actual[p.0] in records;
    }
  }

  lemma RowsAreRecords(records: seq<Record>, actual: map<AttemptIdentity, Record>)
    requires Tabulates(Rows(records), actual)
    ensures forall r :: r in records <==> r.identity in actual && actual[r.identity] == r
    ensures forall id :: id in actual ==> actual[id].identity == id
  {
    var rows := Rows(records);
    forall r: Record ensures r in records <==> (r.identity, r) in rows {
      if r in records {
        var i :| 0 <= i < |records| && records[i] == r;
        assert rows[i] == (r.identity, r);
      }
    }
    forall id | id in actual ensures actual[id].identity == id && actual[id] in records {
      assert HasKey(rows, id);
      var p :| p in rows && p.0 == id;
      assert p.1.identity == id;
    }
  }

  method AnyStress(expected: seq<ExpectedTest>) returns (found: bool)
    ensures found <==> exists t :: t in expected && t.suite.stress.Some?
  {
    for i := 0 to |expected|
      invariant forall k :: 0 <= k < i ==> expected[k].suite.stress.None?
    {
      if expected[i].suite.stress.Some? {
        return true;
      }
    }
    return false;
  }

  /** The missing, unexpected and disagreeing identities; on agreement, the cancelled ones. */
  method Compare(wanted: map<AttemptIdentity, bool>, actual: map<AttemptIdentity, Record>)
    returns (r: Outcome<set<AttemptIdentity>>)
    ensures r.Accepted? <==> TablesAgree(wanted, actual)
    ensures r.Accepted? ==> r.value == actual.Keys - wanted.Keys && |wanted| + |r.value| == |actual|
  {
    var missing := exists id :: id in wanted && id !in actual;
    var unexpected := exists id :: id in actual && id !in wanted && !actual[id].completion.ByASignal();
    if missing || unexpected {
      return Refused;
    }
    if exists id :: id in wanted && wanted[id] != actual[id].completion.IsSuccess() {
      return Refused;
    }
    SizesAdd(wanted.Keys, actual.Keys);
    return Accepted(actual.Keys - wanted.Keys);
  }

  lemma SizesAdd(part: set<AttemptIdentity>, whole: set<AttemptIdentity>)
    requires part <= whole
    ensures |part| + |whole - part| == |whole|
  {
    assert whole == part + (whole - part);
  }

  /**
   * `reconcile_cpu_attempts_with_cancelled`: accepted exactly on agreement, and then the records are
   * the disjoint union of the wanted attempts and the cancelled ones, all of which a signal ended.
   */
  method Reconcile(expected: seq<ExpectedTest>, records: seq<Record>, entries: seq<Entry>)
    returns (r: Outcome<Reconciled>)
    requires |records| <= U64_MAX
    ensures r.Accepted? <==> Agreement(expected, records, entries)
    ensures r.Accepted? ==>
              && r.value.runId == (if records == [] then None else Some(records[0].runId))
              && |r.value.attempts| == |records|
              && (forall x :: x in records <==> x.identity in r.value.attempts && r.value.attempts[x.identity] == x)
              && (forall id :: id in r.value.attempts ==> r.value.attempts[id].identity == id)
              && (forall id :: id in r.value.cancelled <==> id in r.value.attempts && !Wanted(expected, entries, id))
              && (forall id :: id in r.value.cancelled ==> r.value.attempts[id].completion.ByASignal())
              && Required(expected) + |r.value.cancelled| == |records|
  {
    var stress := AnyStress(expected);
    if stress {
      return Refused;
    }
    if Agreement(expected, records, entries) {
      AgreementIsBounded(expected, records, entries);
    }
    var required := CountRequired(expected);
    if required.Refused? || required.value > |records| {
      return Refused;
    }
    var wanted := Expand(expected, entries);
    if wanted.Refused? {
      if Resolvable(expected, entries) {
        TableTabulates(Expansion(expected, entries));
      }
      return Refused;
    }
    TableTabulates(Expansion(expected, entries));
    TableTabulates(Rows(records));
    var actual := Index(records);
    if actual.Refused? {
      return Refused;
    }
    TablesDecideAgreement(expected, records, entries, wanted.value, actual.value.1);
    var cancelled := Compare(wanted.value, actual.value.1);
    if cancelled.Refused? {
      return Refused;
    }
    ExpansionLength(expected, entries);
    return Accepted(Reconciled(actual.value.0, actual.value.1, cancelled.value));
  }
}
