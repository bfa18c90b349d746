/** The three passes that reclassify terminal rows: skip markers, skid-infrastructure markers, cancelled attempts. */
module NextestReclassify {
  import opened Base
  import NextestInventory
  import NextestReconcile

  datatype AttemptOutcome = Passed | Failed | Skipped | InfrastructureError | Cancelled

  /** One classified attempt; the detail text is not modelled. */
  datatype AttemptResult = AttemptResult(attempt: nat, outcome: AttemptOutcome)

  type Count = n: nat | n >= 1 witness 1

  /** A terminal row. A row with a skip reason is skipped, hence not passed. */
  datatype Row = Row(
    id: string,
    passed: bool,
    skipReason: Option<string>,
    attempts: Count,
    classified: Option<seq<AttemptResult>>)

  datatype Marker = Marker(name: string, reason: string, claimedAttempts: Option<nat>)

  const SKID_INFRA_ATTEMPTS: nat := 5

  // ----- Rows -----

  predicate Numbered(attempts: seq<AttemptResult>) {
    forall i :: 0 <= i < |attempts| ==> attempts[i].attempt == i + 1
  }

  /** A row as the event stream leaves it: not yet classified. */
  predicate Fresh(row: Row) {
    row.skipReason.None? && row.classified.None?
  }

  /** A classified row: its attempts are numbered from one, and it passed exactly when its last attempt did. */
  predicate Classified(row: Row) {
    && row.classified.Some?
    && |row.classified.value| == row.attempts
    && Numbered(row.classified.value)
    && (row.passed <==> row.classified.value[row.attempts - 1].outcome == Passed)
    && (row.skipReason.Some? <==> row.classified.value[row.attempts - 1].outcome == Skipped)
  }

  /** Retries follow only failures, so every attempt before the terminal one failed. */
  function AttemptsEnding(count: Count, terminal: AttemptOutcome): (attempts: seq<AttemptResult>)
    ensures |attempts| == count && Numbered(attempts)
  {
    seq(count, i requires 0 <= i < count => AttemptResult(i + 1, if i + 1 == count then terminal else Failed))
  }

  /** `classified_attempts`. */
  method ClassifiedAttempts(row: Row) returns (attempts: seq<AttemptResult>)
    ensures attempts == AttemptsEnding(row.attempts, if row.passed then Passed else Failed)
  {
    attempts := [];
    for attempt := 1 to row.attempts
      invariant attempts == AttemptsEnding(row.attempts, Passed)[..attempt - 1]
    {
      attempts := attempts + [AttemptResult(attempt, Failed)];
    }
    attempts := attempts + [AttemptResult(row.attempts, if row.passed then Passed else Failed)];
  }

  function SkippedRow(row: Row, reason: string): Row {
    Row(row.id, false, Some(reason), row.attempts, Some(AttemptsEnding(row.attempts, Skipped)))
  }

  function ClassifiedRow(row: Row): Row {
    row.(classified := Some(AttemptsEnding(row.attempts, if row.passed then Passed else Failed)))
  }

  /** `with_attempt_results`: a row that is not skipped, with the attempts it lists. */
  function RowWith(id: string, passed: bool, attempts: seq<AttemptResult>): Row
    requires attempts != []
  {
    Row(id, passed, None, |attempts|, Some(attempts))
  }

  // ----- Which row a marker names -----

  /** What follows the last `$`, or the whole id. */
  function TestPart(id: string): string {
    if '$' !in id then id else if '$' in id[1..] then TestPart(id[1..]) else AfterFirst(id)
  }

  function AfterFirst(id: string): string {
    if id == "" then "" else if id[0] == '$' then id[1..] else AfterFirst(id[1..])
  }

  predicate Names(name: string, id: string) {
    var test, suffix := TestPart(id), "::" + name;
    test == name || (|suffix| <= |test| && test[|test| - |suffix|..] == suffix)
  }

  function Ids(rows: seq<Row>): seq<string> {
    seq(|rows|, i requires 0 <= i < |rows| => rows[i].id)
  }

  ghost predicate OnlyMatch(ids: seq<string>, name: string, i: nat) {
    i < |ids| && Names(name, ids[i]) && forall j :: 0 <= j < |ids| && j != i ==> !Names(name, ids[j])
  }

  ghost function MatchOf(ids: seq<string>, name: string): (m: Option<nat>)
    ensures m.Some? ==> OnlyMatch(ids, name, m.value)
    ensures m.None? ==> forall i :: !OnlyMatch(ids, name, i)
  {
    if exists i :: OnlyMatch(ids, name, i) then var i :| OnlyMatch(ids, name, i); Some(i) else None
  }

  /** The match vector of a marker, which must have exactly one entry. */
  method FindMatch(rows: seq<Row>, name: string) returns (m: Option<nat>)
    ensures m == MatchOf(Ids(rows), name)
    ensures m.Some? ==> m.value < |rows|
  {
    var matches: seq<nat> := [];
    for i := 0 to |rows|
      invariant forall k :: 0 <= k < |matches| ==> matches[k] < i && Names(name, rows[matches[k]].id)
      invariant forall k, l :: 0 <= k < l < |matches| ==> matches[k] < matches[l]
      invariant forall j :: 0 <= j < i && Names(name, rows[j].id) ==> j in matches
    {
      if Names(name, rows[i].id) {
        matches := matches + [i];
      }
    }
    if |matches| == 1 {
      assert OnlyMatch(Ids(rows), name, matches[0]);
      return Some(matches[0]);
    }
    ghost var ids := Ids(rows);
    assert forall j :: 0 <= j < |ids| && Names(name, ids[j]) ==> j in matches;
    if |matches| >= 2 {
      assert Names(name, ids[matches[0]]) && Names(name, ids[matches[1]]) && matches[0] != matches[1];
    }
    return None;
  }

  // ----- Marker passes -----

  ghost function RowOf(ids: seq<string>, markers: seq<Marker>, k: nat): Option<nat>
    requires k < |markers|
  {
    MatchOf(ids, markers[k].name)
  }

  /** Every marker names exactly one row, which admits it, and no two markers name the same row. */
  ghost predicate Admissible(rows: seq<Row>, markers: seq<Marker>, guard: (Row, Marker) -> bool) {
    && (forall k :: 0 <= k < |markers| ==>
          RowOf(Ids(rows), markers, k).Some? && guard(rows[RowOf(Ids(rows), markers, k).value], markers[k]))
    && (forall k, l :: 0 <= k < l < |markers| ==> RowOf(Ids(rows), markers, k) != RowOf(Ids(rows), markers, l))
  }

  ghost predicate Marked(ids: seq<string>, markers: seq<Marker>, i: nat) {
    exists k :: 0 <= k < |markers| && RowOf(ids, markers, k) == Some(i)
  }

  /** The marked rows are rewritten for their marker; every other row is kept. */
  ghost predicate Rewritten(rows: seq<Row>, markers: seq<Marker>, guard: (Row, Marker) -> bool,
                            rewrite: (Row, Marker) -> Row, after: seq<Row>)
    requires Admissible(rows, markers, guard)
  {
    && |after| == |rows|
    && (forall k :: 0 <= k < |markers| ==>
          after[RowOf(Ids(rows), markers, k).value] == rewrite(rows[RowOf(Ids(rows), markers, k).value], markers[k]))
    && (forall i :: 0 <= i < |rows| && !Marked(Ids(rows), markers, i) ==> after[i] == rows[i])
  }

  /** A rewritten row keeps its id and admits no further marker. */
  ghost predicate Consumes(guard: (Row, Marker) -> bool, rewrite: (Row, Marker) -> Row) {
    forall row: Row, m: Marker :: guard(row, m) ==>
      rewrite(row, m).id == row.id && forall n: Marker :: !guard(rewrite(row, m), n)
  }

  lemma FewerMarkers(rows: seq<Row>, markers: seq<Marker>, n: nat, guard: (Row, Marker) -> bool)
    requires n <= |markers| && Admissible(rows, markers, guard)
    ensures Admissible(rows, markers[..n], guard)
  {
    assert forall k :: 0 <= k < n ==> RowOf(Ids(rows), markers[..n], k) == RowOf(Ids(rows), markers, k);
  }

  lemma StaysRefused(rows: seq<Row>, markers: seq<Marker>, n: nat, guard: (Row, Marker) -> bool)
    requires n <= |markers| && !Admissible(rows, markers[..n], guard)
    ensures !Admissible(rows, markers, guard)
  {
    if Admissible(rows, markers, guard) {
      FewerMarkers(rows, markers, n, guard);
    }
  }

  lemma MarkedNext(ids: seq<string>, done: seq<Marker>, marker: Marker)
    ensures forall k :: 0 <= k < |done| ==> RowOf(ids, done + [marker], k) == RowOf(ids, done, k)
    ensures RowOf(ids, done + [marker], |done|) == MatchOf(ids, marker.name)
    ensures forall i: nat ::
              Marked(ids, done + [marker], i) <==> Marked(ids, done, i) || MatchOf(ids, marker.name) == Some(i)
  {
    var next := done + [marker];
    assert forall k :: 0 <= k < |done| ==> RowOf(ids, next, k) == RowOf(ids, done, k);
    assert RowOf(ids, next, |done|) == MatchOf(ids, marker.name);
  }

  /** One more marker is admissible exactly when the row it names is unmarked and admits it. */
  lemma AdmissibleNext(rows: seq<Row>, done: seq<Marker>, marker: Marker, guard: (Row, Marker) -> bool)
    requires Admissible(rows, done, guard)
    ensures var m := MatchOf(Ids(rows), marker.name);
            Admissible(rows, done + [marker], guard) <==>
            m.Some? && !Marked(Ids(rows), done, m.value) && guard(rows[m.value], marker)
  {
    var ids, next := Ids(rows), done + [marker];
    MarkedNext(ids, done, marker);
    var m := MatchOf(ids, marker.name);
    if m.Some? && Marked(ids, done, m.value) {
      var k :| 0 <= k < |done| && RowOf(ids, done, k) == m;
      assert RowOf(ids, next, k) == RowOf(ids, next, |done|);
    }
  }

  /** The table so far tells the same: a marked row has been consumed, an unmarked one is unchanged. */
  lemma NextMarker(rows: seq<Row>, done: seq<Marker>, marker: Marker, guard: (Row, Marker) -> bool,
                   rewrite: (Row, Marker) -> Row, now: seq<Row>)
    requires Consumes(guard, rewrite) && Admissible(rows, done, guard) && Rewritten(rows, done, guard, rewrite, now)
    ensures var m := MatchOf(Ids(rows), marker.name);
            && (Admissible(rows, done + [marker], guard) <==> m.Some? && guard(now[m.value], marker))
            && (m.Some? && guard(now[m.value], marker) ==> now[m.value] == rows[m.value])
  {
    AdmissibleNext(rows, done, marker, guard);
    var m := MatchOf(Ids(rows), marker.name);
    if m.Some? && Marked(Ids(rows), done, m.value) {
      var k :| 0 <= k < |done| && RowOf(Ids(rows), done, k) == m;
      assert now[m.value] == rewrite(rows[m.value], done[k]);
    }
  }

  lemma RewriteNext(rows: seq<Row>, done: seq<Marker>, marker: Marker, guard: (Row, Marker) -> bool,
                    rewrite: (Row, Marker) -> Row, now: seq<Row>)
    requires Admissible(rows, done, guard) && Rewritten(rows, done, guard, rewrite, now)
    requires Admissible(rows, done + [marker], guard) && MatchOf(Ids(rows), marker.name).Some?
    ensures var i := MatchOf(Ids(rows), marker.name).value;
            Rewritten(rows, done + [marker], guard, rewrite, now[i := rewrite(rows[i], marker)])
  {
    MarkedNext(Ids(rows), done, marker);
    AdmissibleNext(rows, done, marker, guard);
  }

  /** Row `i` after a pass: rewritten for the marker that names it. */
  ghost function RowAfter(rows: seq<Row>, markers: seq<Marker>, rewrite: (Row, Marker) -> Row, i: nat): Row
    requires i < |rows|
  {
    if Marked(Ids(rows), markers, i)
    then var k :| 0 <= k < |markers| && RowOf(Ids(rows), markers, k) == Some(i); rewrite(rows[i], markers[k])
    else rows[i]
  }

  /** A whole marker pass: refused unless every marker is admissible on the rows it starts from. */
  ghost function MarkPass(rows: seq<Row>, markers: seq<Marker>, guard: (Row, Marker) -> bool,
                          rewrite: (Row, Marker) -> Row)
    : Outcome<seq<Row>>
  {
    if Admissible(rows, markers, guard)
    then Accepted(seq(|rows|, i requires 0 <= i < |rows| => RowAfter(rows, markers, rewrite, i)))
    else Refused
  }

  lemma RewrittenIsMarkPass(rows: seq<Row>, markers: seq<Marker>, guard: (Row, Marker) -> bool,
                            rewrite: (Row, Marker) -> Row, after: seq<Row>)
    requires Admissible(rows, markers, guard)
    ensures Rewritten(rows, markers, guard, rewrite, after)
            <==> MarkPass(rows, markers, guard, rewrite) == Accepted(after)
  {
    var pass := MarkPass(rows, markers, guard, rewrite).value;
    forall k | 0 <= k < |markers|
      ensures var i := RowOf(Ids(rows), markers, k).value; pass[i] == rewrite(rows[i], markers[k])
    {
      var i := RowOf(Ids(rows), markers, k).value;
      assert Marked(Ids(rows), markers, i);
      assert forall l :: 0 <= l < |markers| && RowOf(Ids(rows), markers, l) == Some(i) ==> l == k;
    }
    if Rewritten(rows, markers, guard, rewrite, after) {
      forall i | 0 <= i < |rows| ensures after[i] == pass[i] {
        if Marked(Ids(rows), markers, i) {
          var k :| 0 <= k < |markers| && RowOf(Ids(rows), markers, k) == Some(i);
        }
      }
      assert after == pass;
    }
  }

  /** The marker loop both marker passes run. */
  method MarkRows(rows: seq<Row>, markers: seq<Marker>, guard: (Row, Marker) -> bool, rewrite: (Row, Marker) -> Row)
    returns (r: Outcome<seq<Row>>)
    requires Consumes(guard, rewrite)
    ensures r == MarkPass(rows, markers, guard, rewrite)
    ensures r.Accepted? ==> Rewritten(rows, markers, guard, rewrite, r.value) && Ids(r.value) == Ids(rows)
  {
    var results := rows;
    for k := 0 to |markers|
      invariant Ids(results) == Ids(rows)
      invariant Admissible(rows, markers[..k], guard) && Rewritten(rows, markers[..k], guard, rewrite, results)
    {
      assert markers[..k + 1] == markers[..k] + [markers[k]];
      NextMarker(rows, markers[..k], markers[k], guard, rewrite, results);
      var m := FindMatch(results, markers[k].name);
      if m.None? || !guard(results[m.value], markers[k]) {
        StaysRefused(rows, markers, k + 1, guard);
        return Refused;
      }
      RewriteNext(rows, markers[..k], markers[k], guard, rewrite, results);
      results := results[m.value := rewrite(results[m.value], markers[k])];
    }
    assert markers[..|markers|] == markers;
    RewrittenIsMarkPass(rows, markers, guard, rewrite, results);
    return Accepted(results);
  }

  function MaySkip(): (Row, Marker) -> bool {
    (row: Row, marker: Marker) => row.passed
  }

  function Skipping(): (Row, Marker) -> Row {
    (row: Row, marker: Marker) => SkippedRow(row, marker.reason)
  }

  /** A skid-infrastructure marker claims the whole budget and names a row whose terminal attempt failed. */
  function MayBlameSkid(): (Row, Marker) -> bool {
    (row: Row, marker: Marker) =>
      && marker.claimedAttempts == Some(SKID_INFRA_ATTEMPTS)
      && !row.passed
      && row.skipReason.None?
      && row.classified.Some?
      && row.classified.value != []
      && row.classified.value[|row.classified.value| - 1].outcome == Failed
  }

  function BlamingSkid(): (Row, Marker) -> Row {
    (row: Row, marker: Marker) =>
      if row.classified.Some? && row.classified.value != [] then
        var attempts := row.classified.value;
        RowWith(row.id, false, attempts[..|attempts| - 1] + [AttemptResult(row.attempts, InfrastructureError)])
      else row
  }

  function ClassifyAll(rows: seq<Row>): seq<Row> {
    seq(|rows|, i requires 0 <= i < |rows| => if rows[i].classified.None? then ClassifiedRow(rows[i]) else rows[i])
  }

  ghost function SkipPass(rows: seq<Row>, markers: seq<Marker>): Outcome<seq<Row>> {
    match MarkPass(rows, markers, MaySkip(), Skipping())
    case Refused => Refused
    case Accepted(marked) => Accepted(ClassifyAll(marked))
  }

  /** `apply_skip_markers`: mark, then classify every row the markers left alone. */
  method ApplySkipMarkers(rows: seq<Row>, markers: seq<Marker>) returns (r: Outcome<seq<Row>>)
    requires forall row :: row in rows ==> Fresh(row)
    ensures r == SkipPass(rows, markers)
    ensures r.Accepted? ==>
              && Ids(r.value) == Ids(rows)
              && (forall k :: 0 <= k < |markers| ==>
                    var i := RowOf(Ids(rows), markers, k).value; r.value[i] == SkippedRow(rows[i], markers[k].reason))
              && (forall i :: 0 <= i < |rows| && !Marked(Ids(rows), markers, i) ==>
                     r.value[i] == ClassifiedRow(rows[i]))
  {
    var marked := MarkRows(rows, markers, MaySkip(), Skipping());
    if marked.Refused? {
      return Refused;
    }
    var results := marked.value;
    assert Ids(results) == Ids(rows);
    for i := 0 to |results|
      invariant |results| == |rows|
      invariant forall j :: i <= j < |rows| ==> results[j] == marked.value[j]
      invariant forall j :: 0 <= j < i && marked.value[j].classified.None? ==>
                  results[j] == ClassifiedRow(marked.value[j])
      invariant forall j :: 0 <= j < i && marked.value[j].classified.Some? ==> results[j] == marked.value[j]
    {
      if results[i].classified.None? {
        var attempts := ClassifiedAttempts(results[i]);
        results := results[i := results[i].(classified := Some(attempts))];
      }
    }
    assert forall i :: 0 <= i < |rows| ==> rows[i] in rows;
    SameIds(results, marked.value);
    assert results == ClassifyAll(marked.value);
    return Accepted(results);
  }

  lemma SameIds(a: seq<Row>, b: seq<Row>)
    requires |a| == |b| && forall i :: 0 <= i < |a| ==> a[i].id == b[i].id
    ensures Ids(a) == Ids(b)
  {
  }

  // ----- Cancelled attempts -----

  function KindOf(entries: seq<NextestInventory.Entry>, package: string, binary: string): Outcome<string> {
    if entries == [] then Refused
    else if entries[0].package == package && entries[0].binary == binary then Accepted(entries[0].kind)
    else KindOf(entries[1..], package, binary)
  }

  function FirstRow(rows: seq<Row>, id: string): (i: Option<nat>)
    ensures i.Some? ==> i.value < |rows| && rows[i.value].id == id
    ensures i.None? ==> forall row :: row in rows ==> row.id != id
  {
    if rows == [] then None
    else if rows[0].id == id then Some(0)
    else match FirstRow(rows[1..], id)
      case None => None
      case Some(i) => Some(i + 1)
  }

  /** One cancelled identity against the rows; a test without a row is left to the CPU report. */
  function CancelOne(entries: seq<NextestInventory.Entry>, rows: seq<Row>, identity: NextestReconcile.AttemptIdentity)
    : Outcome<seq<Row>>
  {
    match KindOf(entries, identity.package, identity.binary)
    case Refused => Refused
    case Accepted(kind) =>
      var id := NextestInventory.DisplayedTestId(identity.package, identity.binary, identity.test, kind, None);
      match FirstRow(rows, id)
      case None => Accepted(rows)
      case Some(i) =>
        var row := rows[i];
        if row.passed || identity.attempt != row.attempts + 1 || row.classified.None? then
          Refused
        else
          var attempts := row.classified.value + [AttemptResult(identity.attempt, Cancelled)];
          Accepted(rows[i := RowWith(row.id, false, attempts)])
  }

  function CancelAll(entries: seq<NextestInventory.Entry>, rows: seq<Row>,
                     cancelled: seq<NextestReconcile.AttemptIdentity>)
    : Outcome<seq<Row>>
    decreases |cancelled|
  {
    if cancelled == [] then
      Accepted(rows)
    else match CancelOne(entries, rows, cancelled[0])
      case Refused => Refused
      case Accepted(next) => CancelAll(entries, next, cancelled[1..])
  }

  /** `after` is `before`, possibly with cancelled attempts appended, and passes exactly when it did. */
  ghost predicate Extends(before: Row, after: Row) {
    && after.id == before.id
    && after.passed == before.passed
    && Classified(before) && Classified(after)
    && before.classified.value <= after.classified.value
    && (forall k :: |before.classified.value| <= k < |after.classified.value| ==>
           after.classified.value[k].outcome == Cancelled)
    && (before.classified == after.classified ==> after == before)
  }

  lemma ExtendsTransitive(a: Row, b: Row, c: Row)
    requires Extends(a, b) && Extends(b, c)
    ensures Extends(a, c)
  {
    var x, y, z := a.classified.value, b.classified.value, c.classified.value;
    forall k | |x| <= k < |z| ensures z[k].outcome == Cancelled {
      if k < |y| {
        assert z[k] == y[k];
      }
    }
    if x == z {
      assert y == x;
    }
  }

  ghost predicate OnlyCancels(before: seq<Row>, after: seq<Row>) {
    |after| == |before| && forall i :: 0 <= i < |before| ==> Extends(before[i], after[i])
  }

  lemma CancelOneOnlyCancels(entries: seq<NextestInventory.Entry>, rows: seq<Row>,
                             identity: NextestReconcile.AttemptIdentity)
    requires (forall i :: 0 <= i < |rows| ==> Classified(rows[i])) && CancelOne(entries, rows, identity).Accepted?
    ensures OnlyCancels(rows, CancelOne(entries, rows, identity).value)
  {
  }

  lemma {:induction false} CancelAllOnlyCancels(entries: seq<NextestInventory.Entry>, rows: seq<Row>,
                                                cancelled: seq<NextestReconcile.AttemptIdentity>)
    requires (forall i :: 0 <= i < |rows| ==> Classified(rows[i])) && CancelAll(entries, rows, cancelled).Accepted?
    ensures OnlyCancels(rows, CancelAll(entries, rows, cancelled).value)
    decreases |cancelled|
  {
    if cancelled != [] {
      var next := CancelOne(entries, rows, cancelled[0]).value;
      CancelOneOnlyCancels(entries, rows, cancelled[0]);
      CancelAllOnlyCancels(entries, next, cancelled[1..]);
      var last := CancelAll(entries, rows, cancelled).value;
      forall i | 0 <= i < |rows| ensures Extends(rows[i], last[i]) {
        ExtendsTransitive(rows[i], next[i], last[i]);
      }
    }
  }

  function CancelPass(rows: seq<Row>, cancelled: seq<NextestReconcile.AttemptIdentity>,
                      binaryMap: Option<seq<NextestInventory.Entry>>)
    : Outcome<seq<Row>>
  {
    if cancelled == [] then Accepted(rows)
    else if binaryMap.None? then Refused
    else CancelAll(binaryMap.value, rows, cancelled)
  }

  /** `apply_cancelled_attempts`. */
  method ApplyCancelled(rows: seq<Row>, cancelled: seq<NextestReconcile.AttemptIdentity>,
                        binaryMap: Option<seq<NextestInventory.Entry>>)
    returns (r: Outcome<seq<Row>>)
    ensures r == CancelPass(rows, cancelled, binaryMap)
  {
    if |cancelled| == 0 {
      return Accepted(rows);
    }
    if binaryMap.None? {
      return Refused;
    }
    var results := rows;
    for k := 0 to |cancelled|
      invariant CancelAll(binaryMap.value, rows, cancelled) == CancelAll(binaryMap.value, results, cancelled[k..])
    {
      assert cancelled[k..][1..] == cancelled[k + 1..];
      var next := CancelOne(binaryMap.value, results, cancelled[k]);
      if next.Refused? {
        return Refused;
      }
      results := next.value;
    }
    return Accepted(results);
  }

  // ----- The three passes together -----

  ghost function Passing(rows: seq<Row>): set<nat> {
    set i: nat | i < |rows| && rows[i].passed
  }

  ghost function MarkedRows(rows: seq<Row>, markers: seq<Marker>): set<nat> {
    set i: nat | i < |rows| && Marked(Ids(rows), markers, i)
  }

  /** One marked row per marker. */
  lemma {:induction false} OneRowPerMarker(rows: seq<Row>, markers: seq<Marker>, guard: (Row, Marker) -> bool)
    requires Admissible(rows, markers, guard)
    ensures |MarkedRows(rows, markers)| == |markers|
    decreases |markers|
  {
    if markers == [] {
      assert MarkedRows(rows, markers) == {};
    } else {
      var done, last := markers[..|markers| - 1], markers[|markers| - 1];
      assert markers == done + [last];
      FewerMarkers(rows, markers, |markers| - 1, guard);
      OneRowPerMarker(rows, done, guard);
      AdmissibleNext(rows, done, last, guard);
      MarkedNext(Ids(rows), done, last);
      assert MarkedRows(rows, markers) == MarkedRows(rows, done) + {MatchOf(Ids(rows), last.name).value};
    }
  }

  /**
   * No laundering: the rows keep their ids and order, every row ends classified with attempts
   * numbered from one, a row passes exactly when it did and no skip marker named it, and only
   * marked rows are skipped.
   */
  ghost predicate Unlaundered(rows: seq<Row>, skips: seq<Marker>, after: seq<Row>) {
    && Ids(after) == Ids(rows)
    && |after| == |rows|
    && forall i :: 0 <= i < |rows| ==> RowUnlaundered(rows[i], Marked(Ids(rows), skips, i), after[i])
  }

  ghost predicate RowUnlaundered(row: Row, marked: bool, after: Row) {
    && Classified(after)
    && (after.passed <==> row.passed && !marked)
    && (after.skipReason.Some? ==> marked)
  }

  /** Each marker takes one row out of the passing ones. */
  lemma UnlaunderedCounts(rows: seq<Row>, skips: seq<Marker>, after: seq<Row>)
    requires Admissible(rows, skips, MaySkip()) && Unlaundered(rows, skips, after)
    ensures Passing(after) == Passing(rows) - MarkedRows(rows, skips)
    ensures |Passing(after)| == |Passing(rows)| - |skips|
  {
    OneRowPerMarker(rows, skips, MaySkip());
    assert MarkedRows(rows, skips) <= Passing(rows);
    assert Passing(after) == Passing(rows) - MarkedRows(rows, skips);
  }

  lemma SkipPassSummary(rows: seq<Row>, markers: seq<Marker>, after: seq<Row>)
    requires forall row :: row in rows ==> Fresh(row)
    requires Admissible(rows, markers, MaySkip()) && Ids(after) == Ids(rows)
    requires forall k :: 0 <= k < |markers| ==>
               var i := RowOf(Ids(rows), markers, k).value; after[i] == SkippedRow(rows[i], markers[k].reason)
    requires forall i :: 0 <= i < |rows| && !Marked(Ids(rows), markers, i) ==> after[i] == ClassifiedRow(rows[i])
    ensures Unlaundered(rows, markers, after)
    ensures forall i :: 0 <= i < |rows| && Marked(Ids(rows), markers, i) ==> rows[i].passed && after[i].skipReason.Some?
  {
    forall i | 0 <= i < |rows|
      ensures RowUnlaundered(rows[i], Marked(Ids(rows), markers, i), after[i])
      ensures Marked(Ids(rows), markers, i) ==> rows[i].passed && after[i].skipReason.Some?
    {
      assert rows[i] in rows;
      if Marked(Ids(rows), markers, i) {
        var k :| 0 <= k < |markers| && RowOf(Ids(rows), markers, k) == Some(i);
        assert after[i] == SkippedRow(rows[i], markers[k].reason);
      }
    }
  }

  lemma SkidKeepsClassified(row: Row, marker: Marker)
    requires Classified(row) && MayBlameSkid()(row, marker)
    ensures var after := BlamingSkid()(row, marker);
            Classified(after) && after.passed == row.passed && after.skipReason == row.skipReason
  {
  }

  lemma SkidPassSummary(rows: seq<Row>, skips: seq<Marker>, now: seq<Row>, markers: seq<Marker>, after: seq<Row>)
    requires Unlaundered(rows, skips, now) && Ids(after) == Ids(now)
    requires Admissible(now, markers, MayBlameSkid()) && Rewritten(now, markers, MayBlameSkid(), BlamingSkid(), after)
    ensures Unlaundered(rows, skips, after)
  {
    forall i | 0 <= i < |rows| ensures RowUnlaundered(rows[i], Marked(Ids(rows), skips, i), after[i]) {
      assert RowUnlaundered(rows[i], Marked(Ids(rows), skips, i), now[i]);
      if Marked(Ids(now), markers, i) {
        var k :| 0 <= k < |markers| && RowOf(Ids(now), markers, k) == Some(i);
        SkidKeepsClassified(now[i], markers[k]);
      }
    }
  }

  lemma CancelPassSummary(rows: seq<Row>, skips: seq<Marker>, now: seq<Row>, after: seq<Row>)
    requires Unlaundered(rows, skips, now) && OnlyCancels(now, after)
    ensures Unlaundered(rows, skips, after)
  {
    SameIds(after, now);
    forall i | 0 <= i < |rows| ensures RowUnlaundered(rows[i], Marked(Ids(rows), skips, i), after[i]) {
      assert RowUnlaundered(rows[i], Marked(Ids(rows), skips, i), now[i]) && Extends(now[i], after[i]);
    }
  }

  /** The three passes in order; each refuses for itself. */
  ghost function Reclassified(rows: seq<Row>, skips: seq<Marker>, skids: seq<Marker>,
                              cancelled: seq<NextestReconcile.AttemptIdentity>,
                              binaryMap: Option<seq<NextestInventory.Entry>>)
    : Outcome<seq<Row>>
  {
    var first := SkipPass(rows, skips);
    if first.Refused? then Refused else
    var second := MarkPass(first.value, skids, MayBlameSkid(), BlamingSkid());
    if second.Refused? then Refused else CancelPass(second.value, cancelled, binaryMap)
  }

  /** The schema-5 pipeline of `run`. */
  method Reclassify(rows: seq<Row>, skips: seq<Marker>, skids: seq<Marker>,
                    cancelled: seq<NextestReconcile.AttemptIdentity>, binaryMap: Option<seq<NextestInventory.Entry>>)
    returns (r: Outcome<seq<Row>>)
    requires forall row :: row in rows ==> Fresh(row)
    ensures r == Reclassified(rows, skips, skids, cancelled, binaryMap)
    ensures r.Accepted? ==> Admissible(rows, skips, MaySkip()) && Unlaundered(rows, skips, r.value)
  {
    var first := ApplySkipMarkers(rows, skips);
    if first.Refused? {
      return Refused;
    }
    SkipPassSummary(rows, skips, first.value);
    var second := MarkRows(first.value, skids, MayBlameSkid(), BlamingSkid());
    if second.Refused? {
      return Refused;
    }
    SkidPassSummary(rows, skips, first.value, skids, second.value);
    var third := ApplyCancelled(second.value, cancelled, binaryMap);
    if third.Refused? {
      return Refused;
    }
    if |cancelled| != 0 {
      CancelAllOnlyCancels(binaryMap.value, second.value, cancelled);
      CancelPassSummary(rows, skips, second.value, third.value);
    }
    return third;
  }

  /** The row is shown under the binary's name, while a cancelled attempt carries the binary's id. */
  lemma CancelledIdNamesTheRow(e: NextestInventory.Entry, test: string)
    ensures NextestInventory.DisplayedTestId(e.package, e.binary, test, e.kind, None)
         == NextestInventory.DisplayedTestId(e.package, e.binaryName, test, e.kind, None)
        <==> e.kind == "lib" || e.binary == e.binaryName
  {
    var head, tail := e.package + "::", "$" + test;
    Middle(head, e.binary, e.binaryName, tail);
    assert forall b: string :: head + b + "" + "$" + test == head + b + tail;
  }

  lemma Middle(head: string, a: string, b: string, tail: string)
    ensures head + a + tail == head + b + tail <==> a == b
  {
    if head + a + tail == head + b + tail {
      assert |a| == |b|;
      assert a == (head + a + tail)[|head|..|head| + |a|];
      assert b == (head + b + tail)[|head|..|head| + |b|];
    }
  }

  // ----- Which row a cancelled attempt reaches -----

  /** The id under which a cancelled identity is looked up. */
  predicate LooksUp(entries: seq<NextestInventory.Entry>, x: NextestReconcile.AttemptIdentity, id: string) {
    && KindOf(entries, x.package, x.binary).Accepted?
    && var kind := KindOf(entries, x.package, x.binary).value;
       NextestInventory.DisplayedTestId(x.package, x.binary, x.test, kind, None) == id
  }

  /** The attempts the pass appends to the row with this id. */
  function Appended(entries: seq<NextestInventory.Entry>, cancelled: seq<NextestReconcile.AttemptIdentity>, id: string)
    : seq<AttemptResult>
  {
    if cancelled == [] then []
    else
      (if LooksUp(entries, cancelled[0], id) then [AttemptResult(cancelled[0].attempt, Cancelled)] else [])
      + Appended(entries, cancelled[1..], id)
  }

  ghost predicate UniqueIds(rows: seq<Row>) {
    forall i, j :: 0 <= i < j < |rows| ==> rows[i].id != rows[j].id
  }

  lemma CancelOneExactly(entries: seq<NextestInventory.Entry>, rows: seq<Row>, x: NextestReconcile.AttemptIdentity,
                         i: nat)
    requires UniqueIds(rows) && CancelOne(entries, rows, x).Accepted? && i < |rows| && rows[i].classified.Some?
    ensures var after := CancelOne(entries, rows, x).value;
            && |after| == |rows| && UniqueIds(after) && after[i].id == rows[i].id
            && (if LooksUp(entries, x, rows[i].id)
                then after[i].classified == Some(rows[i].classified.value + [AttemptResult(x.attempt, Cancelled)])
                else after[i] == rows[i])
  {
    assert rows[i] in rows;
  }

  /** An accepted cancellation pass appends to each row exactly the attempts looked up under its id, in order. */
  lemma {:induction false} CancelAllExactly(entries: seq<NextestInventory.Entry>, rows: seq<Row>,
                                            cancelled: seq<NextestReconcile.AttemptIdentity>, i: nat)
    requires UniqueIds(rows) && CancelAll(entries, rows, cancelled).Accepted? && i < |rows| && rows[i].classified.Some?
    ensures var after := CancelAll(entries, rows, cancelled).value;
            && |after| == |rows| && after[i].id == rows[i].id
            && after[i].classified == Some(rows[i].classified.value + Appended(entries, cancelled, rows[i].id))
            && (Appended(entries, cancelled, rows[i].id) == [] ==> after[i] == rows[i])
    decreases |cancelled|
  {
    if cancelled == [] {
      assert rows[i].classified.value + Appended(entries, cancelled, rows[i].id) == rows[i].classified.value;
    } else {
      var next := CancelOne(entries, rows, cancelled[0]).value;
      CancelOneExactly(entries, rows, cancelled[0], i);
      CancelAllExactly(entries, next, cancelled[1..], i);
      var id, rest := rows[i].id, Appended(entries, cancelled[1..], rows[i].id);
      if LooksUp(entries, cancelled[0], id) {
        var x := [AttemptResult(cancelled[0].attempt, Cancelled)];
        assert (rows[i].classified.value + x) + rest == rows[i].classified.value + (x + rest);
      } else {
        assert Appended(entries, cancelled, id) == rest;
      }
    }
  }

  function Without(cancelled: seq<NextestReconcile.AttemptIdentity>, x: NextestReconcile.AttemptIdentity)
    : seq<NextestReconcile.AttemptIdentity>
  {
    if cancelled == [] then []
    else (if cancelled[0] == x then [] else [cancelled[0]]) + Without(cancelled[1..], x)
  }

  lemma {:induction false} AppendedTells(entries: seq<NextestInventory.Entry>,
                                         cancelled: seq<NextestReconcile.AttemptIdentity>,
                                         x: NextestReconcile.AttemptIdentity, id: string)
    ensures x in cancelled && LooksUp(entries, x, id) ==>
              AttemptResult(x.attempt, Cancelled) in Appended(entries, cancelled, id)
    ensures !LooksUp(entries, x, id) ==>
              Appended(entries, cancelled, id) == Appended(entries, Without(cancelled, x), id)
    decreases |cancelled|
  {
    if cancelled != [] {
      AppendedTells(entries, cancelled[1..], x, id);
      var rest := Without(cancelled[1..], x);
      assert ([cancelled[0]] + rest)[1..] == rest;
      assert [] + rest == rest;
    }
  }

  /**
   * Over a whole accepted pass, a cancelled attempt appears on its own test's row exactly for a
   * library target or a binary whose inventory id is its plain name. For any other target the row
   * is what it would be had the attempt not been cancelled.
   */
  lemma CancelledReachesItsRow(entries: seq<NextestInventory.Entry>, e: NextestInventory.Entry, rows: seq<Row>, i: nat,
                               cancelled: seq<NextestReconcile.AttemptIdentity>, test: string, attempt: U64)
    requires KindOf(entries, e.package, e.binary) == Accepted(e.kind)
    requires UniqueIds(rows) && CancelAll(entries, rows, cancelled).Accepted?
    requires i < |rows| && rows[i].classified.Some?
    requires rows[i].id == NextestInventory.DisplayedTestId(e.package, e.binaryName, test, e.kind, None)
    requires NextestReconcile.AttemptIdentity(e.package, e.binary, test, attempt) in cancelled
    ensures var x := NextestReconcile.AttemptIdentity(e.package, e.binary, test, attempt);
            var after := CancelAll(entries, rows, cancelled).value;
            && i < |after| && after[i].classified.Some?
            && if e.kind == "lib" || e.binary == e.binaryName then
                 AttemptResult(attempt, Cancelled) in after[i].classified.value
               else
                 after[i].classified.value
                   == rows[i].classified.value + Appended(entries, Without(cancelled, x), rows[i].id)
  {
    var x := NextestReconcile.AttemptIdentity(e.package, e.binary, test, attempt);
    CancelledIdNamesTheRow(e, test);
    CancelAllExactly(entries, rows, cancelled, i);
    AppendedTells(entries, cancelled, x, rows[i].id);
  }

  /** The failing case: the repository's own binary, whose inventory id is not its name. */
  lemma CancelledAttemptLost()
    ensures var e := NextestInventory.Entry("hermit", "hermit::bin/hermit", "hermit", "bin");
            var row := RowWith("hermit::hermit$case", false, [AttemptResult(1, Failed)]);
            CancelOne([e], [row], NextestReconcile.AttemptIdentity("hermit", "hermit::bin/hermit", "case", 2))
              == Accepted([row])
  {
    var e := NextestInventory.Entry("hermit", "hermit::bin/hermit", "hermit", "bin");
    var row := RowWith("hermit::hermit$case", false, [AttemptResult(1, Failed)]);
    assert e.binary != e.binaryName && KindOf([e], e.package, e.binary) == Accepted(e.kind);
    assert row.id == NextestInventory.DisplayedTestId(e.package, e.binaryName, "case", e.kind, None);
    LostWhenAlone(e, row, "case", 2);
  }

  lemma LostWhenAlone(e: NextestInventory.Entry, row: Row, test: string, attempt: U64)
    requires e.kind != "lib" && e.binary != e.binaryName
    requires row.id == NextestInventory.DisplayedTestId(e.package, e.binaryName, test, e.kind, None)
    ensures CancelOne([e], [row], NextestReconcile.AttemptIdentity(e.package, e.binary, test, attempt))
            == Accepted([row])
  {
    CancelledIdNamesTheRow(e, test);
  }
}
