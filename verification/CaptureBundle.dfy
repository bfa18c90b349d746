/** Bundling a capture directory: every invocation paired with its one completion. */
module CaptureBundle {
  import opened Base
  import opened Tables
  import Quota = CaptureQuota

  /** A directory entry; `Unexpected` is any other name, or a capture file that does not decode. */
  datatype Entry<N, I, C> =
    | ConfigFile
    | QuotaFile
    | InvocationFile(name: N, invocation: I)
    | CompletionFile(name: N, completion: C)
    | Unexpected

  const MAX_ENTRIES: nat := Quota.MAX_COMMANDS * 2 + 2

  function Invocations<N, I, C>(entries: seq<Entry<N, I, C>>): seq<(N, I)> {
    if entries == [] then []
    else
      var e := entries[|entries| - 1];
      Invocations(entries[..|entries| - 1]) + if e.InvocationFile? then [(e.name, e.invocation)] else []
  }

  function Completions<N, I, C>(entries: seq<Entry<N, I, C>>): seq<(N, C)> {
    if entries == [] then []
    else
      var e := entries[|entries| - 1];
      Completions(entries[..|entries| - 1]) + if e.CompletionFile? then [(e.name, e.completion)] else []
  }

  lemma {:induction false} PrefixFiles<N, I, C>(entries: seq<Entry<N, I, C>>, n: nat)
    requires n <= |entries|
    ensures Invocations(entries[..n]) <= Invocations(entries)
    ensures Completions(entries[..n]) <= Completions(entries)
    decreases |entries|
  {
    if n < |entries| {
      PrefixFiles(entries[..|entries| - 1], n);
      assert entries[..|entries| - 1][..n] == entries[..n];
    } else {
      assert entries[..n] == entries;
    }
  }

  lemma TableRefusedEarly<K, V>(prefix: seq<(K, V)>, whole: seq<(K, V)>)
    requires prefix <= whole && Table(prefix).Refused?
    ensures Table(whole).Refused?
  {
    assert whole[..|prefix|] == prefix;
    TablePrefix(whole, |prefix|);
  }

  function FilesOf<N, I, C>(e: Entry<N, I, C>): (seq<(N, I)>, seq<(N, C)>) {
    match e
    case InvocationFile(name, invocation) => ([(name, invocation)], [])
    case CompletionFile(name, completion) => ([], [(name, completion)])
    case _ => ([], [])
  }

  lemma NextFiles<N, I, C>(entries: seq<Entry<N, I, C>>, i: nat)
    requires i < |entries|
    ensures Invocations(entries[..i + 1]) == Invocations(entries[..i]) + FilesOf(entries[i]).0
    ensures Completions(entries[..i + 1]) == Completions(entries[..i]) + FilesOf(entries[i]).1
  {
    assert entries[..i + 1][..i] == entries[..i];
  }

  /** Inserts at most one pair after the ones the table holds. */
  method InsertNext<K(==), V>(ghost before: seq<(K, V)>, table: map<K, V>, next: seq<(K, V)>)
    returns (r: Outcome<map<K, V>>)
    requires Table(before) == Accepted(table) && |next| <= 1
    ensures r == Table(before + next)
  {
    if |next| == 0 {
      assert before + next == before;
      return Accepted(table);
    }
    var (k, v) := next[0];
    assert next == [(k, v)];
    TableNext(before, k, v);
    return if k in table then Refused else Accepted(table[k := v]);
  }

  /** What a directory must be for its files to form two tables. */
  ghost predicate Readable<N, I, C>(entries: seq<Entry<N, I, C>>) {
    && (forall i :: 0 <= i < |entries| ==> !entries[i].Unexpected?)
    && Table(Invocations(entries)).Accepted?
    && Table(Completions(entries)).Accepted?
  }

  /** Entry `i`, against the tables of the entries before it. */
  method Absorb<N(==), I, C>(entries: seq<Entry<N, I, C>>, i: nat, invocations: map<N, I>, completions: map<N, C>)
    returns (r: Outcome<(map<N, I>, map<N, C>)>)
    requires i < |entries| && Readable(entries[..i])
    requires Table(Invocations(entries[..i])) == Accepted(invocations)
             && Table(Completions(entries[..i])) == Accepted(completions)
    ensures r.Accepted? <==> Readable(entries[..i + 1])
    ensures r.Accepted? ==> Table(Invocations(entries[..i + 1])) == Accepted(r.value.0)
    ensures r.Accepted? ==> Table(Completions(entries[..i + 1])) == Accepted(r.value.1)
  {
    assert entries[..i + 1][i] == entries[i];
    if entries[i].Unexpected? {
      return Refused;
    }
    NextFiles(entries, i);
    var (invocation, completion) := FilesOf(entries[i]);
    var more := InsertNext(Invocations(entries[..i]), invocations, invocation);
    var ended := InsertNext(Completions(entries[..i]), completions, completion);
    if more.Refused? || ended.Refused? {
      return Refused;
    }
    return Accepted((more.value, ended.value));
  }

  lemma ReadablePrefix<N, I, C>(entries: seq<Entry<N, I, C>>, n: nat)
    requires n <= |entries| && Readable(entries)
    ensures Readable(entries[..n])
  {
    PrefixFiles(entries, n);
    if Table(Invocations(entries[..n])).Refused? {
      TableRefusedEarly(Invocations(entries[..n]), Invocations(entries));
    }
    if Table(Completions(entries[..n])).Refused? {
      TableRefusedEarly(Completions(entries[..n]), Completions(entries));
    }
  }

  lemma StaysUnreadable<N, I, C>(entries: seq<Entry<N, I, C>>, n: nat)
    requires n <= |entries| && !Readable(entries[..n])
    ensures !Readable(entries)
  {
    if Readable(entries) {
      ReadablePrefix(entries, n);
    }
  }

  /** The directory loop. */
  method Collect<N(==), I, C>(entries: seq<Entry<N, I, C>>) returns (r: Outcome<(map<N, I>, map<N, C>)>)
    ensures r.Accepted? <==> |entries| <= MAX_ENTRIES && Readable(entries)
    ensures r.Accepted? ==> Table(Invocations(entries)) == Accepted(r.value.0)
    ensures r.Accepted? ==> Table(Completions(entries)) == Accepted(r.value.1)
  {
    var invocations: map<N, I>, completions: map<N, C> := map[], map[];
    for i := 0 to |entries|
      invariant i <= MAX_ENTRIES
      invariant Readable(entries[..i])
      invariant Table(Invocations(entries[..i])) == Accepted(invocations)
                && Table(Completions(entries[..i])) == Accepted(completions)
    {
      if i + 1 > MAX_ENTRIES {
        return Refused;
      }
      var next := Absorb(entries, i, invocations, completions);
      if next.Refused? {
        StaysUnreadable(entries, i + 1);
        return Refused;
      }
      invocations, completions := next.value.0, next.value.1;
    }
    assert entries[..|entries|] == entries;
    return Accepted((invocations, completions));
  }

  /** The pairing loop, which drains the completions. */
  method Drain<N(==), I, C>(invocations: map<N, I>, completions: map<N, C>)
    returns (r: Outcome<(map<N, (I, C)>, map<N, C>)>)
    ensures r.Accepted? <==> invocations.Keys <= completions.Keys
    ensures r.Accepted? ==>
              && r.value.0.Keys == invocations.Keys
              && (forall n :: n in r.value.0 ==> r.value.0[n] == (invocations[n], completions[n]))
              && r.value.1.Keys == completions.Keys - invocations.Keys
  {
    var rest, left, commands: map<N, (I, C)> := invocations.Keys, completions, map[];
    while rest != {}
      invariant rest <= invocations.Keys
      invariant commands.Keys == invocations.Keys - rest
      invariant left == completions - commands.Keys
      invariant forall n :: n in commands ==> n in completions && commands[n] == (invocations[n], completions[n])
      decreases rest
    {
      var name :| name in rest;
      if name !in left {
        return Refused;
      }
      commands, left, rest := commands[name := (invocations[name], left[name])], left - {name}, rest - {name};
    }
    return Accepted((commands, left));
  }

  /** Pairs every invocation with its completion; the last check, that no completion is left, never refuses. */
  method Pair<N(==), I, C>(invocations: map<N, I>, completions: map<N, C>) returns (r: Outcome<map<N, (I, C)>>)
    ensures r.Accepted? <==> invocations.Keys == completions.Keys && invocations != map[]
    ensures r.Accepted? ==> r.value.Keys == invocations.Keys
    ensures r.Accepted? ==> forall n :: n in r.value ==> r.value[n] == (invocations[n], completions[n])
  {
    if |invocations| != |completions| || invocations == map[] {
      return Refused;
    }
    var drained := Drain(invocations, completions);
    if drained.Refused? {
      return Refused;
    }
    SubsetOfSameSize(invocations.Keys, completions.Keys);
    return if drained.value.1 == map[] then Accepted(drained.value.0) else Refused;
  }

  lemma SubsetOfSameSize<T>(a: set<T>, b: set<T>)
    requires a <= b && |a| == |b|
    ensures a == b
  {
    if x :| x in b && x !in a {
      assert a <= b - {x};
      SmallerSubset(a, b - {x});
    }
  }

  lemma {:induction false} SmallerSubset<T>(a: set<T>, b: set<T>)
    requires a <= b
    ensures |a| <= |b|
  {
    if x :| x in a {
      SmallerSubset(a - {x}, b - {x});
    }
  }

  // ----- The whole bundle -----

  /** The invocation and completion names are the same, and there is one. */
  ghost predicate Complete<N(!new), I, C>(entries: seq<Entry<N, I, C>>) {
    && Invocations(entries) != []
    && forall n :: HasKey(Invocations(entries), n) <==> HasKey(Completions(entries), n)
  }

  /** `bundle`: on success every invocation is paired with its one completion, and none is left over. */
  method Bundle<N(==,!new), I(!new), C(!new)>(entries: seq<Entry<N, I, C>>) returns (r: Outcome<map<N, (I, C)>>)
    ensures r.Accepted? <==> |entries| <= MAX_ENTRIES && Readable(entries) && Complete(entries)
    ensures r.Accepted? ==>
              && (forall p :: p in Invocations(entries) ==> p.0 in r.value && r.value[p.0].0 == p.1)
              && (forall p :: p in Completions(entries) ==> p.0 in r.value && r.value[p.0].1 == p.1)
              && |r.value| == |Invocations(entries)| == |Completions(entries)|
  {
    var tables := Collect(entries);
    if tables.Refused? {
      return Refused;
    }
    TableTabulates(Invocations(entries));
    TableTabulates(Completions(entries));
    r := Pair(tables.value.0, tables.value.1);
    if r.Accepted? {
      assert r.value.Keys == tables.value.0.Keys == tables.value.1.Keys;
    }
  }

  // ----- Bundling what the wrappers left -----

  type CaptureEntry = Entry<nat, Quota.File, Quota.File>

  predicate InDirectory(s: Quota.State, e: CaptureEntry) {
    match e
    case ConfigFile => true
    case QuotaFile => true
    case InvocationFile(pid, file) => pid in s.invocations && s.invocations[pid] == file
    case CompletionFile(pid, file) => pid in s.completions && s.completions[pid] == file
    case Unexpected => false
  }

  /** `entries` lists the capture directory, in any order, each file once. */
  ghost predicate Lists(s: Quota.State, entries: seq<CaptureEntry>) {
    && (forall i, j :: 0 <= i < j < |entries| ==> entries[i] != entries[j])
    && (forall e :: e in entries <==> InDirectory(s, e))
  }

  /** Distinct entries whose names fix their contents give distinct names. */
  lemma {:induction false} ListedNames(s: Quota.State, entries: seq<CaptureEntry>)
    requires forall i, j :: 0 <= i < j < |entries| ==> entries[i] != entries[j]
    requires forall i :: 0 <= i < |entries| ==> InDirectory(s, entries[i])
    ensures Distinct(Invocations(entries)) && Distinct(Completions(entries))
    ensures forall p :: p in Invocations(entries) <==> InvocationFile(p.0, p.1) in entries
    ensures forall p :: p in Completions(entries) <==> CompletionFile(p.0, p.1) in entries
    decreases |entries|
  {
    if entries != [] {
      var front, e := entries[..|entries| - 1], entries[|entries| - 1];
      assert entries == front + [e];
      ListedNames(s, front);
      if e.InvocationFile? {
        DistinctNext(Invocations(front), e.name, e.invocation);
      } else if e.CompletionFile? {
        DistinctNext(Completions(front), e.name, e.completion);
      }
    }
  }

  lemma {:induction false} EntriesCounted(entries: seq<CaptureEntry>)
    requires forall i, j :: 0 <= i < j < |entries| ==> entries[i] != entries[j]
    requires Unexpected !in entries
    ensures |entries| == |Invocations(entries)| + |Completions(entries)|
                         + (if ConfigFile in entries then 1 else 0) + (if QuotaFile in entries then 1 else 0)
    decreases |entries|
  {
    if entries != [] {
      var front, e := entries[..|entries| - 1], entries[|entries| - 1];
      assert entries == front + [e];
      EntriesCounted(front);
    }
  }

  /**
   * A directory that only wrappers wrote never exceeds the entry bound and is always readable, so
   * it bundles exactly when something was captured and every capture completed.
   */
  lemma CapturesBundle(actions: seq<Quota.Action>, entries: seq<CaptureEntry>)
    requires Quota.Run(Quota.PREPARED, actions).Accepted?
    requires Lists(Quota.Run(Quota.PREPARED, actions).value, entries)
    ensures var s := Quota.Run(Quota.PREPARED, actions).value;
            && |entries| <= MAX_ENTRIES
            && Readable(entries)
            && (Complete(entries) <==> s.invocations != map[] && s.completions.Keys == s.invocations.Keys)
  {
    var s := Quota.Run(Quota.PREPARED, actions).value;
    Quota.CapturesFit(actions);
    SmallerSubset(s.completions.Keys, s.invocations.Keys);
    ListedFiles(s, entries);
    assert Invocations(entries) != [] <==> s.invocations != map[] by {
      if Invocations(entries) != [] {
        assert Invocations(entries)[0] in Invocations(entries);
        assert HasKey(Invocations(entries), Invocations(entries)[0].0);
      }
    }
    assert s.completions.Keys == s.invocations.Keys <==> forall pid :: pid in s.invocations <==> pid in s.completions;
  }

  lemma ListedFiles(s: Quota.State, entries: seq<CaptureEntry>)
    requires Lists(s, entries)
    ensures |entries| <= |s.invocations| + |s.completions| + 2
    ensures Readable(entries)
    ensures forall pid :: HasKey(Invocations(entries), pid) <==> pid in s.invocations
    ensures forall pid :: HasKey(Completions(entries), pid) <==> pid in s.completions
  {
    forall i | 0 <= i < |entries| ensures InDirectory(s, entries[i]) {
      assert entries[i] in entries;
    }
    ListedNames(s, entries);
    TableTabulates(Invocations(entries));
    TableTabulates(Completions(entries));
    EntriesCounted(entries);
    ListedInvocations(s, entries);
    ListedCompletions(s, entries);
  }

  lemma ListedInvocations(s: Quota.State, entries: seq<CaptureEntry>)
    requires Lists(s, entries) && Distinct(Invocations(entries))
    requires forall p :: p in Invocations(entries) <==> InvocationFile(p.0, p.1) in entries
    ensures forall pid :: HasKey(Invocations(entries), pid) <==> pid in s.invocations
    ensures |Invocations(entries)| <= |s.invocations|
  {
    forall pid ensures HasKey(Invocations(entries), pid) <==> pid in s.invocations {
      if pid in s.invocations {
        assert InDirectory(s, InvocationFile(pid, s.invocations[pid]));
        assert (pid, s.invocations[pid]) in Invocations(entries);
      }
    }
    assert forall i :: 0 <= i < |Invocations(entries)| ==> Invocations(entries)[i] in Invocations(entries);
    DistinctFits(Invocations(entries), s.invocations.Keys);
  }

  lemma ListedCompletions(s: Quota.State, entries: seq<CaptureEntry>)
    requires Lists(s, entries) && Distinct(Completions(entries))
    requires forall p :: p in Completions(entries) <==> CompletionFile(p.0, p.1) in entries
    ensures forall pid :: HasKey(Completions(entries), pid) <==> pid in s.completions
    ensures |Completions(entries)| <= |s.completions|
  {
    forall pid ensures HasKey(Completions(entries), pid) <==> pid in s.completions {
      if pid in s.completions {
        assert InDirectory(s, CompletionFile(pid, s.completions[pid]));
        assert (pid, s.completions[pid]) in Completions(entries);
      }
    }
    assert forall i :: 0 <= i < |Completions(entries)| ==> Completions(entries)[i] in Completions(entries);
    DistinctFits(Completions(entries), s.completions.Keys);
  }
}
