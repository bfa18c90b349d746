/**
 * The capture quota shared by concurrent compiler wrappers: a locked counter file, flushed only
 * after the lock is released, and captures published only after the flush. Any number of wrappers
 * interleave, any may crash between two steps, and any flush may fail.
 */
module CaptureQuota {
  import opened Base
  import opened Totals

  const MAX_CAPTURE_BYTES: nat := 64 * 1024 * 1024
  const MAX_COMMAND_BYTES: nat := 2 * 1024 * 1024
  const MAX_COMMANDS: nat := 4096
  const COMPLETION_ALLOWANCE: nat := 16 * 1024

  datatype Counters = Counters(used: nat, count: nat)

  datatype Phase =
    | Waiting
    | Locked
    | HasRead(seen: Counters)
    | Wrote
    | Released
    | Flushed
    | Published
    | Completed
    | Dead

  /** One wrapper process. `ticket` is the position of its counter write, once it was granted. */
  datatype Wrapper = Wrapper(pid: nat, encoded: nat, phase: Phase, ticket: Option<nat>) {
    function Reservation(): nat { encoded + COMPLETION_ALLOWANCE }
    predicate HoldsLock() { phase.Locked? || phase.HasRead? || phase.Wrote? }
    predicate Granted() { phase.Wrote? || phase.Released? || phase.Flushed? || phase.Published? || phase.Completed? }
    predicate Synced() { phase.Flushed? || phase.Published? || phase.Completed? }
  }

  /** A file in the capture directory and the wrapper that wrote it. */
  datatype File = File(owner: nat, bytes: nat)

  /**
   * `writes` are the successive contents of the counter file, the last one current; `durable` is
   * the position of the content that storage holds. `granted` records every reservation made.
   * Captures are named by process id, which the system may reuse.
   */
  datatype State = State(
    writes: seq<Counters>,
    durable: nat,
    granted: seq<nat>,
    lock: Option<nat>,
    wrappers: map<nat, Wrapper>,
    invocations: map<nat, File>,
    completions: map<nat, File>)

  const PREPARED := State([Counters(0, 0)], 0, [], None, map[], map[], map[])

  datatype Action =
    | Begin(w: nat, pid: nat, encoded: nat)
    | Acquire(w: nat)
    | ReadCounters(w: nat)
    | WriteCounters(w: nat)
    | Release(w: nat)
    | Flush(w: nat, upTo: nat)
    | FlushFails(w: nat)
    | Publish(w: nat)
    | Complete(w: nat, bytes: nat)
    | Crash(w: nat)
    | Writeback(upTo: nat)

  function Move(s: State, w: nat, phase: Phase): State
    requires w in s.wrappers
  {
    s.(wrappers := s.wrappers[w := s.wrappers[w].(phase := phase)])
  }

  /** The process is gone; its lock, if it held one, is released with its descriptor. */
  function Die(s: State, w: nat): State
    requires w in s.wrappers
  {
    Move(s.(lock := if s.lock == Some(w) then None else s.lock), w, Dead)
  }

  /** The reservation of the wrapper that holds the lock, from the counters it read. */
  function Reserve(s: State, w: nat): State
    requires w in s.wrappers && s.wrappers[w].phase.HasRead?
  {
    var wrapper := s.wrappers[w];
    var seen, bytes := wrapper.phase.seen, wrapper.Reservation();
    if seen.used + bytes > U64_MAX || seen.used + bytes > MAX_CAPTURE_BYTES || seen.count >= MAX_COMMANDS then
      Die(s, w)
    else
      s.(writes := s.writes + [Counters(seen.used + bytes, seen.count + 1)],
         granted := s.granted + [bytes],
         wrappers := s.wrappers[w := wrapper.(phase := Wrote, ticket := Some(|s.writes|))])
  }

  predicate InPhase(s: State, w: nat, phase: Phase) {
    w in s.wrappers && s.wrappers[w].phase == phase
  }

  /** One atomic step; `Refused` when it is not enabled. */
  function Step(s: State, a: Action): Outcome<State> {
    match a
    case Begin(w, pid, encoded) =>
      if w !in s.wrappers && encoded <= MAX_COMMAND_BYTES
      then Accepted(s.(wrappers := s.wrappers[w := Wrapper(pid, encoded, Waiting, None)]))
      else Refused
    case Acquire(w) =>
      if InPhase(s, w, Waiting) && s.lock.None? then Accepted(Move(s.(lock := Some(w)), w, Locked)) else Refused
    case ReadCounters(w) =>
      if InPhase(s, w, Locked) && s.writes != []
      then Accepted(Move(s, w, HasRead(s.writes[|s.writes| - 1])))
      else Refused
    case WriteCounters(w) =>
      if w in s.wrappers && s.wrappers[w].phase.HasRead? then Accepted(Reserve(s, w)) else Refused
    case Release(w) =>
      if InPhase(s, w, Wrote) then Accepted(Move(s.(lock := None), w, Released)) else Refused
    case Flush(w, upTo) =>
      if && InPhase(s, w, Released)
         && s.wrappers[w].ticket.Some?
         && s.wrappers[w].ticket.value <= upTo < |s.writes|
         && s.durable <= upTo
      then Accepted(Move(s.(durable := upTo), w, Flushed))
      else Refused
    case FlushFails(w) =>
      if InPhase(s, w, Released) then Accepted(Die(s, w)) else Refused
    case Publish(w) =>
      if !InPhase(s, w, Flushed) then Refused
      else
        var wrapper := s.wrappers[w];
        if wrapper.pid in s.invocations then Accepted(Die(s, w))
        else Accepted(Move(s.(invocations := s.invocations[wrapper.pid := File(w, wrapper.encoded)]), w, Published))
    case Complete(w, bytes) =>
      if !InPhase(s, w, Published) then Refused
      else
        var wrapper := s.wrappers[w];
        if bytes > COMPLETION_ALLOWANCE || wrapper.pid in s.completions then Accepted(Die(s, w))
        else Accepted(Move(s.(completions := s.completions[wrapper.pid := File(w, bytes)]), w, Completed))
    case Crash(w) =>
      if w in s.wrappers then Accepted(Die(s, w)) else Refused
    case Writeback(upTo) =>
      if s.durable <= upTo < |s.writes| then Accepted(s.(durable := upTo)) else Refused
  }

  function Run(s: State, actions: seq<Action>): Outcome<State>
    decreases |actions|
  {
    if actions == [] then Accepted(s)
    else match Step(s, actions[0])
      case Refused => Refused
      case Accepted(next) => Run(next, actions[1..])
  }

  ghost function Sum(s: seq<nat>): nat {
    if s == [] then 0 else Sum(s[..|s| - 1]) + s[|s| - 1]
  }

  // ----- The invariant -----

  /** The counter file has always held the sum and number of the reservations granted so far, within both limits. */
  ghost predicate Exact(s: State) {
    && |s.writes| == |s.granted| + 1
    && s.durable < |s.writes|
    && forall i :: 0 <= i < |s.writes| ==> ExactAt(s.writes, s.granted, i)
  }

  ghost predicate ExactAt(writes: seq<Counters>, granted: seq<nat>, i: nat)
    requires i < |writes| && i <= |granted|
  {
    && writes[i] == Counters(Sum(granted[..i]), i)
    && writes[i].used <= MAX_CAPTURE_BYTES
    && i <= MAX_COMMANDS
  }

  ghost predicate WrapperOk(s: State, w: nat)
    requires w in s.wrappers && |s.writes| == |s.granted| + 1
  {
    var wrapper := s.wrappers[w];
    && (wrapper.HoldsLock() <==> s.lock == Some(w))
    && (wrapper.phase.HasRead? ==> wrapper.phase.seen == s.writes[|s.writes| - 1])
    && (wrapper.Granted() ==> wrapper.ticket.Some?)
    && (!wrapper.Granted() && !wrapper.phase.Dead? ==> wrapper.ticket.None?)
    && (wrapper.ticket.Some? ==>
           1 <= wrapper.ticket.value <= |s.granted| && s.granted[wrapper.ticket.value - 1] == wrapper.Reservation())
    && (wrapper.Synced() ==> wrapper.ticket.value <= s.durable)
  }

  ghost predicate TicketsUnique(s: State) {
    forall v, w :: v in s.wrappers && w in s.wrappers && v != w && s.wrappers[v].ticket.Some? ==>
        s.wrappers[v].ticket != s.wrappers[w].ticket
  }

  /** Every published capture belongs to a wrapper whose own reservation is on storage. */
  ghost predicate InvocationOk(s: State, pid: nat)
    requires pid in s.invocations
  {
    var file := s.invocations[pid];
    && file.owner in s.wrappers
    && var owner := s.wrappers[file.owner];
       && owner.pid == pid
       && owner.encoded == file.bytes
       && owner.ticket.Some?
       && owner.ticket.value <= s.durable
       && (owner.phase.Published? || owner.phase.Completed? || owner.phase.Dead?)
  }

  ghost predicate CompletionOk(s: State, pid: nat)
    requires pid in s.completions
  {
    && pid in s.invocations
    && s.completions[pid].owner == s.invocations[pid].owner
    && s.completions[pid].bytes <= COMPLETION_ALLOWANCE
  }

  /** A published wrapper is the owner of the capture under its process id. */
  ghost predicate OwnsCapture(s: State, w: nat)
    requires w in s.wrappers
  {
    s.wrappers[w].phase.Published? ==> s.wrappers[w].pid in s.invocations && s.invocations[s.wrappers[w].pid].owner == w
  }

  ghost predicate Inv(s: State) {
    && Exact(s)
    && (s.lock.Some? ==> s.lock.value in s.wrappers)
    && (forall w :: w in s.wrappers ==> WrapperOk(s, w))
    && TicketsUnique(s)
    && (forall pid :: pid in s.invocations ==> InvocationOk(s, pid))
    && (forall pid :: pid in s.completions ==> CompletionOk(s, pid))
    && (forall w :: w in s.wrappers ==> OwnsCapture(s, w))
  }

  lemma GrantKeepsExact(writes: seq<Counters>, granted: seq<nat>, bytes: nat, i: nat)
    requires |writes| == |granted| + 1 && i <= |granted| + 1
    requires forall k :: 0 <= k < |writes| ==> ExactAt(writes, granted, k)
    requires writes[|granted|].used + bytes <= MAX_CAPTURE_BYTES && |granted| < MAX_COMMANDS
    ensures ExactAt(writes + [Counters(writes[|granted|].used + bytes, |granted| + 1)], granted + [bytes], i)
  {
    var n, after := |granted|, granted + [bytes];
    if i <= n {
      assert after[..i] == granted[..i];
      assert ExactAt(writes, granted, i);
    } else {
      assert after[..i] == after && after[..n] == granted && granted[..n] == granted;
      assert ExactAt(writes, granted, n);
    }
  }

  lemma StepKeepsExact(s: State, a: Action)
    requires Exact(s) && Step(s, a).Accepted?
    requires a.WriteCounters? ==> WrapperOk(s, a.w)
    ensures Exact(Step(s, a).value)
  {
    var t := Step(s, a).value;
    if a.WriteCounters? && t.granted != s.granted {
      var bytes := s.wrappers[a.w].Reservation();
      assert ExactAt(s.writes, s.granted, |s.granted|);
      forall i | 0 <= i < |t.writes| ensures ExactAt(t.writes, t.granted, i) {
        GrantKeepsExact(s.writes, s.granted, bytes, i);
      }
    }
  }

  predicate Acts(a: Action, w: nat) {
    !a.Writeback? && a.w == w
  }

  /** A step leaves every other wrapper as it was. */
  lemma OthersUnmoved(s: State, a: Action, w: nat)
    requires Step(s, a).Accepted? && !Acts(a, w)
    ensures w in s.wrappers <==> w in Step(s, a).value.wrappers
    ensures w in s.wrappers ==> Step(s, a).value.wrappers[w] == s.wrappers[w]
    ensures s.durable <= Step(s, a).value.durable
    ensures s.writes <= Step(s, a).value.writes && s.granted <= Step(s, a).value.granted
    ensures Step(s, a).value.lock != s.lock || Step(s, a).value.writes != s.writes ==> !a.Writeback? && !a.Begin?
  {
  }

  lemma StepKeepsOther(s: State, a: Action, w: nat)
    requires Exact(s) && Step(s, a).Accepted? && !Acts(a, w) && w in s.wrappers && WrapperOk(s, w)
    requires !a.Writeback? && a.w in s.wrappers ==> WrapperOk(s, a.w)
    ensures Exact(Step(s, a).value) ==> WrapperOk(Step(s, a).value, w)
  {
    OthersUnmoved(s, a, w);
  }

  lemma ReserveKeepsActor(s: State, w: nat)
    requires Exact(s) && w in s.wrappers && s.wrappers[w].phase.HasRead? && WrapperOk(s, w)
    ensures w in Reserve(s, w).wrappers
    ensures Exact(Reserve(s, w)) ==> WrapperOk(Reserve(s, w), w)
  {
  }

  lemma StepKeepsActor(s: State, a: Action)
    requires Exact(s) && Step(s, a).Accepted? && !a.Writeback? && a.w in Step(s, a).value.wrappers
    requires if a.w in s.wrappers then WrapperOk(s, a.w) else s.lock != Some(a.w)
    ensures Exact(Step(s, a).value) ==> WrapperOk(Step(s, a).value, a.w)
  {
    if a.WriteCounters? {
      ReserveKeepsActor(s, a.w);
    }
  }

  lemma StepKeepsWrapper(s: State, a: Action, w: nat)
    requires Exact(s) && Step(s, a).Accepted? && Exact(Step(s, a).value) && w in Step(s, a).value.wrappers
    requires forall v :: v in s.wrappers ==> WrapperOk(s, v)
    requires s.lock.Some? ==> s.lock.value in s.wrappers
    ensures WrapperOk(Step(s, a).value, w)
  {
    if Acts(a, w) {
      StepKeepsActor(s, a);
    } else {
      OthersUnmoved(s, a, w);
      StepKeepsOther(s, a, w);
    }
  }

  lemma ActorTicket(s: State, a: Action)
    requires Step(s, a).Accepted? && !a.Writeback?
    ensures a.w in Step(s, a).value.wrappers
    ensures var ticket := Step(s, a).value.wrappers[a.w].ticket;
            ticket.None? || ticket == Some(|s.writes|) || (a.w in s.wrappers && ticket == s.wrappers[a.w].ticket)
  {
  }

  lemma StepKeepsTickets(s: State, a: Action)
    requires Exact(s) && TicketsUnique(s) && Step(s, a).Accepted?
    requires forall v :: v in s.wrappers ==> WrapperOk(s, v)
    ensures TicketsUnique(Step(s, a).value)
  {
    var t := Step(s, a).value;
    if !a.Writeback? {
      ActorTicket(s, a);
      forall v | v in t.wrappers && v != a.w
        ensures v in s.wrappers && t.wrappers[v] == s.wrappers[v] && t.wrappers[v].ticket != Some(|s.writes|)
      {
        OthersUnmoved(s, a, v);
        assert WrapperOk(s, v);
      }
    }
  }

  lemma StepKeepsInvocation(s: State, a: Action, pid: nat)
    requires Step(s, a).Accepted? && pid in Step(s, a).value.invocations && |s.writes| == |s.granted| + 1
    requires pid in s.invocations ==> InvocationOk(s, pid)
    requires !a.Writeback? && !a.Begin? ==> a.w in s.wrappers && WrapperOk(s, a.w)
    ensures InvocationOk(Step(s, a).value, pid)
  {
  }

  lemma StepKeepsOwner(s: State, a: Action, w: nat)
    requires Step(s, a).Accepted? && w in Step(s, a).value.wrappers
    requires w in s.wrappers ==> OwnsCapture(s, w)
    ensures OwnsCapture(Step(s, a).value, w)
  {
  }

  lemma StepKeepsCompletion(s: State, a: Action, pid: nat)
    requires Step(s, a).Accepted? && pid in Step(s, a).value.completions
    requires pid in s.completions ==> CompletionOk(s, pid)
    requires a.Complete? && a.w in s.wrappers ==> OwnsCapture(s, a.w)
    ensures CompletionOk(Step(s, a).value, pid)
  {
  }

  lemma StepKeepsInv(s: State, a: Action)
    requires Inv(s) && Step(s, a).Accepted?
    ensures Inv(Step(s, a).value)
  {
    var t := Step(s, a).value;
    StepKeepsExact(s, a);
    forall w | w in t.wrappers ensures WrapperOk(t, w) && OwnsCapture(t, w) {
      StepKeepsWrapper(s, a, w);
      StepKeepsOwner(s, a, w);
    }
    StepKeepsTickets(s, a);
    forall pid | pid in t.invocations ensures InvocationOk(t, pid) {
      StepKeepsInvocation(s, a, pid);
    }
    forall pid | pid in t.completions ensures CompletionOk(t, pid) {
      StepKeepsCompletion(s, a, pid);
    }
  }

  lemma {:induction false} RunKeepsInv(s: State, actions: seq<Action>)
    requires Inv(s) && Run(s, actions).Accepted?
    ensures Inv(Run(s, actions).value)
    decreases |actions|
  {
    if actions != [] {
      StepKeepsInv(s, actions[0]);
      RunKeepsInv(Step(s, actions[0]).value, actions[1..]);
    }
  }

  // ----- What the quota guarantees -----

  /** What each published capture had reserved, and what its files hold. */
  ghost function Reserved(s: State): map<nat, int>
    requires Inv(s)
  {
    map pid | pid in s.invocations :: (assert InvocationOk(s, pid); s.wrappers[s.invocations[pid].owner].Reservation())
  }

  ghost function Stored(s: State): map<nat, int> {
    map pid | pid in s.invocations ::
      s.invocations[pid].bytes + (if pid in s.completions then s.completions[pid].bytes else 0)
  }

  ghost predicate UniqueUpTo(tickets: map<nat, nat>, d: nat) {
    && (forall k :: k in tickets ==> 1 <= tickets[k] <= d)
    && (forall k, l :: k in tickets && l in tickets && k != l ==> tickets[k] != tickets[l])
  }

  lemma WithoutLast(tickets: map<nat, nat>, d: nat, k: nat)
    requires UniqueUpTo(tickets, d) && k in tickets && tickets[k] == d
    ensures UniqueUpTo(tickets - {k}, d - 1)
  {
    forall l | l in tickets && l != k ensures tickets[l] <= d - 1 {
      assert tickets[l] != tickets[k];
    }
  }

  /** At most `d` distinct tickets up to `d`. */
  lemma {:induction false} TicketsCounted(tickets: map<nat, nat>, d: nat)
    requires UniqueUpTo(tickets, d)
    ensures |tickets| <= d
    decreases d
  {
    if d == 0 {
      assert tickets == map[];
    } else if k :| k in tickets && tickets[k] == d {
      WithoutLast(tickets, d, k);
      TicketsCounted(tickets - {k}, d - 1);
      assert tickets.Keys == (tickets - {k}).Keys + {k};
    } else {
      TicketsCounted(tickets, d - 1);
    }
  }

  /** Distinct tickets up to `d` were paid for by the first `d` grants. */
  lemma {:induction false} TicketsArePaid(tickets: map<nat, nat>, paid: map<nat, int>, granted: seq<nat>, d: nat)
    requires d <= |granted| && UniqueUpTo(tickets, d) && paid.Keys == tickets.Keys
    requires forall k :: k in tickets ==> paid[k] == granted[tickets[k] - 1]
    ensures Total(paid) <= Sum(granted[..d])
    decreases d
  {
    if d == 0 {
      assert paid == map[];
    } else {
      SumNext(granted, d);
      if k :| k in tickets && tickets[k] == d {
        WithoutLast(tickets, d, k);
        var otherTickets, others := tickets - {k}, paid - {k};
        assert forall l :: l in otherTickets ==> others[l] == granted[otherTickets[l] - 1];
        TicketsArePaid(otherTickets, others, granted, d - 1);
        TotalRemove(paid, k);
      } else {
        TicketsArePaid(tickets, paid, granted, d - 1);
      }
    }
  }

  lemma SumNext(granted: seq<nat>, d: nat)
    requires 0 < d <= |granted|
    ensures Sum(granted[..d]) == Sum(granted[..d - 1]) + granted[d - 1]
  {
    assert granted[..d][..d - 1] == granted[..d - 1];
  }

  ghost function PublishedTickets(s: State): (tickets: map<nat, nat>)
    requires Inv(s)
    ensures tickets.Keys == s.invocations.Keys
    ensures forall pid :: pid in tickets ==> s.invocations[pid].owner in s.wrappers
                                             && s.wrappers[s.invocations[pid].owner].ticket == Some(tickets[pid])
  {
    map pid | pid in s.invocations :: (assert InvocationOk(s, pid); s.wrappers[s.invocations[pid].owner].ticket.value)
  }

  lemma PublishedTicket(s: State, pid: nat)
    requires Inv(s) && pid in s.invocations
    ensures 1 <= PublishedTickets(s)[pid] <= s.durable && s.granted[PublishedTickets(s)[pid] - 1] == Reserved(s)[pid]
    ensures s.wrappers[s.invocations[pid].owner].pid == pid
  {
    assert InvocationOk(s, pid) && WrapperOk(s, s.invocations[pid].owner);
  }

  lemma PublishedTicketsUnique(s: State)
    requires Inv(s)
    ensures UniqueUpTo(PublishedTickets(s), s.durable)
    ensures forall pid :: pid in s.invocations ==> Reserved(s)[pid] == s.granted[PublishedTickets(s)[pid] - 1]
  {
    forall pid | pid in s.invocations
      ensures 1 <= PublishedTickets(s)[pid] <= s.durable && s.granted[PublishedTickets(s)[pid] - 1] == Reserved(s)[pid]
      ensures s.wrappers[s.invocations[pid].owner].pid == pid
    {
      PublishedTicket(s, pid);
    }
    assert TicketsUnique(s);
  }

  /** The counters on storage cover every published capture. */
  lemma PublishedArePaid(s: State)
    requires Inv(s)
    ensures Total(Reserved(s)) <= s.writes[s.durable].used
    ensures |s.invocations| <= s.writes[s.durable].count
  {
    PublishedTicketsUnique(s);
    var reserved := Reserved(s);
    assert reserved.Keys == s.invocations.Keys;
    TicketsArePaid(PublishedTickets(s), reserved, s.granted, s.durable);
    TicketsCounted(PublishedTickets(s), s.durable);
    assert PublishedTickets(s).Keys == s.invocations.Keys;
    assert ExactAt(s.writes, s.granted, s.durable);
  }

  lemma StoredFitsReserved(s: State)
    requires Inv(s)
    ensures Total(Stored(s)) <= Total(Reserved(s))
    ensures s.completions.Keys <= s.invocations.Keys
  {
    forall pid | pid in s.completions ensures CompletionOk(s, pid) {
    }
    forall pid | pid in s.invocations ensures Stored(s)[pid] <= Reserved(s)[pid] {
      assert InvocationOk(s, pid);
    }
    TotalMonotone(Stored(s), Reserved(s));
  }

  lemma ReachableInv(actions: seq<Action>)
    requires Run(PREPARED, actions).Accepted?
    ensures Inv(Run(PREPARED, actions).value)
  {
    assert PREPARED.granted[..0] == [];
    assert ExactAt(PREPARED.writes, PREPARED.granted, 0);
    RunKeepsInv(PREPARED, actions);
  }

  lemma {:induction false} TotalMonotone(a: map<nat, int>, b: map<nat, int>)
    requires a.Keys == b.Keys && forall k :: k in a ==> a[k] <= b[k]
    ensures Total(a) <= Total(b)
    decreases |a|
  {
    if a == map[] {
      assert b == map[];
    } else {
      var k :| k in a;
      TotalRemove(a, k);
      TotalRemove(b, k);
      TotalMonotone(a - {k}, b - {k});
    }
  }

  /**
   * After any interleaving of any number of wrappers, crashes and failed flushes included: the
   * counters are exactly the reservations granted, within both limits, and the counters that
   * storage holds already cover every capture published so far, in number and in bytes.
   */
  lemma QuotaSafety(actions: seq<Action>)
    requires Run(PREPARED, actions).Accepted?
    ensures var s := Run(PREPARED, actions).value;
            && Inv(s)
            && s.writes[|s.writes| - 1] == Counters(Sum(s.granted), |s.granted|)
            && Sum(s.granted) <= MAX_CAPTURE_BYTES
            && |s.granted| <= MAX_COMMANDS
            && Total(Stored(s)) <= Total(Reserved(s)) <= s.writes[s.durable].used <= MAX_CAPTURE_BYTES
            && |s.invocations| <= s.writes[s.durable].count <= MAX_COMMANDS
            && s.completions.Keys <= s.invocations.Keys
  {
    ReachableInv(actions);
    var s := Run(PREPARED, actions).value;
    assert ExactAt(s.writes, s.granted, |s.granted|) && ExactAt(s.writes, s.granted, s.durable);
    assert s.granted[..|s.granted|] == s.granted;
    PublishedArePaid(s);
    StoredFitsReserved(s);
  }

  /** The part of it the bundle needs. */
  lemma CapturesFit(actions: seq<Action>)
    requires Run(PREPARED, actions).Accepted?
    ensures var s := Run(PREPARED, actions).value;
            |s.invocations| <= MAX_COMMANDS && s.completions.Keys <= s.invocations.Keys
  {
    QuotaSafety(actions);
  }
}
