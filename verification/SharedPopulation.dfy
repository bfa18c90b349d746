/**
 * Preparing the record/replay workloads in a directory that every test process shares: one lock, a
 * staging directory renamed into place, the envelope written last, and pruning. Processes
 * interleave, any may crash between two steps, and a removal may be cut off anywhere.
 */
module SharedPopulation {
  import opened Base
  import opened Tables

  /** What a file holds: the build of a name under a key, which decides its bytes, or anything else. */
  datatype Bytes = Built(key: nat, name: string) | Foreign(id: nat)

  /** A file and its generation witness, which no other version of any file shares. */
  datatype File = File(bytes: Bytes, generation: nat)

  /** A workload's path inside the population of a key. */
  datatype Path = Path(key: nat, name: string)

  datatype Prepared = Prepared(name: string, path: Path, generation: nat)

  type Envelope = seq<Prepared>

  datatype Dir = Dir(files: map<string, File>, envelope: Option<Envelope>)

  datatype Name = Staging(process: nat) | Population(key: nat)

  datatype Workload = Workload(name: string, path: Path)

  datatype Phase =
    | Waiting
    | PruningStaging
    | Checking
    | Reusing(found: seq<Workload>)
    | RemovingOld
    | Ready
    | Building(done: nat)
    | Replacing
    | Renamed
    | Described(envelope: Envelope)
    | Enveloped(envelope: Envelope)
    | Returned(found: seq<Workload>)
    | Dead

  datatype Process = Process(key: nat, phase: Phase) {
    /** Between taking and releasing the lock. */
    predicate Holding() { !phase.Waiting? && !phase.Returned? && !phase.Dead? }
  }

  /** `origins[g]` is what the file with generation `g` was written with. */
  datatype State = State(root: map<Name, Dir>, lock: Option<nat>, processes: map<nat, Process>, origins: seq<Bytes>)

  const EMPTY := State(map[], None, map[], [])

  // ----- Envelopes -----

  function GenerationAt(root: map<Name, Dir>, path: Path): Option<nat> {
    if Population(path.key) in root && path.name in root[Population(path.key)].files
    then Some(root[Population(path.key)].files[path.name].generation)
    else None
  }

  function Names(envelope: Envelope): seq<(string, Path)> {
    seq(|envelope|, i requires 0 <= i < |envelope| => (envelope[i].name, envelope[i].path))
  }

  predicate Unchanged(root: map<Name, Dir>, envelope: Envelope) {
    forall i :: 0 <= i < |envelope| ==> GenerationAt(root, envelope[i].path) == Some(envelope[i].generation)
  }

  predicate Declares(declared: seq<string>, paths: map<string, Path>) {
    (forall name :: name in declared ==> name in paths) && (forall name :: name in paths ==> name in declared)
  }

  function Pick(declared: seq<string>, paths: map<string, Path>): seq<Workload>
    requires Declares(declared, paths)
  {
    seq(|declared|, i requires 0 <= i < |declared| => Workload(declared[i], paths[declared[i]]))
  }

  /** `consume_prepared` on a decoded envelope. */
  function Consumed(declared: seq<string>, root: map<Name, Dir>, envelope: Envelope): Outcome<seq<Workload>> {
    if !Unchanged(root, envelope) then Refused
    else match Table(Names(envelope))
      case Refused => Refused
      case Accepted(paths) => if Declares(declared, paths) then Accepted(Pick(declared, paths)) else Refused
  }

  /** The generation and repeat checks of its first loop. */
  method ReadPaths(root: map<Name, Dir>, envelope: Envelope) returns (r: Outcome<map<string, Path>>)
    ensures r == if Unchanged(root, envelope) then Table(Names(envelope)) else Refused
  {
    var paths: map<string, Path> := map[];
    for i := 0 to |envelope|
      invariant Table(Names(envelope)[..i]) == Accepted(paths)
      invariant forall k :: 0 <= k < i ==> GenerationAt(root, envelope[k].path) == Some(envelope[k].generation)
    {
      var entry := envelope[i];
      if GenerationAt(root, entry.path) != Some(entry.generation) {
        return Refused;
      }
      assert Names(envelope)[..i + 1] == Names(envelope)[..i] + [(entry.name, entry.path)];
      TableNext(Names(envelope)[..i], entry.name, entry.path);
      if entry.name in paths {
        TablePrefix(Names(envelope), i + 1);
        return Refused;
      }
      paths := paths[entry.name := entry.path];
    }
    assert Names(envelope)[..|envelope|] == Names(envelope);
    return Accepted(paths);
  }

  method ConsumePrepared(declared: seq<string>, root: map<Name, Dir>, envelope: Envelope)
    returns (r: Outcome<seq<Workload>>)
    ensures r == Consumed(declared, root, envelope)
  {
    var paths := ReadPaths(root, envelope);
    if paths.Refused? || !Declares(declared, paths.value) {
      return Refused;
    }
    var found: seq<Workload> := [];
    for i := 0 to |declared|
      invariant found == Pick(declared, paths.value)[..i]
    {
      found := found + [Workload(declared[i], paths.value[declared[i]])];
    }
    assert found == Pick(declared, paths.value);
    return Accepted(found);
  }

  /**
   * An envelope is accepted exactly when every listed file is there in the listed generation and
   * the listed names are the declared ones, each once; the workloads then follow the declared order.
   */
  lemma ConsumedExactly(declared: seq<string>, root: map<Name, Dir>, envelope: Envelope)
    ensures Consumed(declared, root, envelope).Accepted? <==>
            && Unchanged(root, envelope)
            && Distinct(Names(envelope))
            && forall name :: name in declared <==> HasKey(Names(envelope), name)
    ensures Consumed(declared, root, envelope).Accepted? ==>
            var found := Consumed(declared, root, envelope).value;
            && |found| == |declared|
            && forall i :: 0 <= i < |found| ==>
                 found[i].name == declared[i] && (found[i].name, found[i].path) in Names(envelope)
  {
    TableTabulates(Names(envelope));
    if Consumed(declared, root, envelope).Accepted? {
      var paths := Table(Names(envelope)).value;
      forall i | 0 <= i < |declared| ensures (declared[i], paths[declared[i]]) in Names(envelope) {
        assert HasKey(Names(envelope), declared[i]);
        var p :| p in Names(envelope) && p.0 == declared[i];
        assert p == (declared[i], paths[declared[i]]);
      }
    }
  }

  // ----- Steps -----

  /** What is left of a directory whose removal was cut off. */
  predicate Remnant(left: Dir, whole: Dir) {
    && (forall name :: name in left.files ==> name in whole.files && left.files[name] == whole.files[name])
    && (left.envelope.None? || left.envelope == whole.envelope)
  }

  function Erased(root: map<Name, Dir>, target: Name, left: Option<Dir>): map<Name, Dir> {
    if left.None? then root - {target} else root[target := left.value]
  }

  /** Which directories the process may be removing. */
  predicate MayErase(process: Process, target: Name) {
    match process.phase
    case PruningStaging => target.Staging?
    case RemovingOld => target == Population(process.key)
    case Replacing => target == Population(process.key)
    case Reusing(_) => target.Population? && target.key != process.key
    case Enveloped(_) => target.Population? && target.key != process.key
    case _ => false
  }

  /** `prepared_envelope`: each declared name with the generation of its file. */
  function DescribedBy(declared: seq<string>, root: map<Name, Dir>, key: nat): Outcome<Envelope> {
    if forall i :: 0 <= i < |declared| ==> GenerationAt(root, Path(key, declared[i])).Some? then
      Accepted(seq(|declared|, i requires 0 <= i < |declared| && GenerationAt(root, Path(key, declared[i])).Some? =>
        Prepared(declared[i], Path(key, declared[i]), GenerationAt(root, Path(key, declared[i])).value)))
    else Refused
  }

  datatype Action =
    | Begin(p: nat, key: nat)
    | Lock(p: nat)
    | Erase(p: nat, target: Name, left: Option<Dir>)
    | StagingPruned(p: nat)
    | Check(p: nat)
    | OldRemoved(p: nat)
    | Stage(p: nat)
    | Build(p: nat)
    | BuildFails(p: nat)
    | Rename(p: nat)
    | Describe(p: nat)
    | WriteEnvelope(p: nat)
    | Return(p: nat)
    | Crash(p: nat)
    | Tamper(key: nat, name: string, id: Option<nat>)

  function Move(s: State, p: nat, phase: Phase): State
    requires p in s.processes
  {
    s.(processes := s.processes[p := s.processes[p].(phase := phase)])
  }

  /** The process leaves, by returning or dying; its lock goes with it. */
  function Leave(s: State, p: nat, phase: Phase): State
    requires p in s.processes
  {
    Move(s.(lock := if s.lock == Some(p) then None else s.lock), p, phase)
  }

  /** The decision after the staging directories are gone. */
  function Checked(declared: seq<string>, s: State, p: nat): State
    requires p in s.processes
  {
    var home := Population(s.processes[p].key);
    if home in s.root && s.root[home].envelope.Some? then
      match Consumed(declared, s.root, s.root[home].envelope.value)
      case Accepted(found) => Move(s, p, Reusing(found))
      case Refused => Move(s, p, RemovingOld)
    else
      Move(s, p, Ready)
  }

  /** One more workload in the staging directory, or the end of the build. */
  function BuildNext(declared: seq<string>, s: State, p: nat): State
    requires p in s.processes && s.processes[p].phase.Building? && Staging(p) in s.root
  {
    var done, key, dir := s.processes[p].phase.done, s.processes[p].key, s.root[Staging(p)];
    if done < |declared| then
      var name := declared[done];
      var file := File(Built(key, name), |s.origins|);
      var built := dir.(files := dir.files[name := file]);
      Move(s.(root := s.root[Staging(p) := built], origins := s.origins + [file.bytes]), p, Building(done + 1))
    else
      Move(s, p, Replacing)
  }

  function DescribeNext(declared: seq<string>, s: State, p: nat): State
    requires p in s.processes
  {
    match DescribedBy(declared, s.root, s.processes[p].key)
    case Accepted(envelope) => Move(s, p, Described(envelope))
    case Refused => Leave(s, p, Dead)
  }

  /** A reusing process returns what it found; a building one reads its own envelope once more. */
  function ReturnNext(declared: seq<string>, s: State, p: nat): State
    requires p in s.processes && (s.processes[p].phase.Reusing? || s.processes[p].phase.Enveloped?)
  {
    if s.processes[p].phase.Reusing? then Leave(s, p, Returned(s.processes[p].phase.found))
    else match Consumed(declared, s.root, s.processes[p].phase.envelope)
      case Accepted(found) => Leave(s, p, Returned(found))
      case Refused => Leave(s, p, Dead)
  }

  /** A change from outside to a finished population: a file replaced, or removed. */
  function Tampered(s: State, key: nat, name: string, id: Option<nat>): State
    requires Population(key) in s.root
  {
    var dir := s.root[Population(key)];
    if id.Some? then
      s.(root := s.root[Population(key) := dir.(files := dir.files[name := File(Foreign(id.value), |s.origins|)])],
         origins := s.origins + [Foreign(id.value)])
    else
      s.(root := s.root[Population(key) := dir.(files := dir.files - {name})])
  }

  function PhaseOf(s: State, p: nat): Phase {
    if p in s.processes then s.processes[p].phase else Dead
  }

  /** One atomic step; `Refused` when it is not enabled. */
  function Step(declared: seq<string>, s: State, a: Action): Outcome<State> {
    match a
    case Begin(p, key) =>
      if p !in s.processes then Accepted(s.(processes := s.processes[p := Process(key, Waiting)])) else Refused
    case Lock(p) =>
      if PhaseOf(s, p).Waiting? && s.lock.None? then Accepted(Move(s.(lock := Some(p)), p, PruningStaging)) else Refused
    case Erase(p, target, left) =>
      if && p in s.processes && MayErase(s.processes[p], target) && target in s.root
         && (left.Some? ==> Remnant(left.value, s.root[target]))
      then Accepted(s.(root := Erased(s.root, target, left)))
      else Refused
    case StagingPruned(p) =>
      if PhaseOf(s, p).PruningStaging? && forall n :: n in s.root ==> !n.Staging?
      then Accepted(Move(s, p, Checking))
      else Refused
    case Check(p) =>
      if PhaseOf(s, p).Checking? then Accepted(Checked(declared, s, p)) else Refused
    case OldRemoved(p) =>
      if PhaseOf(s, p).RemovingOld? && Population(s.processes[p].key) !in s.root
      then Accepted(Move(s, p, Ready))
      else Refused
    case Stage(p) =>
      if PhaseOf(s, p).Ready? && Staging(p) !in s.root
      then Accepted(Move(s.(root := s.root[Staging(p) := Dir(map[], None)]), p, Building(0)))
      else Refused
    case Build(p) =>
      if PhaseOf(s, p).Building? && Staging(p) in s.root then Accepted(BuildNext(declared, s, p)) else Refused
    case BuildFails(p) =>
      if PhaseOf(s, p).Building? then Accepted(Leave(s.(root := s.root - {Staging(p)}), p, Dead)) else Refused
    case Rename(p) =>
      if PhaseOf(s, p).Replacing? && Population(s.processes[p].key) !in s.root && Staging(p) in s.root
      then
        var renamed := (s.root - {Staging(p)})[Population(s.processes[p].key) := s.root[Staging(p)]];
        Accepted(Move(s.(root := renamed), p, Renamed))
      else Refused
    case Describe(p) =>
      if PhaseOf(s, p).Renamed? then Accepted(DescribeNext(declared, s, p)) else Refused
    case WriteEnvelope(p) =>
      if PhaseOf(s, p).Described? && Population(s.processes[p].key) in s.root then
        var home, envelope := Population(s.processes[p].key), s.processes[p].phase.envelope;
        Accepted(Move(s.(root := s.root[home := s.root[home].(envelope := Some(envelope))]), p, Enveloped(envelope)))
      else Refused
    case Return(p) =>
      if PhaseOf(s, p).Reusing? || PhaseOf(s, p).Enveloped? then Accepted(ReturnNext(declared, s, p)) else Refused
    case Crash(p) =>
      if p in s.processes then Accepted(Leave(s, p, Dead)) else Refused
    case Tamper(key, name, id) =>
      if Population(key) in s.root && s.root[Population(key)].envelope.Some?
      then Accepted(Tampered(s, key, name, id))
      else Refused
  }

  function Run(declared: seq<string>, s: State, actions: seq<Action>): Outcome<State>
    decreases |actions|
  {
    if actions == [] then Accepted(s)
    else match Step(declared, s, actions[0])
      case Refused => Refused
      case Accepted(next) => Run(declared, next, actions[1..])
  }

  // ----- The invariant -----

  /** Files know what they were written with. */
  ghost predicate DirOk(origins: seq<Bytes>, dir: Dir) {
    forall name :: name in dir.files ==>
      dir.files[name].generation < |origins| && origins[dir.files[name].generation] == dir.files[name].bytes
  }

  /** An envelope of the population of `key`: every declared name in order, in a generation built for it. */
  ghost predicate EnvelopeOk(declared: seq<string>, origins: seq<Bytes>, key: nat, envelope: Envelope) {
    && |envelope| == |declared|
    && forall i :: 0 <= i < |declared| ==>
         && envelope[i].name == declared[i]
         && envelope[i].path == Path(key, declared[i])
         && envelope[i].generation < |origins|
         && origins[envelope[i].generation] == Built(key, declared[i])
  }

  /** The first `done` workloads are in place, built for `key`. */
  ghost predicate Holds(declared: seq<string>, dir: Dir, key: nat, done: nat) {
    && done <= |declared|
    && forall i :: 0 <= i < done ==> declared[i] in dir.files && dir.files[declared[i]].bytes == Built(key, declared[i])
  }

  /** Every declared name once, in the population of `key`. */
  function Workloads(declared: seq<string>, key: nat): seq<Workload> {
    seq(|declared|, i requires 0 <= i < |declared| => Workload(declared[i], Path(key, declared[i])))
  }

  /** Every workload of `key` is in place, as built. */
  ghost predicate Intact(declared: seq<string>, root: map<Name, Dir>, key: nat) {
    Population(key) in root && Holds(declared, root[Population(key)], key, |declared|)
  }

  ghost predicate NoRepeats(names: seq<string>) {
    forall i, j :: 0 <= i < j < |names| ==> names[i] != names[j]
  }

  /** An accepted envelope of the population of `key` finds exactly its workloads, each once and intact. */
  lemma ConsumedOwn(declared: seq<string>, s: State, key: nat, envelope: Envelope)
    requires EnvelopeOk(declared, s.origins, key, envelope) && Consumed(declared, s.root, envelope).Accepted?
    requires Population(key) in s.root && DirOk(s.origins, s.root[Population(key)])
    ensures Consumed(declared, s.root, envelope).value == Workloads(declared, key) && NoRepeats(declared)
    ensures Intact(declared, s.root, key)
  {
    ConsumedExactly(declared, s.root, envelope);
    var found := Consumed(declared, s.root, envelope).value;
    assert found == Workloads(declared, key) by { OwnFound(declared, s.origins, key, envelope, found); }
    assert NoRepeats(declared) by { OwnOnce(declared, s.origins, key, envelope); }
    assert Intact(declared, s.root, key) by { OwnIntact(declared, s, key, envelope); }
  }

  lemma OwnFound(declared: seq<string>, origins: seq<Bytes>, key: nat, envelope: Envelope, found: seq<Workload>)
    requires EnvelopeOk(declared, origins, key, envelope) && |found| == |declared|
    requires forall i :: 0 <= i < |found| ==>
               found[i].name == declared[i] && (found[i].name, found[i].path) in Names(envelope)
    ensures found == Workloads(declared, key)
  {
    forall i | 0 <= i < |declared| ensures found[i] == Workload(declared[i], Path(key, declared[i])) {
      var k :| 0 <= k < |envelope| && Names(envelope)[k] == (found[i].name, found[i].path);
    }
  }

  lemma OwnOnce(declared: seq<string>, origins: seq<Bytes>, key: nat, envelope: Envelope)
    requires EnvelopeOk(declared, origins, key, envelope) && Distinct(Names(envelope))
    ensures NoRepeats(declared)
  {
    forall i, j | 0 <= i < j < |declared| ensures declared[i] != declared[j] {
      assert Names(envelope)[i].0 != Names(envelope)[j].0;
    }
  }

  lemma OwnIntact(declared: seq<string>, s: State, key: nat, envelope: Envelope)
    requires EnvelopeOk(declared, s.origins, key, envelope) && Unchanged(s.root, envelope)
    requires Population(key) in s.root && DirOk(s.origins, s.root[Population(key)])
    ensures Intact(declared, s.root, key)
  {
    var dir := s.root[Population(key)];
    forall i | 0 <= i < |declared|
      ensures declared[i] in dir.files && dir.files[declared[i]].bytes == Built(key, declared[i])
    {
      assert GenerationAt(s.root, envelope[i].path) == Some(envelope[i].generation);
    }
  }

  ghost predicate ProcessOk(declared: seq<string>, s: State, p: nat)
    requires p in s.processes
  {
    var process := s.processes[p];
    var home := Population(process.key);
    && (process.Holding() <==> s.lock == Some(p))
    && match process.phase
       case Building(done) =>
         && Staging(p) in s.root && s.root[Staging(p)].envelope.None?
         && Holds(declared, s.root[Staging(p)], process.key, done)
       case Replacing =>
         && Staging(p) in s.root && s.root[Staging(p)].envelope.None?
         && Holds(declared, s.root[Staging(p)], process.key, |declared|)
       case Renamed =>
         && home in s.root && s.root[home].envelope.None?
         && Holds(declared, s.root[home], process.key, |declared|)
       case Described(envelope) =>
         && home in s.root && s.root[home].envelope.None? && Holds(declared, s.root[home], process.key, |declared|)
         && EnvelopeOk(declared, s.origins, process.key, envelope)
         && Unchanged(s.root, envelope)
       case Enveloped(envelope) =>
         && home in s.root && s.root[home].envelope == Some(envelope)
         && EnvelopeOk(declared, s.origins, process.key, envelope)
       case Reusing(found) => home in s.root && found == Workloads(declared, process.key) && NoRepeats(declared)
       case Returned(found) => found == Workloads(declared, process.key) && NoRepeats(declared)
       case _ => true
  }

  ghost predicate RootOk(declared: seq<string>, s: State, n: Name)
    requires n in s.root
  {
    && DirOk(s.origins, s.root[n])
    && (s.root[n].envelope.Some? ==> n.Population? && EnvelopeOk(declared, s.origins, n.key, s.root[n].envelope.value))
  }

  ghost predicate Inv(declared: seq<string>, s: State) {
    && (s.lock.Some? ==> s.lock.value in s.processes)
    && (forall p :: p in s.processes ==> ProcessOk(declared, s, p))
    && (forall n :: n in s.root ==> RootOk(declared, s, n))
  }

  predicate Acts(a: Action, p: nat) {
    !a.Tamper? && a.p == p
  }

  /** A step moves only its own process, and generations are only ever added. */
  lemma OthersUnmoved(declared: seq<string>, s: State, a: Action, p: nat)
    requires Step(declared, s, a).Accepted? && !Acts(a, p)
    ensures p in s.processes <==> p in Step(declared, s, a).value.processes
    ensures p in s.processes ==> Step(declared, s, a).value.processes[p] == s.processes[p]
  {
  }

  lemma OriginsGrow(declared: seq<string>, s: State, a: Action)
    requires Step(declared, s, a).Accepted?
    ensures s.origins <= Step(declared, s, a).value.origins
  {
  }

  lemma EnvelopeStaysOk(declared: seq<string>, before: seq<Bytes>, after: seq<Bytes>, key: nat, envelope: Envelope)
    requires EnvelopeOk(declared, before, key, envelope) && before <= after
    ensures EnvelopeOk(declared, after, key, envelope)
  {
  }

  lemma SameDirKept(declared: seq<string>, s: State, t: State, n: Name)
    requires n in s.root && RootOk(declared, s, n) && n in t.root && s.origins <= t.origins
    requires Remnant(t.root[n], s.root[n])
    ensures RootOk(declared, t, n)
  {
    if t.root[n].envelope.Some? {
      EnvelopeStaysOk(declared, s.origins, t.origins, n.key, t.root[n].envelope.value);
    }
  }

  /** The directories a step may do more to than remove. */
  predicate Touches(s: State, a: Action, n: Name) {
    match a
    case Stage(p) => n == Staging(p)
    case Build(p) => n == Staging(p)
    case Rename(p) => p in s.processes && n == Population(s.processes[p].key)
    case WriteEnvelope(p) => p in s.processes && n == Population(s.processes[p].key)
    case Tamper(key, _, _) => n == Population(key)
    case _ => false
  }

  lemma UntouchedShrinks(declared: seq<string>, s: State, a: Action, n: Name)
    requires Step(declared, s, a).Accepted? && n in Step(declared, s, a).value.root && !Touches(s, a, n)
    ensures n in s.root && Remnant(Step(declared, s, a).value.root[n], s.root[n])
  {
  }

  lemma TouchedOk(declared: seq<string>, s: State, a: Action, n: Name)
    requires Step(declared, s, a).Accepted? && n in Step(declared, s, a).value.root && Touches(s, a, n)
    requires n in s.root ==> RootOk(declared, s, n)
    requires !a.Tamper? ==> a.p in s.processes && ProcessOk(declared, s, a.p)
    requires !a.Tamper? && Staging(a.p) in s.root ==> RootOk(declared, s, Staging(a.p))
    ensures RootOk(declared, Step(declared, s, a).value, n)
  {
    var t := Step(declared, s, a).value;
    OriginsGrow(declared, s, a);
    if a.Tamper? {
      EnvelopeStaysOk(declared, s.origins, t.origins, n.key, s.root[n].envelope.value);
    }
  }

  lemma StepKeepsRoot(declared: seq<string>, s: State, a: Action, n: Name)
    requires Inv(declared, s) && Step(declared, s, a).Accepted? && n in Step(declared, s, a).value.root
    ensures RootOk(declared, Step(declared, s, a).value, n)
  {
    if Touches(s, a, n) {
      TouchedOk(declared, s, a, n);
    } else {
      OriginsGrow(declared, s, a);
      UntouchedShrinks(declared, s, a, n);
      SameDirKept(declared, s, Step(declared, s, a).value, n);
    }
  }

  /** A change from outside touches a population only after its envelope is written. */
  lemma TamperKeepsProcess(declared: seq<string>, s: State, a: Action, p: nat)
    requires a.Tamper? && Step(declared, s, a).Accepted? && p in s.processes && ProcessOk(declared, s, p)
    ensures ProcessOk(declared, Step(declared, s, a).value, p)
  {
    var t := Step(declared, s, a).value;
    OriginsGrow(declared, s, a);
    match s.processes[p].phase
    case Described(envelope) => EnvelopeStaysOk(declared, s.origins, t.origins, s.processes[p].key, envelope);
    case Enveloped(envelope) => EnvelopeStaysOk(declared, s.origins, t.origins, s.processes[p].key, envelope);
    case _ =>
  }

  /** Processes without the lock have nothing to keep but that. */
  lemma StepKeepsOther(declared: seq<string>, s: State, a: Action, p: nat)
    requires Inv(declared, s) && Step(declared, s, a).Accepted? && !Acts(a, p) && p in s.processes
    ensures p in Step(declared, s, a).value.processes && ProcessOk(declared, Step(declared, s, a).value, p)
  {
    OthersUnmoved(declared, s, a, p);
    assert ProcessOk(declared, s, p);
    if a.Tamper? {
      TamperKeepsProcess(declared, s, a, p);
    } else {
      assert !a.Begin? ==> a.p in s.processes && ProcessOk(declared, s, a.p);
      ProcessKeepsOther(declared, s, a, p);
    }
  }

  lemma ProcessKeepsOther(declared: seq<string>, s: State, a: Action, p: nat)
    requires Step(declared, s, a).Accepted? && !a.Tamper? && a.p != p && p in s.processes && ProcessOk(declared, s, p)
    requires !a.Begin? ==> a.p in s.processes && (s.processes[a.p].Holding() <==> s.lock == Some(a.p))
    ensures p in Step(declared, s, a).value.processes && ProcessOk(declared, Step(declared, s, a).value, p)
  {
    var t := Step(declared, s, a).value;
    OthersUnmoved(declared, s, a, p);
    if !s.processes[p].Holding() {
      assert t.lock != Some(p);
    } else {
      assert t.root == s.root && t.origins == s.origins && t.lock == s.lock;
    }
  }

  lemma BuildKeepsActor(declared: seq<string>, s: State, p: nat)
    requires PhaseOf(s, p).Building? && Staging(p) in s.root && ProcessOk(declared, s, p)
    ensures p in BuildNext(declared, s, p).processes && ProcessOk(declared, BuildNext(declared, s, p), p)
  {
  }

  /** The envelope read off a complete population lists what was built for its key. */
  lemma DescriptionOk(declared: seq<string>, s: State, key: nat)
    requires Population(key) in s.root && DirOk(s.origins, s.root[Population(key)])
    requires Holds(declared, s.root[Population(key)], key, |declared|)
    ensures var r := DescribedBy(declared, s.root, key);
            r.Accepted? && EnvelopeOk(declared, s.origins, key, r.value) && Unchanged(s.root, r.value)
  {
  }

  lemma StepKeepsActor(declared: seq<string>, s: State, a: Action)
    requires Step(declared, s, a).Accepted? && !a.Tamper? && (s.lock.Some? ==> s.lock.value in s.processes)
    requires a.p in s.processes ==> ProcessOk(declared, s, a.p)
    requires a.p in s.processes && Population(s.processes[a.p].key) in s.root ==>
               RootOk(declared, s, Population(s.processes[a.p].key))
    ensures a.p in Step(declared, s, a).value.processes && ProcessOk(declared, Step(declared, s, a).value, a.p)
  {
    if a.Build? {
      BuildKeepsActor(declared, s, a.p);
    } else if a.Describe? {
      DescriptionOk(declared, s, s.processes[a.p].key);
    } else if a.Check? {
      CheckFindsOwn(declared, s, a.p);
    } else if a.Return? {
      ReturnFindsOwn(declared, s, a.p);
    }
  }

  /** A process that decides to reuse a population has found its own workloads, intact. */
  lemma CheckFindsOwn(declared: seq<string>, s: State, p: nat)
    requires p in s.processes && PhaseOf(s, p).Checking?
    requires Population(s.processes[p].key) in s.root ==> RootOk(declared, s, Population(s.processes[p].key))
    ensures var t := Checked(declared, s, p); var phase := PhaseOf(t, p);
            phase.Reusing? ==>
              && phase.found == Workloads(declared, s.processes[p].key) && NoRepeats(declared)
              && Intact(declared, t.root, s.processes[p].key)
  {
    var home := Population(s.processes[p].key);
    if && home in s.root && s.root[home].envelope.Some?
       && Consumed(declared, s.root, s.root[home].envelope.value).Accepted?
    {
      ConsumedOwn(declared, s, home.key, s.root[home].envelope.value);
    }
  }

  /** A process that returns after building has found its own workloads, intact. */
  lemma ReturnFindsOwn(declared: seq<string>, s: State, p: nat)
    requires p in s.processes && (PhaseOf(s, p).Reusing? || PhaseOf(s, p).Enveloped?) && ProcessOk(declared, s, p)
    requires Population(s.processes[p].key) in s.root ==> RootOk(declared, s, Population(s.processes[p].key))
    ensures var t := ReturnNext(declared, s, p); var phase := PhaseOf(t, p);
            phase.Returned? ==>
              && phase.found == Workloads(declared, s.processes[p].key) && NoRepeats(declared)
              && (PhaseOf(s, p).Enveloped? ==> Intact(declared, t.root, s.processes[p].key))
  {
    var key := s.processes[p].key;
    if PhaseOf(s, p).Enveloped? && Consumed(declared, s.root, PhaseOf(s, p).envelope).Accepted? {
      ConsumedOwn(declared, s, key, PhaseOf(s, p).envelope);
    }
  }

  lemma StepKeepsInv(declared: seq<string>, s: State, a: Action)
    requires Inv(declared, s) && Step(declared, s, a).Accepted?
    ensures Inv(declared, Step(declared, s, a).value)
  {
    var t := Step(declared, s, a).value;
    forall n | n in t.root ensures RootOk(declared, t, n) {
      StepKeepsRoot(declared, s, a, n);
    }
    forall p | p in t.processes ensures ProcessOk(declared, t, p) {
      if Acts(a, p) {
        StepKeepsActor(declared, s, a);
      } else {
        OthersUnmoved(declared, s, a, p);
        StepKeepsOther(declared, s, a, p);
      }
    }
    if t.lock.Some? && t.lock != s.lock {
      assert a.Lock?;
    }
  }

  lemma {:induction false} RunKeepsInv(declared: seq<string>, s: State, actions: seq<Action>)
    requires Inv(declared, s) && Run(declared, s, actions).Accepted?
    ensures Inv(declared, Run(declared, s, actions).value)
    decreases |actions|
  {
    if actions != [] {
      StepKeepsInv(declared, s, actions[0]);
      RunKeepsInv(declared, Step(declared, s, actions[0]).value, actions[1..]);
    }
  }

  // ----- What the protocol guarantees -----

  /** The state after a run, and after one more step. */
  ghost predicate Follows(declared: seq<string>, actions: seq<Action>, a: Action, s: State, t: State) {
    Run(declared, EMPTY, actions) == Accepted(s) && Step(declared, s, a) == Accepted(t)
  }

  /** An envelope appears only in a population that is already in place and completely built for its key. */
  lemma EnvelopeOnlyWhenComplete(declared: seq<string>, actions: seq<Action>, a: Action, s: State, t: State, key: nat)
    requires Follows(declared, actions, a, s, t)
    requires Population(key) in t.root && t.root[Population(key)].envelope.Some?
    requires !(Population(key) in s.root && s.root[Population(key)].envelope.Some?)
    ensures Population(key) in s.root
    ensures Intact(declared, t.root, key) && Unchanged(t.root, t.root[Population(key)].envelope.value)
  {
    RunKeepsInv(declared, EMPTY, actions);
    if !Touches(s, a, Population(key)) {
      UntouchedShrinks(declared, s, a, Population(key));
    } else {
      assert ProcessOk(declared, s, a.p);
    }
  }

  /** Every process that returns, or is about to, lists each declared name once, in the population of its own key. */
  lemma FoundIsOwn(declared: seq<string>, actions: seq<Action>, p: nat)
    requires Run(declared, EMPTY, actions).Accepted? && p in Run(declared, EMPTY, actions).value.processes
    ensures var s := Run(declared, EMPTY, actions).value; var phase := PhaseOf(s, p);
            phase.Reusing? || phase.Returned? ==>
              phase.found == Workloads(declared, s.processes[p].key) && NoRepeats(declared)
  {
    RunKeepsInv(declared, EMPTY, actions);
    assert ProcessOk(declared, Run(declared, EMPTY, actions).value, p);
  }

  /** When a process decides to reuse a population, or returns after building one, every file there is as built. */
  lemma FoundIsIntact(declared: seq<string>, actions: seq<Action>, a: Action, s: State, t: State, p: nat)
    requires Follows(declared, actions, a, s, t) && p in s.processes
    requires (PhaseOf(t, p).Reusing? && !PhaseOf(s, p).Reusing?)
             || (PhaseOf(t, p).Returned? && PhaseOf(s, p).Enveloped?)
    ensures Intact(declared, t.root, s.processes[p].key)
  {
    RunKeepsInv(declared, EMPTY, actions);
    if !Acts(a, p) {
      OthersUnmoved(declared, s, a, p);
    } else if a.Check? {
      CheckFindsOwn(declared, s, p);
    } else if a.Return? {
      assert ProcessOk(declared, s, p);
      ReturnFindsOwn(declared, s, p);
    }
  }

  /** A population with a valid envelope is reused, and only such a one. */
  lemma ValidIsReused(declared: seq<string>, s: State, t: State, p: nat)
    requires Step(declared, s, Check(p)) == Accepted(t)
    ensures var home := Population(s.processes[p].key);
            PhaseOf(t, p).Reusing? <==>
            && home in s.root && s.root[home].envelope.Some?
            && Consumed(declared, s.root, s.root[home].envelope.value).Accepted?
  {
  }

  /** Until the process that found or built a population returns, no step of any process changes that population. */
  lemma FoundIsKept(declared: seq<string>, actions: seq<Action>, a: Action, s: State, t: State, p: nat)
    requires Follows(declared, actions, a, s, t) && p in s.processes && !a.Tamper?
    requires PhaseOf(s, p).Reusing? || PhaseOf(s, p).Enveloped?
    ensures var home := Population(s.processes[p].key);
            home in s.root && home in t.root && t.root[home] == s.root[home]
  {
    RunKeepsInv(declared, EMPTY, actions);
    assert ProcessOk(declared, s, p);
    if a.Begin? {
      assert t.root == s.root;
    } else {
      assert ProcessOk(declared, s, a.p);
      HolderKeeps(declared, s, a, t, p);
    }
  }

  lemma HolderKeeps(declared: seq<string>, s: State, a: Action, t: State, p: nat)
    requires Step(declared, s, a) == Accepted(t) && !a.Tamper? && !a.Begin? && p in s.processes && a.p in s.processes
    requires PhaseOf(s, p).Reusing? || PhaseOf(s, p).Enveloped?
    requires s.lock == Some(p) && (s.processes[a.p].Holding() ==> s.lock == Some(a.p))
    requires Population(s.processes[p].key) in s.root
    ensures var home := Population(s.processes[p].key); home in t.root && t.root[home] == s.root[home]
  {
  }
}
