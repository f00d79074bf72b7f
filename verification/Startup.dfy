/** Start-up of the service: `initialize_db`, `schema_update` and `alembic_migrate`. Every
    instance brings every schema to its head version, or waits for another one to do so, and
    seeds the database if it found the last schema blank. */
module Startup {
  import opened Wrappers
  import Lock
  import Redis

  /** A schema without a version does not exist yet. */
  type Version = Option<string>

  datatype Outcome = Done | Exited | Hangs

  predicate AtHead(versions: seq<Version>, heads: seq<string>) {
    |versions| == |heads| && forall k | 0 <= k < |heads| :: versions[k] == Some(heads[k])
  }

  /** What an instance meets at one schema: whether its version can be read, and which of the tries
      to connect succeed. */
  datatype Conditions = Conditions(readable: bool, reachable: seq<bool>)

  /** The instance finds schema k at its head. */
  ghost predicate FindsHead(heads: seq<string>, versions: seq<Version>, world: seq<Conditions>, k: nat)
    requires k < |heads| == |versions| == |world|
  {
    world[k].readable && versions[k] == Some(heads[k])
  }

  function FirstTrue(flags: seq<bool>): (i: nat)
    ensures i <= |flags| && (i < |flags| ==> flags[i]) && forall j | 0 <= j < i :: !flags[j]
  {
    if flags == [] || flags[0] then 0 else 1 + FirstTrue(flags[1..])
  }

  // --- n instances starting at once, one step at a time ---------------------------------------

  /** Instance i migrates if `migrates[i]`; then it works under the lock, as client i. */
  datatype Config = Config(heads: seq<string>, migrates: seq<bool>, maxtime: int, lock: Lock.Config) {
    ghost predicate Valid() {
      && heads != [] && |migrates| == |lock.signatures| && lock.Valid()
      && 0 < maxtime == lock.ttl
    }

    function Last(): int { |heads| - 1 }
  }

  /** `Checked`: the version of schema k has been read; `wait` is what is left of the waiting time.
      `Migrated`: schema k has been dealt with, except for the seeding. */
  datatype Phase =
    | Waiting
    | Checking(k: nat)
    | Checked(k: nat, version: Version, wait: int)
    | Migrated(k: nat, version: Version)
    | Finished
    | Failed

  datatype State = State(lock: Lock.State, versions: seq<Version>, seeds: nat, phases: seq<Phase>)

  /** `FailRead` is the reading of a version that fails; `Crash` is any other failure under way, such
      as an exception or an exit; `GiveUp` is a lock that was not obtained in time. */
  datatype Action =
    | Locking(action: Lock.Action)
    | Work(i: nat)
    | FailRead(i: nat)
    | Crash(i: nat)
    | GiveUp(i: nat)

  predicate Working(phase: Phase) {
    phase.Checking? || phase.Checked? || phase.Migrated?
  }

  ghost predicate Shaped(c: Config, s: State) {
    && c.Valid() && |s.lock.clients| == |s.phases| == |c.migrates| && |s.versions| == |c.heads|
    && forall i | 0 <= i < |s.phases| ::
         && (s.phases[i].Checking? ==> s.phases[i].k <= |c.heads|)
         && (s.phases[i].Checked? || s.phases[i].Migrated? ==> s.phases[i].k < |c.heads|)
  }

  ghost predicate MayWork(c: Config, s: State, i: nat)
    requires Shaped(c, s)
  {
    i < |s.phases| && (c.migrates[i] ==> s.lock.clients[i].Inside?)
  }

  /** An action that is not enabled changes nothing. The lock is taken by waiting instances and
      released by finished or failed ones. Nothing keeps an instance from working on when its lock
      has expired. */
  ghost function Step(c: Config, s: State, action: Action): (after: State)
    requires Shaped(c, s)
    ensures Shaped(c, after)
  {
    match action
    case Locking(a) =>
      var lock := Lock.Step(c.lock, s.lock, a);
      if a.Tick? then s.(lock := lock)
      else if a.client >= |s.phases| || !c.migrates[a.client] then s
      else if a.TryAcquire? then
        if s.phases[a.client].Waiting? && lock != s.lock then
          s.(lock := lock, phases := s.phases[a.client := Checking(0)])
        else s
      else if Working(s.phases[a.client]) then s
      else s.(lock := lock)
    case Crash(i) =>
      if i < |s.phases| && Working(s.phases[i]) then s.(phases := s.phases[i := Failed]) else s
    case GiveUp(i) =>
      if i < |s.phases| && s.phases[i].Waiting? then s.(phases := s.phases[i := Failed]) else s
    case FailRead(i) =>
      if MayWork(c, s, i) && s.phases[i].Checking? && s.phases[i].k < |c.heads| then
        s.(phases := s.phases[i := Checked(s.phases[i].k, None, c.maxtime)])
      else s
    case Work(i) =>
      if !MayWork(c, s, i) then s
      else
        match s.phases[i]
        case Waiting => if c.migrates[i] then s else s.(phases := s.phases[i := Checking(0)])
        case Checking(k) =>
          s.(phases := s.phases[i := if k == |c.heads| then Finished else Checked(k, s.versions[k], c.maxtime)])
        case Checked(k, version, wait) =>
          if version == Some(c.heads[k]) then
            s.(phases := s.phases[i := Migrated(k, version)])
          else if c.migrates[i] then
            s.(phases := s.phases[i := Migrated(k, version)], versions := s.versions[k := Some(c.heads[k])])
          else
            s.(phases := s.phases[i := if wait == 0 then Migrated(k, version) else Checked(k, version, wait - 5)])
        case Migrated(k, version) =>
          s.(phases := s.phases[i := Checking(k + 1)],
             seeds := s.seeds + if version.None? && k == c.Last() then 1 else 0)
        case Finished => s
        case Failed => s
  }

  ghost function Run(c: Config, s: State, actions: seq<Action>): (end: State)
    requires Shaped(c, s)
    ensures Shaped(c, end)
    decreases |actions|
  {
    if actions == [] then s else Run(c, Step(c, s, actions[0]), actions[1..])
  }

  /** No holder of the lock outlives it. */
  ghost predicate PunctualThroughout(c: Config, s: State, actions: seq<Action>)
    requires Shaped(c, s)
    decreases |actions|
  {
    s.lock.Punctual() && (actions == [] || PunctualThroughout(c, Step(c, s, actions[0]), actions[1..]))
  }

  function Start(c: Config, versions: seq<Version>, now: int): State {
    State(Lock.Start(c.lock, now), versions, 0, seq(|c.migrates|, _ => Waiting))
  }

  function Blank(c: Config): seq<Version> {
    seq(|c.heads|, _ => None)
  }

  /** Whether an instance ever gets past a schema that it does not find at its head: by migrating it,
      or by waiting for a time that five divides. */
  predicate Capable(c: Config, i: nat) {
    i < |c.migrates| && (c.migrates[i] || c.maxtime % 5 == 0)
  }

  /** Only migrating instances get past a schema that they do not find at its head. */
  ghost predicate Steady(c: Config) {
    forall i: nat | Capable(c, i) :: c.migrates[i]
  }

  /** The reading of the last schema's version fails although the schema exists. */
  ghost predicate Misread(c: Config, s: State, action: Action)
    requires Shaped(c, s)
  {
    && action.FailRead? && MayWork(c, s, action.i) && Capable(c, action.i)
    && s.phases[action.i] == Checking(c.Last()) && s.versions[c.Last()].Some?
  }

  ghost function Misreads(c: Config, s: State, actions: seq<Action>): nat
    requires Shaped(c, s)
    decreases |actions|
  {
    if actions == [] then 0
    else (if Misread(c, s, actions[0]) then 1 else 0) + Misreads(c, Step(c, s, actions[0]), actions[1..])
  }

  // --- the schemas ----------------------------------------------------------------------------

  predicate HeadsBelow(c: Config, versions: seq<Version>, k: int)
    requires |versions| == |c.heads|
  {
    forall j | 0 <= j < |c.heads| && j < k :: versions[j] == Some(c.heads[j])
  }

  /** What is known of one instance, whatever fails and however long it takes. */
  ghost predicate PhaseInv(c: Config, s: State, i: nat)
    requires Shaped(c, s) && i < |s.phases|
  {
    match s.phases[i]
    case Waiting => true
    case Checking(k) => HeadsBelow(c, s.versions, k)
    case Checked(k, version, wait) =>
      && HeadsBelow(c, s.versions, k)
      && (version.Some? ==> s.versions[k].Some?)
      && (version == Some(c.heads[k]) ==> s.versions[k] == version)
      && (!c.migrates[i] ==> version == Some(c.heads[k]) || wait % 5 != 0)
    case Migrated(k, version) =>
      HeadsBelow(c, s.versions, k + 1) && (version.None? ==> c.migrates[i])
    case Finished => HeadsBelow(c, s.versions, |c.heads|)
    case Failed => true
  }

  ghost predicate Inv(c: Config, s: State) {
    Shaped(c, s) && forall i | 0 <= i < |s.phases| :: PhaseInv(c, s, i)
  }

  /** What a step of another instance, or of none, leaves known. */
  lemma OthersKeepPhaseInv(c: Config, s: State, action: Action, j: nat)
    requires Inv(c, s) && j < |s.phases| && Step(c, s, action).phases[j] == s.phases[j]
    ensures PhaseInv(c, Step(c, s, action), j)
  {
    assert PhaseInv(c, s, j);
    var after := Step(c, s, action);
    assert forall k | 0 <= k < |c.heads| :: after.versions[k] == s.versions[k] || after.versions[k] == Some(c.heads[k]);
  }

  lemma WorkKeepsPhaseInv(c: Config, s: State, j: nat)
    requires Inv(c, s) && j < |s.phases| && (Capable(c, j) ==> c.migrates[j])
    ensures PhaseInv(c, Step(c, s, Work(j)), j)
  {
    assert PhaseInv(c, s, j);
  }

  lemma StepKeepsPhaseInv(c: Config, s: State, action: Action, j: nat)
    requires Inv(c, s) && Steady(c) && j < |s.phases|
    ensures PhaseInv(c, Step(c, s, action), j)
  {
    if Step(c, s, action).phases[j] == s.phases[j] {
      OthersKeepPhaseInv(c, s, action, j);
    } else if action.Work? {
      WorkKeepsPhaseInv(c, s, j);
    } else {
      assert PhaseInv(c, s, j) && (!c.migrates[j] ==> !Capable(c, j));
    }
  }

  lemma {:induction false} RunKeepsInv(c: Config, s: State, actions: seq<Action>)
    requires Inv(c, s) && Steady(c)
    ensures Inv(c, Run(c, s, actions))
    decreases |actions|
  {
    if actions != [] {
      var after := Step(c, s, actions[0]);
      forall j | 0 <= j < |s.phases| ensures PhaseInv(c, after, j) {
        StepKeepsPhaseInv(c, s, actions[0], j);
      }
      RunKeepsInv(c, after, actions[1..]);
    }
  }

  /** Once an instance has finished, every schema is at its head, whatever failed. */
  lemma FinishedAtHead(c: Config, versions: seq<Version>, now: int, actions: seq<Action>)
    requires c.Valid() && |versions| == |c.heads| && Steady(c)
    ensures var end := Run(c, Start(c, versions, now), actions);
            Finished in end.phases ==> AtHead(end.versions, c.heads)
  {
    RunKeepsInv(c, Start(c, versions, now), actions);
    var end := Run(c, Start(c, versions, now), actions);
    if Finished in end.phases {
      var i :| 0 <= i < |end.phases| && end.phases[i] == Finished;
      assert PhaseInv(c, end, i);
    }
  }

  // --- the seeding, counted -------------------------------------------------------------------

  /** Migrating instances work under the lock. */
  ghost predicate LockInv(c: Config, s: State) {
    && Shaped(c, s) && Lock.Inv(c.lock, s.lock)
    && forall i | 0 <= i < |s.phases| :: c.migrates[i] && Working(s.phases[i]) ==> s.lock.clients[i].Inside?
  }

  lemma StepKeepsLockInv(c: Config, s: State, action: Action)
    requires LockInv(c, s) && s.lock.Punctual()
    ensures LockInv(c, Step(c, s, action))
  {
    if action.Locking? {
      Lock.StepKeepsInv(c.lock, s.lock, action.action);
    }
  }

  lemma OneMigrates(c: Config, s: State, i: nat, j: nat)
    requires LockInv(c, s) && i < |s.phases| && j < |s.phases|
    requires c.migrates[i] && c.migrates[j] && Working(s.phases[i]) && Working(s.phases[j])
    ensures i == j
  {
    Lock.InvIsExclusive(c.lock, s.lock);
    assert s.lock.Holds(i) && s.lock.Holds(j);
  }

  /** The instance has taken the last schema for blank, which exists by now, and has yet to seed. */
  ghost predicate AboutToSeed(c: Config, s: State, i: nat)
    requires Shaped(c, s)
  {
    && i < |s.phases| && c.migrates[i]
    && match s.phases[i]
       case Checked(k, version, _) => k == c.Last() && version.None? && s.versions[k].Some?
       case Migrated(k, version) => k == c.Last() && version.None?
       case _ => false
  }

  ghost predicate SeedingPends(c: Config, s: State)
    requires Shaped(c, s)
  {
    exists i: nat :: AboutToSeed(c, s, i)
  }

  /** The seedings that have happened, that pend, and that a blank schema still calls for. */
  ghost function Account(c: Config, s: State): nat
    requires Shaped(c, s)
  {
    s.seeds + (if SeedingPends(c, s) then 1 else 0) + if s.versions[c.Last()].None? then 1 else 0
  }

  lemma OnlyOneSeeds(c: Config, s: State, i: nat)
    requires LockInv(c, s) && i < |s.phases| && c.migrates[i] && Working(s.phases[i])
    ensures SeedingPends(c, s) <==> AboutToSeed(c, s, i)
  {
    if j: nat :| AboutToSeed(c, s, j) {
      OneMigrates(c, s, i, j);
    }
  }

  /** A step of the migrating instance at work. */
  lemma MigratorsAccount(c: Config, s: State, action: Action, i: nat)
    requires Inv(c, s) && LockInv(c, s) && s.lock.Punctual() && i < |s.phases| && c.migrates[i] && Working(s.phases[i])
    requires action == Work(i) || action == FailRead(i)
    ensures Account(c, Step(c, s, action)) == Account(c, s) + if Misread(c, s, action) then 1 else 0
  {
    var after := Step(c, s, action);
    assert PhaseInv(c, s, i);
    OnlyOneSeeds(c, s, i);
    StepKeepsLockInv(c, s, action);
    if Working(after.phases[i]) {
      OnlyOneSeeds(c, after, i);
    } else if j: nat :| AboutToSeed(c, after, j) {
      OneMigrates(c, s, i, j);
    }
  }

  /** Every other step leaves what pends alone, but for a crash, which can only drop it. */
  lemma OthersAccount(c: Config, s: State, action: Action)
    requires Inv(c, s) && Steady(c)
    requires action.Work? || action.FailRead? ==> action.i >= |s.phases| || !c.migrates[action.i] || !Working(s.phases[action.i])
    ensures Account(c, Step(c, s, action)) <= Account(c, s)
    ensures !action.Crash? ==> Account(c, Step(c, s, action)) == Account(c, s)
    ensures !Misread(c, s, action)
  {
    var after := Step(c, s, action);
    if (action.Work? || action.FailRead?) && action.i < |s.phases| {
      assert PhaseInv(c, s, action.i);
      assert !c.migrates[action.i] ==> !Capable(c, action.i);
    }
    assert after.seeds == s.seeds && after.versions == s.versions;
    forall j: nat ensures AboutToSeed(c, after, j) ==> AboutToSeed(c, s, j) {}
    if !action.Crash? {
      forall j: nat ensures AboutToSeed(c, s, j) ==> AboutToSeed(c, after, j) {}
    }
  }

  lemma StepAccount(c: Config, s: State, action: Action)
    requires Inv(c, s) && LockInv(c, s) && Steady(c) && s.lock.Punctual()
    ensures var due := Account(c, s) + if Misread(c, s, action) then 1 else 0;
            Account(c, Step(c, s, action)) <= due && (!action.Crash? ==> Account(c, Step(c, s, action)) == due)
  {
    if (action.Work? || action.FailRead?) && action.i < |s.phases| && c.migrates[action.i] && Working(s.phases[action.i]) {
      MigratorsAccount(c, s, action, action.i);
    } else {
      OthersAccount(c, s, action);
    }
  }

  lemma {:induction false} RunAccount(c: Config, s: State, actions: seq<Action>)
    requires Inv(c, s) && LockInv(c, s) && Steady(c) && PunctualThroughout(c, s, actions)
    ensures var due := Account(c, s) + Misreads(c, s, actions);
            && Account(c, Run(c, s, actions)) <= due
            && ((forall a | a in actions :: !a.Crash?) ==> Account(c, Run(c, s, actions)) == due)
    decreases |actions|
  {
    if actions != [] {
      var action, after := actions[0], Step(c, s, actions[0]);
      assert action in actions && forall a | a in actions[1..] :: a in actions;
      StepAccount(c, s, action);
      StepKeepsLockInv(c, s, action);
      forall j | 0 <= j < |s.phases| ensures PhaseInv(c, after, j) {
        StepKeepsPhaseInv(c, s, action, j);
      }
      RunAccount(c, after, actions[1..]);
    }
  }

  lemma StartAccount(c: Config, versions: seq<Version>, now: int)
    requires c.Valid() && |versions| == |c.heads|
    ensures var s := Start(c, versions, now);
            && Inv(c, s) && LockInv(c, s) && s.lock.Punctual()
            && Account(c, s) == if versions[c.Last()].None? then 1 else 0
  {
    Lock.StartHoldsInv(c.lock, now);
  }

  /** In every interleaving in which no holder outlives the lock, with failures anywhere and from any
      versions: the database is seeded at most once if its last schema was blank, and otherwise
      not at all, but for once per failed reading of a last schema that existed. */
  lemma SeededAtMostOnce(c: Config, versions: seq<Version>, now: int, actions: seq<Action>)
    requires c.Valid() && |versions| == |c.heads| && Steady(c)
    requires PunctualThroughout(c, Start(c, versions, now), actions)
    ensures var s := Start(c, versions, now);
            Run(c, s, actions).seeds <= (if versions[c.Last()].None? then 1 else 0) + Misreads(c, s, actions)
  {
    StartAccount(c, versions, now);
    RunAccount(c, Start(c, versions, now), actions);
  }

  /** If nothing else fails, that is exactly how often, once the last schema exists and nobody is about
      to seed. */
  lemma SeededExactly(c: Config, versions: seq<Version>, now: int, actions: seq<Action>)
    requires c.Valid() && |versions| == |c.heads| && Steady(c)
    requires PunctualThroughout(c, Start(c, versions, now), actions)
    requires forall a | a in actions :: !a.Crash?
    ensures var s := Start(c, versions, now);
            var end := Run(c, s, actions);
            end.versions[c.Last()].Some? && !SeedingPends(c, end) ==>
              end.seeds == (if versions[c.Last()].None? then 1 else 0) + Misreads(c, s, actions)
  {
    StartAccount(c, versions, now);
    RunAccount(c, Start(c, versions, now), actions);
  }

  /** From a blank last schema on: whoever is through has left a database that is seeded. */
  ghost predicate PassedSeeded(c: Config, s: State) {
    Shaped(c, s) && (Finished in s.phases || Checking(|c.heads|) in s.phases ==> 1 <= s.seeds)
  }

  lemma PassingSeeds(c: Config, s: State, action: Action)
    requires Inv(c, s) && LockInv(c, s) && PassedSeeded(c, s)
    requires 1 <= Account(c, s) && (forall j | 0 <= j < |c.migrates| :: c.migrates[j])
    ensures PassedSeeded(c, Step(c, s, action))
  {
    var after := Step(c, s, action);
    if i :| 0 <= i < |after.phases| && (after.phases[i] == Finished || after.phases[i] == Checking(|c.heads|)) {
      assert PhaseInv(c, s, i);
      if s.phases[i] != Finished && s.phases[i] != Checking(|c.heads|) {
        assert action == Work(i) && s.phases[i].Migrated? && s.phases[i].k == c.Last();
        OnlyOneSeeds(c, s, i);
      } else {
        assert s.phases[i] in s.phases;
      }
    }
  }

  lemma {:induction false} RunKeepsPassedSeeded(c: Config, s: State, actions: seq<Action>)
    requires Inv(c, s) && LockInv(c, s) && PunctualThroughout(c, s, actions) && PassedSeeded(c, s)
    requires 1 <= Account(c, s) && (forall j | 0 <= j < |c.migrates| :: c.migrates[j])
    requires forall a | a in actions :: !a.Crash?
    ensures PassedSeeded(c, Run(c, s, actions))
    decreases |actions|
  {
    if actions != [] {
      var action, after := actions[0], Step(c, s, actions[0]);
      assert action in actions && forall a | a in actions[1..] :: a in actions;
      StepAccount(c, s, action);
      StepKeepsLockInv(c, s, action);
      forall j | 0 <= j < |s.phases| ensures PhaseInv(c, after, j) {
        StepKeepsPhaseInv(c, s, action, j);
      }
      PassingSeeds(c, s, action);
      RunKeepsPassedSeeded(c, after, actions[1..]);
    }
  }

  /** If every instance migrates, nothing but readings fails and the database was blank: by the time any
      instance has finished, it has been seeded; and exactly once if and only if the last schema was
      never misread, save by an instance that is about to seed. */
  lemma SeededExactlyOnce(c: Config, now: int, actions: seq<Action>)
    requires c.Valid() && (forall j | 0 <= j < |c.migrates| :: c.migrates[j])
    requires PunctualThroughout(c, Start(c, Blank(c), now), actions)
    requires forall a | a in actions :: !a.Crash?
    ensures var s := Start(c, Blank(c), now);
            var end := Run(c, s, actions);
            Finished in end.phases ==>
              && 1 <= end.seeds
              && (end.seeds == 1 <==> Misreads(c, s, actions) == if SeedingPends(c, end) then 1 else 0)
  {
    var s := Start(c, Blank(c), now);
    StartAccount(c, Blank(c), now);
    RunAccount(c, s, actions);
    RunKeepsPassedSeeded(c, s, actions);
    FinishedAtHead(c, Blank(c), now, actions);
  }

  // --- runs that seed ---------------------------------------------------------------------------

  lemma {:induction false} RunSplits(c: Config, s: State, first: seq<Action>, second: seq<Action>)
    requires Shaped(c, s)
    ensures Run(c, s, first + second) == Run(c, Run(c, s, first), second)
    decreases |first|
  {
    if first == [] {
      assert first + second == second;
    } else {
      assert (first + second)[1..] == first[1..] + second;
      RunSplits(c, Step(c, s, first[0]), first[1..], second);
    }
  }

  lemma RunFirst(c: Config, s: State, action: Action, rest: seq<Action>)
    requires Shaped(c, s)
    ensures Run(c, s, [action] + rest) == Run(c, Step(c, s, action), rest)
  {
    assert ([action] + rest)[1..] == rest;
  }

  /** No time passes, and unless `blind`, no reading fails. */
  predicate Quick(actions: seq<Action>, blind: bool) {
    forall a | a in actions :: !(a.Locking? && a.action.Tick?) && (a.FailRead? ==> blind)
  }

  lemma {:induction false} QuickIsPunctual(c: Config, s: State, actions: seq<Action>)
    requires Shaped(c, s) && s.lock.Punctual() && forall a | a in actions :: !(a.Locking? && a.action.Tick?)
    ensures PunctualThroughout(c, s, actions)
    decreases |actions|
  {
    if actions != [] {
      assert actions[0] in actions && forall a | a in actions[1..] :: a in actions;
      var after := Step(c, s, actions[0]);
      forall i: nat | after.lock.Holds(i) ensures after.lock.server.now < after.lock.clients[i].deadline {
        assert s.lock.Holds(i) || (actions[0].Locking? && actions[0].action == Lock.TryAcquire(i));
      }
      QuickIsPunctual(c, after, actions[1..]);
    }
  }

  lemma {:induction false} NoFailedReads(c: Config, s: State, actions: seq<Action>)
    requires Shaped(c, s) && forall a | a in actions :: !a.FailRead?
    ensures Misreads(c, s, actions) == 0
    decreases |actions|
  {
    if actions != [] {
      assert actions[0] in actions && forall a | a in actions[1..] :: a in actions;
      NoFailedReads(c, Step(c, s, actions[0]), actions[1..]);
    }
  }

  function Reads(i: nat, blind: bool): Action {
    if blind then FailRead(i) else Work(i)
  }

  lemma {:induction false} WaitsOut(c: Config, s: State, i: nat, k: nat, version: Version, wait: int)
    returns (actions: seq<Action>)
    requires Shaped(c, s) && i < |s.phases| && !c.migrates[i] && s.phases[i] == Checked(k, version, wait)
    requires version != Some(c.heads[k]) && 0 <= wait && wait % 5 == 0
    ensures forall a | a in actions :: a == Work(i)
    ensures Run(c, s, actions) == s.(phases := s.phases[i := Migrated(k, version)])
    decreases wait
  {
    var after := Step(c, s, Work(i));
    var rest := [];
    if wait != 0 {
      rest := WaitsOut(c, after, i, k, version, wait - 5);
      assert after.phases[i := Migrated(k, version)] == s.phases[i := Migrated(k, version)];
    }
    RunFirst(c, s, Work(i), rest);
    actions := [Work(i)] + rest;
  }

  /** From having read the version of schema k to having dealt with it: at once if it is current or the instance
      migrates, and otherwise by waiting in vain. */
  lemma DealsWith(c: Config, s: State, i: nat, k: nat, version: Version) returns (actions: seq<Action>)
    requires Shaped(c, s) && MayWork(c, s, i) && s.phases[i] == Checked(k, version, c.maxtime)
    requires c.migrates[i] || version == Some(c.heads[k]) || c.maxtime % 5 == 0
    requires version == Some(c.heads[k]) ==> s.versions[k] == version
    ensures forall a | a in actions :: a == Work(i)
    ensures Run(c, s, actions) ==
            s.(phases := s.phases[i := Migrated(k, version)],
               versions := if c.migrates[i] then s.versions[k := Some(c.heads[k])] else s.versions)
  {
    if c.migrates[i] || version == Some(c.heads[k]) {
      RunFirst(c, s, Work(i), []);
      actions := [Work(i)] + [];
      assert s.versions[k] == Some(c.heads[k]) ==> s.versions[k := Some(c.heads[k])] == s.versions;
    } else {
      actions := WaitsOut(c, s, i, k, version, c.maxtime);
    }
  }

  function VersionFound(s: State, k: nat, blind: bool): Version
    requires k < |s.versions|
  {
    if blind then None else s.versions[k]
  }

  /** From reading the version of schema k to having dealt with it. */
  lemma ReadsAndDeals(c: Config, s: State, i: nat, k: nat, blind: bool) returns (actions: seq<Action>)
    requires Shaped(c, s) && MayWork(c, s, i) && s.phases[i] == Checking(k) && k < |c.heads|
    requires c.migrates[i] || VersionFound(s, k, blind) == Some(c.heads[k]) || c.maxtime % 5 == 0
    ensures forall a | a in actions :: a == Work(i) || (blind && a == FailRead(i))
    ensures Run(c, s, actions) ==
            s.(phases := s.phases[i := Migrated(k, VersionFound(s, k, blind))],
               versions := if c.migrates[i] then s.versions[k := Some(c.heads[k])] else s.versions)
  {
    var version, reading := VersionFound(s, k, blind), Reads(i, blind);
    var checked := Step(c, s, reading);
    assert checked == s.(phases := s.phases[i := Checked(k, version, c.maxtime)]);
    var deal := DealsWith(c, checked, i, k, version);
    assert checked.phases[i := Migrated(k, version)] == s.phases[i := Migrated(k, version)];
    RunFirst(c, s, reading, deal);
    actions := [reading] + deal;
  }

  /** Past schema k, from reading its version to turning to the next one. */
  lemma PassesOne(c: Config, s: State, i: nat, k: nat, blind: bool) returns (actions: seq<Action>)
    requires Shaped(c, s) && MayWork(c, s, i) && s.phases[i] == Checking(k) && k < |c.heads|
    requires c.migrates[i] || VersionFound(s, k, blind) == Some(c.heads[k]) || c.maxtime % 5 == 0
    ensures forall a | a in actions :: a == Work(i) || (blind && a == FailRead(i))
    ensures Run(c, s, actions) ==
            s.(phases := s.phases[i := Checking(k + 1)],
               versions := if c.migrates[i] then s.versions[k := Some(c.heads[k])] else s.versions,
               seeds := s.seeds + if k == c.Last() && VersionFound(s, k, blind).None? then 1 else 0)
  {
    var deal := ReadsAndDeals(c, s, i, k, blind);
    var migrated := Run(c, s, deal);
    var next := Step(c, migrated, Work(i));
    assert next.phases == s.phases[i := Checking(k + 1)];
    RunFirst(c, migrated, Work(i), []);
    RunSplits(c, s, deal, [Work(i)] + []);
    actions := deal + ([Work(i)] + []);
  }

  lemma Finishes(c: Config, s: State, i: nat)
    requires Shaped(c, s) && MayWork(c, s, i) && s.phases[i] == Checking(|c.heads|)
    ensures Run(c, s, [Work(i)] + []) == s.(phases := s.phases[i := Finished])
  {
    RunFirst(c, s, Work(i), []);
  }

  // What an instance does that does not migrate.

  lemma {:induction false} WaiterSeeds(c: Config, s: State, i: nat, k: nat, blind: bool)
    returns (actions: seq<Action>)
    requires Shaped(c, s) && i < |s.phases| && !c.migrates[i] && c.maxtime % 5 == 0
    requires k < |c.heads| && s.phases[i] == Checking(k) && (blind || s.versions == Blank(c))
    ensures Quick(actions, blind)
    ensures Run(c, s, actions) == s.(phases := s.phases[i := Finished], seeds := s.seeds + 1)
    decreases |c.heads| - k
  {
    var pass := PassesOne(c, s, i, k, blind);
    var next := Run(c, s, pass);
    var rest;
    if k == c.Last() {
      rest := [Work(i)] + [];
      Finishes(c, next, i);
    } else {
      rest := WaiterSeeds(c, next, i, k + 1, blind);
    }
    assert next.phases[i := Finished] == s.phases[i := Finished];
    RunSplits(c, s, pass, rest);
    actions := pass + rest;
  }

  // What a migrating instance does that is inside the lock.

  ghost predicate Inside(c: Config, s: State, i: nat) {
    Shaped(c, s) && i < |s.phases| && c.migrates[i] && s.lock.clients[i].Inside?
  }

  /** It brings the schemas below the last one to their heads. */
  lemma {:induction false} MigratorPasses(c: Config, s: State, i: nat, k: nat) returns (actions: seq<Action>)
    requires Inside(c, s, i) && s.phases[i] == Checking(k) && k <= c.Last()
    ensures Quick(actions, false)
    ensures var end := Run(c, s, actions);
            && end.lock == s.lock && end.seeds == s.seeds && end.versions[c.Last()] == s.versions[c.Last()]
            && end.phases == s.phases[i := Checking(c.Last())]
    decreases c.Last() - k
  {
    actions := [];
    if k < c.Last() {
      var pass := PassesOne(c, s, i, k, false);
      var next := Run(c, s, pass);
      var rest := MigratorPasses(c, next, i, k + 1);
      assert next.phases[i := Checking(c.Last())] == s.phases[i := Checking(c.Last())];
      RunSplits(c, s, pass, rest);
      actions := pass + rest;
    }
  }

  /** It has taken the last schema for blank, migrates it and seeds. */
  lemma MigratorSeeds(c: Config, s: State, i: nat, wait: int) returns (actions: seq<Action>)
    requires Inside(c, s, i) && s.phases[i] == Checked(c.Last(), None, wait)
    ensures Quick(actions, false)
    ensures var end := Run(c, s, actions);
            end.lock == s.lock && end.seeds == s.seeds + 1 && end.phases == s.phases[i := Finished]
  {
    var migrated := Step(c, s, Work(i));
    var seeded := Step(c, migrated, Work(i));
    var done := Step(c, seeded, Work(i));
    assert done.phases == s.phases[i := Finished];
    RunFirst(c, seeded, Work(i), []);
    RunFirst(c, migrated, Work(i), [Work(i)] + []);
    RunFirst(c, s, Work(i), [Work(i)] + ([Work(i)] + []));
    actions := [Work(i)] + ([Work(i)] + ([Work(i)] + []));
  }

  ghost predicate Free(c: Config, s: State) {
    Shaped(c, s) && !s.lock.server.Live(Lock.Key(c.lock.lockname))
  }

  /** Where instance i has taken the lock. */
  ghost function Acquired(c: Config, s: State, i: nat): State
    requires Shaped(c, s)
  {
    Step(c, s, Locking(Lock.TryAcquire(i)))
  }

  lemma Acquires(c: Config, s: State, i: nat)
    requires Free(c, s) && i < |s.phases| && c.migrates[i] && s.phases[i].Waiting? && s.lock.clients[i].Outside?
    ensures var after := Acquired(c, s, i);
            && Inside(c, after, i) && after == s.(lock := after.lock, phases := s.phases[i := Checking(0)])
            && after.lock.clients == s.lock.clients[i := Lock.Inside(s.lock.server.now + c.maxtime)]
            && after.lock.server == s.lock.server.SetNx(Lock.Key(c.lock.lockname), Redis.Text(c.lock.signatures[i]), Some(c.maxtime))
  {
    var lock := Lock.Step(c.lock, s.lock, Lock.TryAcquire(i));
    assert lock.clients[i] != s.lock.clients[i];
  }

  /** From taking the lock to having taken the last schema for blank. */
  lemma MigratorReadsLast(c: Config, s: State, i: nat, blind: bool) returns (actions: seq<Action>)
    requires Free(c, s) && i < |s.phases| && c.migrates[i] && s.phases[i].Waiting? && s.lock.clients[i].Outside?
    requires blind || s.versions[c.Last()].None?
    ensures Quick(actions, blind)
    ensures var end := Run(c, s, actions);
            && end.lock == Acquired(c, s, i).lock && end.seeds == s.seeds
            && end.versions[c.Last()] == s.versions[c.Last()]
            && end.phases == s.phases[i := Checked(c.Last(), None, c.maxtime)]
  {
    var acquire, begun := Locking(Lock.TryAcquire(i)), Acquired(c, s, i);
    Acquires(c, s, i);
    var pass := MigratorPasses(c, begun, i, 0);
    var there := Run(c, begun, pass);
    assert there.phases == s.phases[i := Checking(c.Last())];
    var read := Step(c, there, Reads(i, blind));
    assert read.phases == s.phases[i := Checked(c.Last(), None, c.maxtime)];
    RunFirst(c, there, Reads(i, blind), []);
    RunSplits(c, begun, pass, [Reads(i, blind)] + []);
    RunFirst(c, s, acquire, pass + ([Reads(i, blind)] + []));
    actions := [acquire] + (pass + ([Reads(i, blind)] + []));
  }

  lemma Releases(c: Config, s: State, i: nat) returns (actions: seq<Action>)
    requires Inside(c, s, i) && s.phases[i].Finished?
    requires s.lock.server.Get(Lock.Key(c.lock.lockname)) == Some(Redis.Text(c.lock.signatures[i]))
    ensures Quick(actions, false)
    ensures var end := Run(c, s, actions);
            && Free(c, end) && end == s.(lock := end.lock)
            && end.lock.clients == s.lock.clients[i := Lock.Outside]
  {
    var check, remove := Locking(Lock.CheckOwner(i)), Locking(Lock.Remove(i));
    var checked := Step(c, s, check);
    var removed := Step(c, checked, remove);
    RunFirst(c, checked, remove, []);
    RunFirst(c, s, check, [remove] + []);
    assert removed.lock.clients == s.lock.clients[i := Lock.Outside];
    actions := [check] + ([remove] + []);
  }

  lemma MigratorStarts(c: Config, s: State, i: nat, blind: bool) returns (actions: seq<Action>)
    requires Free(c, s) && i < |s.phases| && c.migrates[i] && s.phases[i].Waiting? && s.lock.clients[i].Outside?
    requires blind || s.versions[c.Last()].None?
    ensures Quick(actions, blind)
    ensures var end := Run(c, s, actions);
            && Free(c, end) && end.seeds == s.seeds + 1 && end.phases == s.phases[i := Finished]
            && end.lock.clients == s.lock.clients
  {
    Acquires(c, s, i);
    var first := MigratorReadsLast(c, s, i, blind);
    var read := Run(c, s, first);
    var second := MigratorSeeds(c, read, i, c.maxtime);
    var done := Run(c, read, second);
    var third := Releases(c, done, i);
    RunSplits(c, read, second, third);
    RunSplits(c, s, first, second + third);
    actions := first + (second + third);
    assert Run(c, s, actions).phases == s.phases[i := Finished];
    assert Run(c, s, actions).lock.clients == s.lock.clients;
  }

  /** Any capable instance still waiting to start gets to seed: a blank database, or one whose version
      it cannot read. */
  lemma AnyoneSeeds(c: Config, s: State, j: nat, blind: bool) returns (actions: seq<Action>)
    requires Free(c, s) && Capable(c, j) && s.phases[j].Waiting? && s.lock.clients[j].Outside?
    requires blind || s.versions == Blank(c)
    ensures Quick(actions, blind)
    ensures var end := Run(c, s, actions);
            && Free(c, end) && end.seeds == s.seeds + 1 && end.phases == s.phases[j := Finished]
            && end.lock.clients == s.lock.clients
            && (!c.migrates[j] ==> end.versions == s.versions)
  {
    if c.migrates[j] {
      actions := MigratorStarts(c, s, j, blind);
    } else {
      var begun := Step(c, s, Work(j));
      var rest := WaiterSeeds(c, begun, j, 0, blind);
      RunFirst(c, s, Work(j), rest);
      actions := [Work(j)] + rest;
      assert Run(c, s, actions).phases == s.phases[j := Finished];
    }
  }

  lemma StartIsFree(c: Config, versions: seq<Version>, now: int)
    requires c.Valid() && |versions| == |c.heads|
    ensures Free(c, Start(c, versions, now)) && Start(c, versions, now).lock.Punctual()
  {
    Lock.StartHoldsInv(c.lock, now);
  }

  // --- one instance alone -------------------------------------------------------------------------------

  /** Instance i is about to go through the schemas, under the conditions of one call of `schema_update`. */
  ghost predicate Begins(c: Config, s: State, i: nat, heads: seq<string>, versions: seq<Version>, migrate: bool, maxtime: int) {
    && Shaped(c, s) && MayWork(c, s, i) && s.phases[i] == Checking(0)
    && c.heads == heads && s.versions == versions && c.migrates[i] == migrate && c.maxtime == maxtime
  }

  /** From schema k on, an instance alone, whose readings fail where `world` says so: it brings the schemas to
      their heads if it migrates, and seeds exactly if it cannot read the last version or finds none. */
  lemma {:induction false} AloneFrom(c: Config, s: State, i: nat, k: nat, world: seq<Conditions>) returns (actions: seq<Action>)
    requires Shaped(c, s) && MayWork(c, s, i) && s.phases[i] == Checking(k) && |world| == |c.heads|
    requires c.migrates[i] || c.maxtime % 5 == 0 ||
             forall j | k <= j < |c.heads| :: FindsHead(c.heads, s.versions, world, j)
    ensures forall a | a in actions :: a == Work(i) || a == FailRead(i)
    ensures var end := Run(c, s, actions);
            && end.lock == s.lock && end.phases == s.phases[i := Finished]
            && (forall j | 0 <= j < |c.heads| ::
                  end.versions[j] == if c.migrates[i] && k <= j then Some(c.heads[j]) else s.versions[j])
            && end.seeds == s.seeds +
               if k <= c.Last() && (!world[c.Last()].readable || s.versions[c.Last()].None?) then 1 else 0
    decreases |c.heads| - k
  {
    if k == |c.heads| {
      Finishes(c, s, i);
      actions := [Work(i)] + [];
    } else {
      assert FindsHead(c.heads, s.versions, world, k) ==> VersionFound(s, k, !world[k].readable) == Some(c.heads[k]);
      var pass := PassesOne(c, s, i, k, !world[k].readable);
      var next := Run(c, s, pass);
      assert forall j | k < j < |c.heads| :: FindsHead(c.heads, s.versions, world, j) ==> FindsHead(c.heads, next.versions, world, j);
      var rest := AloneFrom(c, next, i, k + 1, world);
      assert next.phases[i := Finished] == s.phases[i := Finished];
      RunSplits(c, s, pass, rest);
      actions := pass + rest;
    }
  }

  ghost predicate LoneRun(c: Config, s: State, i: nat, versions': seq<Version>, seedings: int)
    requires Shaped(c, s) && i < |s.phases|
  {
    exists actions ::
      && (forall a | a in actions :: a == Work(i) || a == FailRead(i))
      && 0 <= s.seeds + seedings
      && Run(c, s, actions) == s.(phases := s.phases[i := Finished], versions := versions', seeds := s.seeds + seedings)
  }

  /** A call that changes the versions and adds so many seedings is a run of one instance alone, wherever
      among others it begins. */
  ghost predicate IsLoneRun(heads: seq<string>, migrate: bool, maxtime: int, versions: seq<Version>,
                            versions': seq<Version>, seedings: int) {
    forall c: Config, s: State, i: nat | Begins(c, s, i, heads, versions, migrate, maxtime) ::
      LoneRun(c, s, i, versions', seedings)
  }

  lemma AloneIsLoneRun(heads: seq<string>, migrate: bool, maxtime: int, world: seq<Conditions>, versions: seq<Version>,
                       versions': seq<Version>, seedings: int)
    requires heads != [] && |world| == |versions| == |versions'| == |heads|
    requires migrate || maxtime % 5 == 0 || forall j | 0 <= j < |heads| :: FindsHead(heads, versions, world, j)
    requires if migrate then AtHead(versions', heads) else versions' == versions
    requires seedings == if !world[|heads| - 1].readable || versions[|heads| - 1].None? then 1 else 0
    ensures IsLoneRun(heads, migrate, maxtime, versions, versions', seedings)
  {
    forall c: Config, s: State, i: nat | Begins(c, s, i, heads, versions, migrate, maxtime)
      ensures LoneRun(c, s, i, versions', seedings)
    {
      var actions := AloneFrom(c, s, i, 0, world);
      assert Run(c, s, actions).versions == versions';
      assert Run(c, s, actions) == s.(phases := s.phases[i := Finished], versions := versions', seeds := s.seeds + seedings);
    }
  }

  // --- the calls themselves -----------------------------------------------------------------------------

  class Database {
    const heads: seq<string>
    var versions: seq<Version>
    /** How many times the seed records have been added. */
    var seeds: nat

    ghost predicate Valid()
      reads this
    {
      |versions| == |heads| && heads != []
    }

    constructor (heads: seq<string>, versions: seq<Version>)
      requires |versions| == |heads| && heads != []
      ensures Valid() && this.heads == heads && this.versions == versions && seeds == 0
    {
      this.heads, this.versions, this.seeds := heads, versions, 0;
    }

    /** `version` is what the caller found for schema k. Connecting is tried every ten seconds;
        `reachable` tells which of the tries succeed. An instance that does not migrate waits in
        steps of five seconds without looking at the schema again, for ever if the waiting time
        is not a multiple of five. */
    method Migrate(k: nat, version: Version, migrate: bool, maxtime: int, reachable: seq<bool>)
      returns (outcome: Outcome)
      requires Valid() && k < |heads| && maxtime <= 10 * |reachable|
      modifies this`versions, this`seeds
      ensures Valid()
      ensures outcome.Done? ==>
                && versions == (if migrate && version != Some(heads[k]) then old(versions)[k := Some(heads[k])]
                                else old(versions))
                && seeds == old(seeds) + if version.None? && k == |heads| - 1 then 1 else 0
      ensures !outcome.Done? ==> versions == old(versions) && seeds == old(seeds)
      ensures outcome.Exited? <==> migrate && version != Some(heads[k]) && 10 * FirstTrue(reachable) >= maxtime
      ensures outcome.Hangs? <==> !migrate && version != Some(heads[k]) && (maxtime < 0 || maxtime % 5 != 0)
    {
      if version == Some(heads[k]) {
      } else if migrate {
        var connected, left, tries := false, maxtime, 0;
        while left > 0 && !connected
          invariant 0 <= tries <= |reachable| && left == maxtime - 10 * tries
          invariant tries <= FirstTrue(reachable)
          invariant connected ==> left > 0 && tries == FirstTrue(reachable)
          decreases left, !connected
        {
          if reachable[tries] {
            connected := true;
          } else {
            left, tries := left - 10, tries + 1;
          }
        }
        if !connected {
          return Exited;
        }
        versions := versions[k := Some(heads[k])];
      } else if maxtime < 0 || maxtime % 5 != 0 {
        return Hangs;
      } else {
        var wait := maxtime;
        while wait != 0
          invariant 0 <= wait && wait % 5 == 0
        {
          wait := wait - 5;
        }
      }
      if version.None? && k == |heads| - 1 {
        seeds := seeds + 1;
      }
      return Done;
    }

    /** What one call does, alone: whether it comes to an end, what it leaves, and that it seeds if and only
        if the last schema's version cannot be read or is none. */
    method Update(migrate: bool, maxtime: int, world: seq<Conditions>) returns (outcome: Outcome)
      requires Valid() && |world| == |heads|
      requires forall k | 0 <= k < |world| :: maxtime <= 10 * |world[k].reachable|
      modifies this`versions, this`seeds
      ensures Valid()
      ensures outcome.Exited? <==>
              && maxtime != 0 && migrate
              && exists k :: 0 <= k < |heads| && !FindsHead(heads, old(versions), world, k) &&
                             10 * FirstTrue(world[k].reachable) >= maxtime
      ensures outcome.Hangs? <==>
              && maxtime != 0 && !migrate && (maxtime < 0 || maxtime % 5 != 0)
              && exists k :: 0 <= k < |heads| && !FindsHead(heads, old(versions), world, k)
      ensures maxtime == 0 ==> versions == old(versions) && seeds == old(seeds)
      ensures maxtime != 0 && outcome.Done? ==>
                && (if migrate then AtHead(versions, heads) else versions == old(versions))
                && seeds == old(seeds) + if !world[|heads| - 1].readable || old(versions)[|heads| - 1].None? then 1 else 0
      ensures 0 < maxtime && outcome.Done? ==>
                IsLoneRun(heads, migrate, maxtime, old(versions), versions, seeds - old(seeds))
      ensures !outcome.Done? ==> seeds == old(seeds)
    {
      for k := 0 to |heads|
        invariant Valid()
        invariant maxtime == 0 || !migrate ==> versions == old(versions)
        invariant maxtime != 0 && migrate ==> forall j | 0 <= j < k :: versions[j] == Some(heads[j])
        invariant maxtime != 0 ==> forall j | 0 <= j < k && !FindsHead(heads, old(versions), world, j) ::
                    if migrate then 10 * FirstTrue(world[j].reachable) < maxtime else 0 <= maxtime && maxtime % 5 == 0
        invariant versions[k..] == old(versions)[k..]
        invariant seeds == old(seeds) +
                           if maxtime != 0 && k == |heads| && (!world[k - 1].readable || old(versions)[k - 1].None?) then 1 else 0
      {
        assert versions[k] == versions[k..][0] == old(versions)[k];
        var version := if world[k].readable then versions[k] else None;
        assert version == Some(heads[k]) <==> FindsHead(heads, old(versions), world, k);
        if maxtime != 0 {
          outcome := Migrate(k, version, migrate, maxtime, world[k].reachable);
          if !outcome.Done? {
            return;
          }
        }
        assert old(versions)[k + 1..] == old(versions)[k..][1..];
      }
      if 0 < maxtime {
        AloneIsLoneRun(heads, migrate, maxtime, world, old(versions), versions, seeds - old(seeds));
      }
      return Done;
    }
  }

  // --- what it takes for the database to be seeded once -----------------------------------------------

  ghost predicate OneCapable(c: Config) {
    forall i: nat, j: nat | Capable(c, i) && Capable(c, j) :: i == j
  }

  /** An instance that is through with the last schema, or has failed. */
  predicate Past(c: Config, phase: Phase) {
    phase == Checking(|c.heads|) || phase.Finished? || phase.Failed?
  }

  /** An incapable instance is stuck before any schema that is not current. */
  predicate Stuck(c: Config, phase: Phase) {
    match phase
    case Checked(k, version, wait) => (k < |c.heads| && version == Some(c.heads[k])) || wait % 5 != 0
    case Migrated(_, version) => version.Some?
    case _ => true
  }

  /** The capable ones seed once each. */
  ghost predicate FewSeed(c: Config, s: State) {
    && Shaped(c, s)
    && (forall j | 0 <= j < |s.phases| && !Capable(c, j) :: Stuck(c, s.phases[j]))
    && s.seeds <= 1
    && (s.seeds == 1 ==> exists i: nat :: Capable(c, i) && Past(c, s.phases[i]))
  }

  lemma StepKeepsStuck(c: Config, s: State, action: Action, j: nat)
    requires Shaped(c, s) && j < |s.phases| && !Capable(c, j) && Stuck(c, s.phases[j])
    ensures Stuck(c, Step(c, s, action).phases[j])
  {
  }

  lemma StepFewSeed(c: Config, s: State, action: Action)
    requires FewSeed(c, s) && OneCapable(c)
    ensures FewSeed(c, Step(c, s, action))
  {
    var after := Step(c, s, action);
    forall j | 0 <= j < |s.phases| && !Capable(c, j) ensures Stuck(c, after.phases[j]) {
      StepKeepsStuck(c, s, action, j);
    }
    if s.seeds == 1 {
      var i: nat :| Capable(c, i) && Past(c, s.phases[i]);
      assert Capable(c, i) && Past(c, after.phases[i]);
    } else if after.seeds == 1 {
      assert Capable(c, action.i) && Past(c, after.phases[action.i]);
    }
  }

  lemma {:induction false} CapableOnesSeed(c: Config, s: State, actions: seq<Action>)
    requires FewSeed(c, s) && OneCapable(c)
    ensures FewSeed(c, Run(c, s, actions))
    decreases |actions|
  {
    if actions != [] {
      StepFewSeed(c, s, actions[0]);
      CapableOnesSeed(c, Step(c, s, actions[0]), actions[1..]);
    }
  }

  /** Where no holder outlives the lock, a database with all schemas at their heads is never seeded if and
      only if no instance is capable: one failed reading of a capable one that starts again seeds it. */
  lemma CurrentStaysExactlyWhen(c: Config, versions: seq<Version>, now: int)
    requires c.Valid() && AtHead(versions, c.heads)
    ensures (forall actions | PunctualThroughout(c, Start(c, versions, now), actions) ::
               Run(c, Start(c, versions, now), actions).seeds == 0)
            <==> forall i: nat :: !Capable(c, i)
  {
    var s := Start(c, versions, now);
    StartIsFree(c, versions, now);
    if i: nat :| Capable(c, i) {
      var actions := AnyoneSeeds(c, s, i, true);
      QuickIsPunctual(c, s, actions);
      assert Run(c, s, actions).seeds == 1;
    } else {
      forall actions ensures Run(c, s, actions).seeds == 0 {
        CapableOnesSeed(c, s, actions);
      }
    }
  }

  /** The runs that count: those in which no holder outlives the lock, if `punctual`, and in which no
      reading of an existing last schema fails, if `readable`. */
  ghost predicate Granted(c: Config, s: State, actions: seq<Action>, punctual: bool, readable: bool)
    requires Shaped(c, s)
  {
    (punctual ==> PunctualThroughout(c, s, actions)) && (readable ==> Misreads(c, s, actions) == 0)
  }

  /** Two capable instances, the first of which need not migrate or the second of which reads blindly. */
  lemma OneAfterAnother(c: Config, now: int, i: nat, j: nat, blind: bool) returns (actions: seq<Action>)
    requires c.Valid() && Capable(c, i) && Capable(c, j) && i != j && (blind || !c.migrates[i])
    ensures var s := Start(c, Blank(c), now);
            && Run(c, s, actions).seeds == 2 && PunctualThroughout(c, s, actions)
            && (!blind ==> Misreads(c, s, actions) == 0)
  {
    var s := Start(c, Blank(c), now);
    StartIsFree(c, Blank(c), now);
    var one := AnyoneSeeds(c, s, i, blind);
    var between := Run(c, s, one);
    var two := AnyoneSeeds(c, between, j, blind);
    RunSplits(c, s, one, two);
    actions := one + two;
    QuickIsPunctual(c, s, actions);
    if !blind {
      NoFailedReads(c, s, actions);
    }
  }

  /** The first instance outlives its lock between its reading and its migration of the last schema. */
  lemma OneBesideAnother(c: Config, now: int, i: nat, j: nat) returns (actions: seq<Action>)
    requires c.Valid() && i < |c.migrates| && j < |c.migrates| && c.migrates[i] && c.migrates[j] && i != j
    ensures var s := Start(c, Blank(c), now);
            Run(c, s, actions).seeds == 2 && Misreads(c, s, actions) == 0
  {
    var s, tick := Start(c, Blank(c), now), Locking(Lock.Tick(c.maxtime));
    StartIsFree(c, Blank(c), now);
    Acquires(c, s, i);
    var first := MigratorReadsLast(c, s, i, false);
    var read := Run(c, s, first);
    var late := Step(c, read, tick);
    Acquires(c, late, j);
    var second := MigratorReadsLast(c, late, j, false);
    var both := Run(c, late, second);
    var third := MigratorSeeds(c, both, j, c.maxtime);
    var seeded := Run(c, both, third);
    var fourth := MigratorSeeds(c, seeded, i, c.maxtime);
    RunSplits(c, both, third, fourth);
    RunSplits(c, late, second, third + fourth);
    RunFirst(c, read, tick, second + (third + fourth));
    RunSplits(c, s, first, [tick] + (second + (third + fourth)));
    actions := first + ([tick] + (second + (third + fourth)));
    NoFailedReads(c, s, actions);
  }

  /** On a blank database, seeding at most once is guaranteed in all interleavings, failures included,
      if and only if at most one instance is capable, or: no holder outlives the lock, no reading
      of a last schema that exists fails, and only migrating instances are capable. */
  lemma SeededOnceExactlyWhen(c: Config, now: int, punctual: bool, readable: bool)
    requires c.Valid()
    ensures (forall actions | Granted(c, Start(c, Blank(c), now), actions, punctual, readable) ::
               Run(c, Start(c, Blank(c), now), actions).seeds <= 1)
            <==> OneCapable(c) || (punctual && readable && Steady(c))
  {
    var s := Start(c, Blank(c), now);
    if OneCapable(c) {
      forall actions ensures Run(c, s, actions).seeds <= 1 {
        CapableOnesSeed(c, s, actions);
      }
    } else if punctual && readable && Steady(c) {
      forall actions | Granted(c, s, actions, punctual, readable) ensures Run(c, s, actions).seeds <= 1 {
        SeededAtMostOnce(c, Blank(c), now, actions);
      }
    } else {
      var i: nat, j: nat :| Capable(c, i) && Capable(c, j) && i != j;
      var actions;
      if !readable {
        actions := OneAfterAnother(c, now, i, j, true);
      } else if !Steady(c) {
        var w: nat :| Capable(c, w) && !c.migrates[w];
        actions := OneAfterAnother(c, now, w, if w == i then j else i, false);
      } else {
        actions := OneBesideAnother(c, now, i, j);
      }
      assert Granted(c, s, actions, punctual, readable) && Run(c, s, actions).seeds == 2;
    }
  }

  /** That whoever finishes leaves all schemas at their heads is guaranteed if and only if only
      migrating instances are capable. */
  lemma AtHeadExactlyWhen(c: Config, now: int)
    requires c.Valid()
    ensures (forall actions ::
               var end := Run(c, Start(c, Blank(c), now), actions);
               Finished in end.phases ==> AtHead(end.versions, c.heads))
            <==> Steady(c)
  {
    var s := Start(c, Blank(c), now);
    if Steady(c) {
      forall actions
        ensures var end := Run(c, s, actions); Finished in end.phases ==> AtHead(end.versions, c.heads)
      {
        FinishedAtHead(c, Blank(c), now, actions);
      }
    } else {
      var w: nat :| Capable(c, w) && !c.migrates[w];
      StartIsFree(c, Blank(c), now);
      var actions := AnyoneSeeds(c, s, w, false);
      var end := Run(c, s, actions);
      assert end.phases[w] == Finished && end.versions[0].None?;
    }
  }
}
