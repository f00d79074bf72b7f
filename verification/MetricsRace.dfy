/** `Metrics.store` as several worker processes run it at once: one step reads the counter,
    a later step writes what that reading called for. One counter is shared, its key does not
    expire during the run, and the limit stays the same. */
module MetricsRace {
  import opened Wrappers
  import opened Metrics
  import Redis

  datatype Worker = Idle | Seeding | CountingDown

  /** `current` counts the stores accepted since the counter was last seeded, the seeding one
      included; `total` counts all of them. */
  datatype State = State(counter: Option<int>, workers: seq<Worker>, current: nat, total: nat)

  datatype Action = Look(worker: nat) | Write(worker: nat)

  /** An action that is not enabled changes nothing. */
  function Step(s: State, limit: int, action: Action): State {
    match action
    case Look(w) =>
      if w < |s.workers| && s.workers[w].Idle? then
        match Decide(s.counter, limit)
        case Seed => s.(workers := s.workers[w := Seeding])
        case Refuse => s
        case CountDown => s.(workers := s.workers[w := CountingDown])
      else s
    case Write(w) =>
      if w < |s.workers| && s.workers[w].Seeding? then
        State(Some(limit - 1), s.workers[w := Idle], 1, s.total + 1)
      else if w < |s.workers| && s.workers[w].CountingDown? && s.counter.Some? then
        State(Some(s.counter.value - 1), s.workers[w := Idle], s.current + 1, s.total + 1)
      else s
  }

  function Run(s: State, limit: int, actions: seq<Action>): State
    decreases |actions|
  {
    if actions == [] then s else Run(Step(s, limit, actions[0]), limit, actions[1..])
  }

  function Start(n: nat): State {
    State(None, seq(n, _ => Idle), 0, 0)
  }

  function Count(workers: seq<Worker>, kind: Worker): nat {
    if workers == [] then 0
    else (if workers[|workers| - 1] == kind then 1 else 0) + Count(workers[..|workers| - 1], kind)
  }

  lemma {:induction false} CountUpdate(workers: seq<Worker>, w: nat, next: Worker, kind: Worker)
    requires w < |workers|
    ensures Count(workers[w := next], kind) ==
            Count(workers, kind) - (if workers[w] == kind then 1 else 0) + (if next == kind then 1 else 0)
  {
    var last := |workers| - 1;
    if w == last {
      assert workers[w := next][..last] == workers[..last];
    } else {
      assert workers[w := next][..last] == workers[..last][w := next];
      CountUpdate(workers[..last], w, next, kind);
    }
  }

  lemma {:induction false} CountDisjoint(workers: seq<Worker>)
    ensures Count(workers, Seeding) + Count(workers, CountingDown) + Count(workers, Idle) == |workers|
  {
    if workers != [] {
      CountDisjoint(workers[..|workers| - 1]);
    }
  }

  lemma {:induction false} CountAllIdle(n: nat, kind: Worker)
    requires !kind.Idle?
    ensures Count(seq(n, _ => Idle), kind) == 0
  {
    if n != 0 {
      assert seq(n, _ => Idle)[..n - 1] == seq(n - 1, _ => Idle);
      CountAllIdle(n - 1, kind);
    }
  }

  /** What k seedings, each made with one more worker free to race than the one before,
      can lead to. */
  function Budget(limit: int, k: nat): int {
    if k == 0 then 0 else Budget(limit, k - 1) + limit + k - 1
  }

  lemma {:induction false} BudgetClosedForm(limit: int, k: nat)
    ensures 2 * Budget(limit, k) == k * (2 * limit + k - 1)
  {
    if k != 0 {
      BudgetClosedForm(limit, k - 1);
    }
  }

  lemma {:induction false} BudgetGrows(limit: int, j: nat, k: nat)
    requires j <= k && 1 <= limit
    ensures 0 <= Budget(limit, j) <= Budget(limit, k)
    decreases k
  {
    if j < k {
      BudgetGrows(limit, j, k - 1);
    } else if j != 0 {
      BudgetGrows(limit, j - 1, k - 1);
    }
  }

  /** What every step keeps. A worker still waiting to seed is not free to race: the counter
      less the count-downs under way never falls below one minus the number of free workers. */
  ghost predicate Inv(s: State, limit: int) {
    var seeders, downs := Count(s.workers, Seeding), Count(s.workers, CountingDown);
    var free := |s.workers| - seeders;
    match s.counter
    case None => downs == 0 && s.total == 0 && s.current == 0
    case Some(c) =>
      && c < limit
      && s.current == limit - c
      && c - downs >= 1 - free
      && 0 < free
      && s.total <= Budget(limit, free - 1) + s.current
  }

  lemma SeedKeepsInv(s: State, limit: int, w: nat)
    requires Inv(s, limit) && 1 <= limit && w < |s.workers| && s.workers[w].Seeding?
    ensures Inv(Step(s, limit, Write(w)), limit)
  {
    CountUpdate(s.workers, w, Idle, Seeding);
    CountUpdate(s.workers, w, Idle, CountingDown);
    CountDisjoint(s.workers);
    CountDisjoint(s.workers[w := Idle]);
    BudgetGrows(limit, 0, |s.workers| - Count(s.workers, Seeding));
  }

  lemma CountDownKeepsInv(s: State, limit: int, w: nat)
    requires Inv(s, limit) && 1 <= limit && w < |s.workers| && s.workers[w].CountingDown? && s.counter.Some?
    ensures Inv(Step(s, limit, Write(w)), limit)
  {
    CountUpdate(s.workers, w, Idle, Seeding);
    CountUpdate(s.workers, w, Idle, CountingDown);
  }

  lemma LookKeepsInv(s: State, limit: int, w: nat)
    requires Inv(s, limit) && 1 <= limit && w < |s.workers| && s.workers[w].Idle?
    ensures Inv(Step(s, limit, Look(w)), limit)
  {
    var next := Step(s, limit, Look(w)).workers[w];
    CountUpdate(s.workers, w, next, Seeding);
    CountUpdate(s.workers, w, next, CountingDown);
    CountUpdate(s.workers, w, next, Idle);
    CountDisjoint(s.workers);
  }

  lemma StepKeepsInv(s: State, limit: int, action: Action)
    requires Inv(s, limit) && 1 <= limit
    ensures Inv(Step(s, limit, action), limit) && |Step(s, limit, action).workers| == |s.workers|
  {
    if Step(s, limit, action) != s {
      match action
      case Look(w) => LookKeepsInv(s, limit, w);
      case Write(w) =>
        if s.workers[w].Seeding? { SeedKeepsInv(s, limit, w); } else { CountDownKeepsInv(s, limit, w); }
    }
  }

  lemma {:induction false} RunKeepsInv(s: State, limit: int, actions: seq<Action>)
    requires Inv(s, limit) && 1 <= limit
    ensures Inv(Run(s, limit, actions), limit) && |Run(s, limit, actions).workers| == |s.workers|
    decreases |actions|
  {
    if actions != [] {
      StepKeepsInv(s, limit, actions[0]);
      RunKeepsInv(Step(s, limit, actions[0]), limit, actions[1..]);
    }
  }

  lemma InvBounds(s: State, limit: int)
    requires Inv(s, limit) && 1 <= limit && s.workers != []
    ensures s.current <= limit + |s.workers| - 1
    ensures s.total <= Budget(limit, |s.workers|)
  {
    var n := |s.workers|;
    CountDisjoint(s.workers);
    BudgetGrows(limit, 0, n);
    if s.counter.Some? {
      BudgetGrows(limit, n - Count(s.workers, Seeding), n);
    }
  }

  /** In every interleaving of n workers, at most limit + n - 1 stores are accepted between one
      seeding and the next, and at most n * limit + n * (n - 1) / 2 in all. */
  lemma RaceBound(n: nat, limit: int, actions: seq<Action>)
    requires 1 <= limit && 1 <= n
    ensures var s := Run(Start(n), limit, actions);
            && s.current <= limit + n - 1
            && 2 * s.total <= n * (2 * limit + n - 1)
  {
    CountAllIdle(n, Seeding);
    CountAllIdle(n, CountingDown);
    RunKeepsInv(Start(n), limit, actions);
    InvBounds(Run(Start(n), limit, actions), limit);
    BudgetClosedForm(limit, n);
  }

  /** A reading followed at once by its write is the store of the sequential recorder. */
  lemma BackToBackIsStore(s: State, limit: int, w: nat, store: Redis.Store, key: string)
    requires w < |s.workers| && s.workers[w].Idle?
    requires Countable(store, key) && s.counter == Counter(store, key)
    ensures var after := Run(s, limit, [Look(w), Write(w)]);
            && after.counter == Counter(Stored(store, key, limit, None), key)
            && after.workers == s.workers
            && after.total == s.total + if Accepts(store, key, limit) then 1 else 0
  {
    var looked := Step(s, limit, Look(w));
    assert Run(s, limit, [Look(w), Write(w)]) == Run(looked, limit, [Write(w)]) by {
      assert [Look(w), Write(w)][1..] == [Write(w)];
    }
    assert Run(looked, limit, [Write(w)]) == Step(looked, limit, Write(w));
    assert Step(looked, limit, Write(w)).workers == s.workers;
  }

  // --- a run that reaches the bound ---------------------------------------------------------

  lemma {:induction false} RunSplits(s: State, limit: int, first: seq<Action>, second: seq<Action>)
    ensures Run(s, limit, first + second) == Run(Run(s, limit, first), limit, second)
    decreases |first|
  {
    if first == [] {
      assert first + second == second;
    } else {
      assert (first + second)[1..] == first[1..] + second;
      RunSplits(Step(s, limit, first[0]), limit, first[1..], second);
    }
  }

  /** Workers below i are in state a, those from i up to j in state b, the others in state c. */
  function Band(n: nat, i: nat, j: nat, a: Worker, b: Worker, c: Worker): seq<Worker> {
    seq(n, x => if x < i then a else if x < j then b else c)
  }

  lemma {:induction false} LookAll(n: nat, i: nat, j: nat, limit: int, counter: Option<int>, next: Worker,
                                   others: Worker, current: nat, total: nat)
    returns (actions: seq<Action>)
    requires i <= j <= n
    requires next == match Decide(counter, limit) case Seed => Seeding case Refuse => Idle case CountDown => CountingDown
    ensures Run(State(counter, Band(n, i, j, next, Idle, others), current, total), limit, actions)
            == State(counter, Band(n, j, j, next, Idle, others), current, total)
    decreases j - i
  {
    actions := [];
    if i < j {
      var s := State(counter, Band(n, i, j, next, Idle, others), current, total);
      assert Step(s, limit, Look(i)).workers == Band(n, i + 1, j, next, Idle, others);
      var rest := LookAll(n, i + 1, j, limit, counter, next, others, current, total);
      actions := [Look(i)] + rest;
    }
  }

  lemma {:induction false} WriteAll(n: nat, i: nat, j: nat, limit: int, c: int, current: nat, total: nat)
    returns (actions: seq<Action>)
    requires i <= j <= n
    ensures Run(State(Some(c), Band(n, i, j, Idle, CountingDown, Seeding), current, total), limit, actions)
            == State(Some(c - (j - i)), Band(n, j, j, Idle, CountingDown, Seeding), current + (j - i), total + (j - i))
    decreases j - i
  {
    actions := [];
    if i < j {
      var s := State(Some(c), Band(n, i, j, Idle, CountingDown, Seeding), current, total);
      assert Step(s, limit, Write(i)).workers == Band(n, i + 1, j, Idle, CountingDown, Seeding);
      var rest := WriteAll(n, i + 1, j, limit, c - 1, current + 1, total + 1);
      actions := [Write(i)] + rest;
    }
  }

  /** Worker 0 alone counts down from c to 1. */
  lemma {:induction false} Spend(workers: seq<Worker>, limit: int, c: int, current: nat, total: nat)
    returns (actions: seq<Action>)
    requires 1 <= c < limit && workers != [] && workers[0].Idle?
    ensures Run(State(Some(c), workers, current, total), limit, actions)
            == State(Some(1), workers, current + (c - 1), total + (c - 1))
    decreases c
  {
    actions := [];
    if 1 < c {
      var s := State(Some(c), workers, current, total);
      var looked := Step(s, limit, Look(0));
      assert Step(looked, limit, Write(0)).workers == workers;
      var rest := Spend(workers, limit, c - 1, current + 1, total + 1);
      actions := [Look(0), Write(0)] + rest;
      assert Run(s, limit, actions) == Run(looked, limit, [Write(0)] + rest) by {
        assert actions[1..] == [Write(0)] + rest;
      }
      assert ([Write(0)] + rest)[1..] == rest;
    }
  }

  function Overdrawn(j: int): Option<int> {
    Some(1 - j)
  }

  /** Workers 0 to j - 1 all read a counter of 1 before any of them counts it down. */
  lemma {:induction false} RaceForLast(n: nat, j: nat, limit: int, current: nat, total: nat)
    returns (actions: seq<Action>)
    requires j <= n && 2 <= limit
    ensures Run(State(Some(1), Band(n, j, j, Idle, Idle, Seeding), current, total), limit, actions)
            == State(Overdrawn(j), Band(n, j, j, Idle, Idle, Seeding), current + j, total + j)
  {
    var free := Band(n, j, j, Idle, Idle, Seeding);
    assert free == Band(n, 0, j, CountingDown, Idle, Seeding);
    var look := LookAll(n, 0, j, limit, Some(1), CountingDown, Seeding, current, total);
    assert Band(n, j, j, CountingDown, Idle, Seeding) == Band(n, 0, j, Idle, CountingDown, Seeding);
    var write := WriteAll(n, 0, j, limit, 1, current, total);
    assert Band(n, j, j, Idle, CountingDown, Seeding) == free;
    RunSplits(State(Some(1), free, current, total), limit, look, write);
    actions := look + write;
  }

  /** One seeding by worker j, after which workers 0 to j race for the last unit. */
  lemma {:induction false} Round(n: nat, j: nat, limit: int, counter: Option<int>, current: nat, total: nat)
    returns (actions: seq<Action>)
    requires j < n && 2 <= limit
    ensures Run(State(counter, Band(n, j, j, Idle, Idle, Seeding), current, total), limit, actions)
            == State(Overdrawn(j + 1), Band(n, j + 1, j + 1, Idle, Idle, Seeding), limit + j, total + limit + j)
  {
    var s := State(counter, Band(n, j, j, Idle, Idle, Seeding), current, total);
    var free := Band(n, j + 1, j + 1, Idle, Idle, Seeding);
    var seeded := State(Some(limit - 1), free, 1, total + 1);
    assert Step(s, limit, Write(j)) == seeded by { assert s.workers[j := Idle] == free; }
    var spend := Spend(free, limit, limit - 1, 1, total + 1);
    var race := RaceForLast(n, j + 1, limit, limit - 1, total + limit - 1);
    RunSplits(seeded, limit, spend, race);
    actions := [Write(j)] + (spend + race);
    assert actions[1..] == spend + race;
  }

  lemma {:induction false} Rounds(n: nat, j: nat, limit: int, counter: Option<int>, current: nat)
    returns (actions: seq<Action>)
    requires j <= n && 2 <= limit && 0 <= Budget(limit, j)
    ensures Run(State(counter, Band(n, j, j, Idle, Idle, Seeding), current, Budget(limit, j)), limit, actions).total
            == Budget(limit, n)
    decreases n - j
  {
    actions := [];
    if j < n {
      var s := State(counter, Band(n, j, j, Idle, Idle, Seeding), current, Budget(limit, j));
      var round := Round(n, j, limit, counter, current, Budget(limit, j));
      var rest := Rounds(n, j + 1, limit, Overdrawn(j + 1), limit + j);
      RunSplits(s, limit, round, rest);
      actions := round + rest;
    }
  }

  /** The bound on all accepted stores is sharp for every number of workers and every limit
      of at least two. */
  lemma RaceBoundIsSharp(n: nat, limit: int)
    requires 1 <= n && 2 <= limit
    ensures exists actions :: 2 * Run(Start(n), limit, actions).total == n * (2 * limit + n - 1)
  {
    var look := LookAll(n, 0, n, limit, None, Seeding, Idle, 0, 0);
    assert Start(n).workers == Band(n, 0, n, Seeding, Idle, Idle);
    assert Band(n, n, n, Seeding, Idle, Idle) == Band(n, 0, 0, Idle, Idle, Seeding);
    var rounds := Rounds(n, 0, limit, None, 0);
    RunSplits(Start(n), limit, look, rounds);
    BudgetClosedForm(limit, n);
    assert 2 * Run(Start(n), limit, look + rounds).total == n * (2 * limit + n - 1);
  }
}
