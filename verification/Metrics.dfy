/** Usage grants: `Metrics.store` and `Metrics.check` for metrics of style "grant".

    The first use seeds a counter that expires after the metric's period; each later use
    counts it down; a counter at zero refuses until it expires. */
module Metrics {
  import opened Wrappers
  import opened Redis
  import opened Schedules
  import opened Texts

  datatype Period = Hour | Day | Week | Month | Indefinite

  datatype Scope = User | Instance | Sitewide

  /** `notify` is a percentage; 0 switches the usage notice off. */
  datatype Metric = Metric(scope: Scope, period: Period, notify: int)

  function Seconds(period: Period): Option<int> {
    match period
    case Hour => Some(3600)
    case Day => Some(3600 * 24)
    case Week => Some(3600 * 24 * 7)
    case Month => Some(3600 * 24 * 31)
    case Indefinite => None
  }

  datatype Decision = Seed | Refuse | CountDown

  /** What a store does, given the counter it has read. */
  function Decide(current: Option<int>, limit: int): Decision {
    if current.None? || current.value >= limit then Seed
    else if current.value <= 0 then Refuse
    else CountDown
  }

  /** Whether counting down from `current` sends the usage notice: the used share of the
      grant crosses the threshold with this very step. */
  predicate Crosses(current: int, limit: int, notify: int)
    requires 0 < limit
  {
    var used := current as real / limit as real * 100.0;
    var usedNext := (current as real - 1.0) / limit as real * 100.0;
    notify != 0 && used >= (100 - notify) as real && usedNext < (100 - notify) as real
  }

  function UserLabel(uid: string): string {
    if uid == "" then "" else "uid=" + uid
  }

  function Key(name: string, tag: string): string {
    "mtr:" + name + ":" + tag
  }

  /** The label a store without explicit labels is counted under. */
  function StoreLabel(metric: Metric, uid: string, instance: string): string {
    if metric.scope.Instance? then "instance=" + instance else UserLabel(uid)
  }

  /** A counter key holds a number whenever it holds anything. */
  predicate Countable(store: Store, key: string) {
    key in store.data ==> store.data[key].value.Num?
  }

  function Counter(store: Store, key: string): (current: Option<int>)
    requires Countable(store, key)
  {
    if store.Live(key) then Some(store.data[key].value.n) else None
  }

  /** The server after one store, as a function of the server before it. */
  function Stored(store: Store, key: string, limit: int, period: Option<int>): (after: Store)
    requires Countable(store, key)
  {
    match Decide(Counter(store, key), limit)
    case Seed => store.Set(key, Num(limit - 1), period)
    case Refuse => store
    case CountDown => store.IncrBy(key, -1)
  }

  predicate Accepts(store: Store, key: string, limit: int)
    requires Countable(store, key)
  {
    !Decide(Counter(store, key), limit).Refuse?
  }

  predicate Notifies(store: Store, key: string, limit: int, notify: int)
    requires Countable(store, key)
  {
    var current := Counter(store, key);
    Decide(current, limit).CountDown? && Crosses(current.value, limit, notify)
  }

  datatype Error = NotDefined

  function Credit(store: Store, key: string, limit: int): Option<int>
    requires Countable(store, key)
  {
    var current := Counter(store, key);
    if current.None? || current.value >= limit then Some(limit)
    else if current.value > 0 then current
    else None
  }

  class Recorder {
    const connection: Server
    const metrics: map<string, Metric>
    const uid: string
    const instance: string
    /** False when no function for sending messages has been configured. */
    const sender: bool
    /** Names of the metrics whose usage notice has been sent, in order. */
    var sent: seq<string>

    constructor (connection: Server, metrics: map<string, Metric>, uid: string, instance: string, sender: bool)
      ensures this.connection == connection && this.metrics == metrics && this.uid == uid
      ensures this.instance == instance && this.sender == sender && sent == []
    {
      this.connection, this.metrics, this.uid := connection, metrics, uid;
      this.instance, this.sender, this.sent := instance, sender, [];
    }

    /** `limit` is what the user's grants allow for this metric. */
    method Store(name: string, limit: int) returns (result: Result<bool, Error>)
      requires name in metrics ==>
                 Countable(connection.store, Key(name, StoreLabel(metrics[name], uid, instance)))
      modifies connection, this`sent
      ensures name !in metrics ==>
                result == Err(NotDefined) && connection.store == old(connection.store) && sent == old(sent)
      ensures name in metrics ==>
                var metric, before := metrics[name], old(connection.store);
                var key := Key(name, StoreLabel(metric, uid, instance));
                && result == Ok(Accepts(before, key, limit))
                && connection.store == Stored(before, key, limit, Seconds(metric.period))
                && sent == old(sent) + if sender && Notifies(before, key, limit, metric.notify) then [name] else []
    {
      if name !in metrics {
        return Err(NotDefined);
      }
      var metric := metrics[name];
      var key := Key(name, StoreLabel(metric, uid, instance));
      var current := connection.Get(key);
      if current.None? || current.value.n >= limit {
        connection.Set(key, Num(limit - 1), Seconds(metric.period));
      } else if current.value.n <= 0 {
        return Ok(false);
      } else {
        if sender && Crosses(current.value.n, limit, metric.notify) {
          sent := sent + [name];
        }
        connection.IncrBy(key, -1);
      }
      return Ok(true);
    }

    /** The credit that remains, or None when the grant is used up. */
    method Check(name: string, limit: int) returns (result: Result<Option<int>, Error>)
      requires Countable(connection.store, Key(name, UserLabel(uid)))
      ensures name !in metrics ==> result == Err(NotDefined)
      ensures name in metrics ==> result == Ok(Credit(connection.store, Key(name, UserLabel(uid)), limit))
    {
      if name !in metrics {
        return Err(NotDefined);
      }
      var current := connection.Get(Key(name, UserLabel(uid)));
      if current.None? || current.value.n >= limit {
        return Ok(Some(limit));
      } else if current.value.n > 0 {
        return Ok(Some(current.value.n));
      }
      return Ok(None);
    }
  }

  // --- check against store -------------------------------------------------------------

  lemma KeysDifferByLabel(name: string, tag: string, other: string)
    ensures Key(name, tag) == Key(name, other) <==> tag == other
  {
    var prefix := "mtr:" + name + ":";
    assert Key(name, tag)[|prefix|..] == tag && Key(name, other)[|prefix|..] == other;
  }

  /** A check reports credit exactly when the next store would be accepted, whatever the
      server holds, if and only if the metric is not counted per instance: `check` always
      looks at the user's counter, `store` at the instance's. */
  lemma {:induction false} CheckForeseesStore(name: string, metric: Metric, uid: string, instance: string)
    ensures (forall store: Store, limit: int |
               Countable(store, Key(name, UserLabel(uid))) &&
               Countable(store, Key(name, StoreLabel(metric, uid, instance))) ::
               Credit(store, Key(name, UserLabel(uid)), limit).Some? <==>
               Accepts(store, Key(name, StoreLabel(metric, uid, instance)), limit))
            <==> !metric.scope.Instance?
  {
    if metric.scope.Instance? {
      var checked, counted := Key(name, UserLabel(uid)), Key(name, "instance=" + instance);
      assert ("instance=" + instance)[0] == 'i';
      assert uid != "" ==> UserLabel(uid)[0] == 'u';
      KeysDifferByLabel(name, UserLabel(uid), "instance=" + instance);
      var usedUp := Store(map[counted := Entry(Num(0), None)], 0);
      assert Credit(usedUp, checked, 1).Some? && !Accepts(usedUp, counted, 1);
    }
  }

  // --- whose counter it is ---------------------------------------------------------------------

  /** Two keys are the same exactly if metric and label are, or a colon within a metric's name is
      taken for the one before the label. */
  lemma KeysShared(name: string, tag: string, name': string, tag': string)
    ensures Key(name, tag) == Key(name', tag') <==>
            || (name == name' && tag == tag')
            || (exists p :: name' == name + [':'] + p && tag == p + [':'] + tag')
            || (exists p :: name == name' + [':'] + p && tag' == p + [':'] + tag)
  {
    var pair, pair' := name + [':'] + tag, name' + [':'] + tag';
    assert Key(name, tag) == "mtr:" + pair && Key(name', tag') == "mtr:" + pair';
    assert Key(name, tag)[4..] == pair && Key(name', tag')[4..] == pair';
    SameJoined(name, tag, name', tag', ':');
  }

  /** Whether two recorders count two metrics by the same thing: the same instance, or the same user. */
  predicate Shares(name: string, metric: Metric, uid: string, instance: string,
                   name': string, metric': Metric, uid': string, instance': string) {
    && name == name'
    && (metric.scope.Instance? <==> metric'.scope.Instance?)
    && (if metric.scope.Instance? then instance == instance' else uid == uid')
  }

  lemma LabelsDiffer(uid: string, uid': string, instance: string, instance': string)
    ensures UserLabel(uid) == UserLabel(uid') <==> uid == uid'
    ensures "instance=" + instance == "instance=" + instance' <==> instance == instance'
    ensures UserLabel(uid) != "instance=" + instance
  {
    assert uid != "" ==> UserLabel(uid)[4..] == uid && UserLabel(uid)[0] == 'u';
    assert uid' != "" ==> UserLabel(uid')[4..] == uid';
    assert ("instance=" + instance)[9..] == instance && ("instance=" + instance')[9..] == instance';
    assert ("instance=" + instance)[0] == 'i';
  }

  /** For names without a colon, two counters are one exactly if the recorders share it. */
  lemma CountersShared(name: string, metric: Metric, uid: string, instance: string,
                       name': string, metric': Metric, uid': string, instance': string)
    requires ':' !in name && ':' !in name'
    ensures Key(name, StoreLabel(metric, uid, instance)) == Key(name', StoreLabel(metric', uid', instance')) <==>
            Shares(name, metric, uid, instance, name', metric', uid', instance')
  {
    KeysShared(name, StoreLabel(metric, uid, instance), name', StoreLabel(metric', uid', instance'));
    assert forall p :: ':' in name + [':'] + p && ':' in name' + [':'] + p;
    LabelsDiffer(uid, uid', instance, instance');
    LabelsDiffer(uid', uid, instance', instance);
  }

  /** A store under one key is nothing to any other key. */
  lemma OtherCountersStay(store: Store, key: string, limit: int, period: Option<int>, other: string, limit': int)
    requires Countable(store, key) && Countable(store, other) && key != other
    ensures var after := Stored(store, key, limit, period);
            && Countable(after, other) && Counter(after, other) == Counter(store, other)
            && Accepts(after, other, limit') == Accepts(store, other, limit')
            && Credit(after, other, limit') == Credit(store, other, limit')
            && forall notify :: Notifies(after, other, limit', notify) == Notifies(store, other, limit', notify)
  {
  }

  /** A store under one key changes nothing about what is answered about another one. */
  predicate Unaffected(store: Store, key: string, limit: int, period: Option<int>, other: string, limit': int)
    requires Countable(store, key) && Countable(store, other)
  {
    var after := Stored(store, key, limit, period);
    && Countable(after, other) && Accepts(after, other, limit') == Accepts(store, other, limit')
    && Credit(after, other, limit') == Credit(store, other, limit')
  }

  /** Whatever the server holds and the limits are, the stores of one recorder change nothing about what
      another one is answered, if and only if they do not share the counter. */
  lemma IndependentExactlyWhen(name: string, metric: Metric, uid: string, instance: string,
                               name': string, metric': Metric, uid': string, instance': string)
    requires ':' !in name && ':' !in name'
    ensures var key, other := Key(name, StoreLabel(metric, uid, instance)), Key(name', StoreLabel(metric', uid', instance'));
            (forall store: Store, limit: int, limit': int | Countable(store, key) && Countable(store, other) ::
               Unaffected(store, key, limit, Seconds(metric.period), other, limit'))
            <==> !Shares(name, metric, uid, instance, name', metric', uid', instance')
  {
    var key, other := Key(name, StoreLabel(metric, uid, instance)), Key(name', StoreLabel(metric', uid', instance'));
    var period := Seconds(metric.period);
    CountersShared(name, metric, uid, instance, name', metric', uid', instance');
    if key != other {
      forall store: Store, limit: int, limit': int | Countable(store, key) && Countable(store, other)
        ensures Unaffected(store, key, limit, period, other, limit')
      {
        OtherCountersStay(store, key, limit, period, other, limit');
      }
    } else {
      var one := Store(map[key := Entry(Num(1), None)], 0);
      assert Countable(one, key) && !Unaffected(one, key, 2, period, key, 2);
    }
  }

  /** A counter that a store seeds lasts from that instant for an hour, a day, seven days, thirty-one days,
      or for ever. */
  lemma SeededFor(store: Store, key: string, limit: int, period: Period, time: int)
    requires Countable(store, key) && Decide(Counter(store, key), limit).Seed? && store.now <= time
    ensures var hour, passed := 60 * 60, time - store.now;
            Stored(store, key, limit, Seconds(period)).At(time).Live(key) <==>
            match period
            case Hour => passed < hour
            case Day => passed < 24 * hour
            case Week => passed < 7 * 24 * hour
            case Month => passed < 31 * 24 * hour
            case Indefinite => true
  {
  }

  // --- one lifetime of a counter ---------------------------------------------------------

  function Max(a: int, b: int): int {
    if a < b then b else a
  }

  function Min(a: int, b: int): int {
    if a < b then a else b
  }

  /** How many of the stores made at `times` are accepted at an instant in [from, until). */
  function AcceptedIn(store: Store, key: string, limit: int, period: Option<int>, times: seq<int>,
                      from: int, until: int): nat
    requires Countable(store, key)
    decreases |times|
  {
    if times == [] then 0
    else
      var here := store.At(times[0]);
      (if Accepts(here, key, limit) && from <= times[0] < until then 1 else 0) +
      AcceptedIn(Stored(here, key, limit, period), key, limit, period, times[1..], from, until)
  }

  /** The server after the stores made at `times`. */
  function After(store: Store, key: string, limit: int, period: Option<int>, times: seq<int>): (after: Store)
    requires Countable(store, key)
    ensures Countable(after, key)
    decreases |times|
  {
    if times == [] then store
    else After(Stored(store.At(times[0]), key, limit, period), key, limit, period, times[1..])
  }

  /** How many usage notices the stores made at `times` send. */
  function Notices(store: Store, key: string, limit: int, period: Option<int>, notify: int, times: seq<int>): nat
    requires Countable(store, key)
    decreases |times|
  {
    if times == [] then 0
    else
      var here := store.At(times[0]);
      (if Notifies(here, key, limit, notify) then 1 else 0) +
      Notices(Stored(here, key, limit, period), key, limit, period, notify, times[1..])
  }

  /** Every instant of `times` comes before the counter under `key` expires. */
  predicate Within(store: Store, key: string, times: seq<int>) {
    && key in store.data
    && (store.data[key].expiry.Some? ==> forall t | t in times :: t < store.data[key].expiry.value)
  }

  /** `times` lies within [from, until). */
  predicate Between(times: seq<int>, from: int, until: int) {
    forall t | t in times :: from <= t < until
  }

  /** Counting down from `value`: the stores that find the counter positive are accepted,
      no other ones are, and what was accepted is what the counter lost. */
  lemma {:induction false} CountsDown(store: Store, key: string, limit: int, period: Option<int>, times: seq<int>,
                                      from: int, until: int)
    requires Countable(store, key) && Within(store, key, times) && store.data[key].value.n < limit
    requires Between(times, from, until)
    ensures var value := store.data[key].value.n;
            var accepted := AcceptedIn(store, key, limit, period, times, from, until);
            var after := After(store, key, limit, period, times);
            && accepted == Min(|times|, Max(value, 0))
            && key in after.data && after.data[key] == Entry(Num(value - accepted), store.data[key].expiry)
    decreases |times|
  {
    if times != [] {
      var next := Stored(store.At(times[0]), key, limit, period);
      assert times[0] in times;
      assert forall t | t in times[1..] :: t in times;
      CountsDown(next, key, limit, period, times[1..], from, until);
    }
  }

  /** A lifetime: it starts with a store that finds no counter, and lasts for one period. */
  ghost predicate Lifetime(store: Store, key: string, period: Option<int>, times: seq<int>) {
    && Countable(store, key) && times != []
    && !store.At(times[0]).Live(key)
    && (period.Some? ==> Between(times, times[0], times[0] + period.value))
  }

  /** From a store that seeds on, before the counter expires. */
  lemma SeedingConserves(store: Store, key: string, limit: int, period: Option<int>,
                         times: seq<int>, from: int, until: int)
    requires Countable(store, key) && times != [] && Between(times, from, until)
    requires Decide(Counter(store.At(times[0]), key), limit).Seed?
    requires period.Some? ==> Between(times, times[0], times[0] + period.value)
    ensures var accepted := AcceptedIn(store, key, limit, period, times, from, until);
            var after := After(store, key, limit, period, times);
            && accepted == Min(|times|, Max(limit, 1))
            && key in after.data && after.data[key].value == Num(limit - accepted)
  {
    assert times[0] in times;
    var next := Stored(store.At(times[0]), key, limit, period);
    assert forall t | t in times[1..] :: t in times;
    CountsDown(next, key, limit, period, times[1..], from, until);
  }

  /** Within one lifetime, what has been accepted and what remains always add up to the limit,
      and as many stores are accepted as the limit allows: one of them even when the limit is
      zero or negative, because the first use seeds the counter without looking at the limit. */
  lemma LifetimeConserves(store: Store, key: string, limit: int, period: Option<int>,
                          times: seq<int>, from: int, until: int)
    requires Lifetime(store, key, period, times) && Between(times, from, until)
    ensures var accepted := AcceptedIn(store, key, limit, period, times, from, until);
            var after := After(store, key, limit, period, times);
            && accepted == Min(|times|, Max(limit, 1))
            && key in after.data && after.data[key].value == Num(limit - accepted)
  {
    SeedingConserves(store, key, limit, period, times, from, until);
  }

  /** Stores made at one instant. */
  lemma AcceptedOnTheSpot(store: Store, key: string, limit: int, period: Option<int>, times: seq<int>)
    requires Countable(store, key) && 1 <= limit && (period.Some? ==> 0 < period.value)
    requires Between(times, store.now, store.now + 1)
    ensures AcceptedIn(store, key, limit, period, times, store.now, store.now + 1) ==
            Min(|times|, if Decide(Counter(store, key), limit).Seed? then limit else Max(store.data[key].value.n, 0))
  {
    if !Decide(Counter(store, key), limit).Seed? {
      CountsDown(store, key, limit, period, times, store.now, store.now + 1);
    } else if times != [] {
      assert times[0] in times;
      SeedingConserves(store, key, limit, period, times, store.now, store.now + 1);
    }
  }

  /** What a check reports is how many stores would be accepted on the spot, none standing for nothing. */
  lemma CreditExactly(store: Store, key: string, limit: int, period: Option<int>, count: nat)
    requires Countable(store, key) && 1 <= limit && (period.Some? ==> 0 < period.value)
    ensures var credit := Credit(store, key, limit);
            && (credit.Some? ==> 0 < credit.value)
            && AcceptedIn(store, key, limit, period, Repeat(store.now, count), store.now, store.now + 1) ==
               Min(count, if credit.Some? then credit.value else 0)
  {
    AcceptedOnTheSpot(store, key, limit, period, Repeat(store.now, count));
  }

  // --- any window of one period ----------------------------------------------------------

  /** A counter that stores with this limit and period can have left behind. */
  predicate Plausible(store: Store, key: string, limit: int) {
    key in store.data ==>
      && store.data[key].value.Num? && store.data[key].value.n < limit
      && store.data[key].expiry.Some?
  }

  /** The most that a window of one period accepts: a counter seeded before it can only reach into it if
      the period is longer than one second. */
  function WindowMost(limit: int, period: int): int {
    if period == 1 then Max(limit, 1) else 2 * Max(limit, 1) - 1
  }

  /** What can still be accepted in [from, until) by stores made from `now` on. */
  function Allowance(store: Store, key: string, limit: int, period: int, from: int, until: int): int
    requires Plausible(store, key, limit)
  {
    var full := Max(limit, 1);
    if until <= store.now then 0
    else if !store.Live(key) then (if from <= store.now then full else WindowMost(limit, period))
    else
      var value, expiry := Max(store.data[key].value.n, 0), store.data[key].expiry.value;
      if until <= expiry then value else if from < expiry then value + full else WindowMost(limit, period)
  }

  /** A store uses up what it is accepted for. */
  lemma StoreUsesAllowance(store: Store, key: string, limit: int, period: int, from: int, until: int)
    requires Plausible(store, key, limit) && 0 < period && until <= from + period
    ensures Plausible(Stored(store, key, limit, Some(period)), key, limit)
    ensures (if Accepts(store, key, limit) && from <= store.now < until then 1 else 0) +
            Allowance(Stored(store, key, limit, Some(period)), key, limit, period, from, until)
            <= Allowance(store, key, limit, period, from, until)
  {
  }

  lemma WaitingKeepsAllowance(store: Store, key: string, limit: int, period: int, now: int, from: int, until: int)
    requires Plausible(store, key, limit) && 0 < period && store.now <= now
    ensures Allowance(store.At(now), key, limit, period, from, until) <= Allowance(store, key, limit, period, from, until)
  {
  }

  lemma {:induction false} AllowanceHolds(store: Store, key: string, limit: int, period: int, times: seq<int>,
                                          from: int, until: int)
    requires Plausible(store, key, limit) && 0 < period && until <= from + period
    requires Sorted([store.now] + times)
    ensures AcceptedIn(store, key, limit, Some(period), times, from, until) <=
            Allowance(store, key, limit, period, from, until)
    decreases |times|
  {
    if times != [] {
      var here := store.At(times[0]);
      var next := Stored(here, key, limit, Some(period));
      assert ([store.now] + times)[0] == store.now && ([store.now] + times)[1] == times[0];
      assert ([store.now] + times)[1..] == [next.now] + times[1..];
      WaitingKeepsAllowance(store, key, limit, period, times[0], from, until);
      StoreUsesAllowance(here, key, limit, period, from, until);
      AllowanceHolds(next, key, limit, period, times[1..], from, until);
    }
  }

  /** Over any run, no window as long as the period holds two limits' worth of accepted stores, and
      with a period of one second it holds at most one. */
  lemma WindowBound(store: Store, key: string, limit: int, period: int, times: seq<int>, from: int)
    requires key !in store.data && 0 < period && Sorted(times)
    ensures AcceptedIn(store, key, limit, Some(period), times, from, from + period) <= WindowMost(limit, period)
  {
    if times != [] {
      assert forall i, j | 0 <= i < j < |[times[0]] + times| :: ([times[0]] + times)[i] <= ([times[0]] + times)[j];
      AllowanceHolds(store.At(times[0]), key, limit, period, times, from, from + period);
      assert store.At(times[0]).At(times[0]) == store.At(times[0]);
    }
  }

  lemma {:induction false} AcceptedInSplits(store: Store, key: string, limit: int, period: Option<int>,
                                            first: seq<int>, second: seq<int>, from: int, until: int)
    requires Countable(store, key)
    ensures AcceptedIn(store, key, limit, period, first + second, from, until) ==
            AcceptedIn(store, key, limit, period, first, from, until) +
            AcceptedIn(After(store, key, limit, period, first), key, limit, period, second, from, until)
    decreases |first|
  {
    if first == [] {
      assert first + second == second;
    } else {
      assert (first + second)[1..] == first[1..] + second;
      AcceptedInSplits(Stored(store.At(first[0]), key, limit, period), key, limit, period, first[1..], second, from, until);
    }
  }

  /** Accepted in a window of one period, by a server that starts without a counter. */
  function InWindow(key: string, limit: int, period: int, times: seq<int>, from: int): nat {
    AcceptedIn(Store(map[], 0), key, limit, Some(period), times, from, from + period)
  }

  lemma SpendAgain(store: Store, key: string, limit: nat, period: int)
    requires 1 <= limit && 2 <= period && key in store.data
    requires store.data[key] == Entry(Num(limit - 1), Some(period))
    ensures AcceptedIn(store, key, limit, Some(period), Repeat(1, limit - 1) + Repeat(period, limit), 1, 1 + period)
            == 2 * limit - 1
  {
    var rest, again := Repeat(1, limit - 1), Repeat(period, limit);
    var spent := After(store, key, limit, Some(period), rest);
    CountsDown(store, key, limit, Some(period), rest, 1, 1 + period);
    assert again[0] in again;
    LifetimeConserves(spent, key, limit, Some(period), again, 1, 1 + period);
    AcceptedInSplits(store, key, limit, Some(period), rest, again, 1, 1 + period);
  }

  /** Seed just before the window, spend the rest of that counter when the window opens and the
      whole of the next one just before it closes. */
  lemma TwoCounters(key: string, limit: nat, period: int) returns (times: seq<int>)
    requires 1 <= limit && 2 <= period
    ensures Sorted(times) && InWindow(key, limit, period, times, 1) == 2 * limit - 1
  {
    var rest := Repeat(1, limit - 1) + Repeat(period, limit);
    SpendAgain(Stored(Store(map[], 0).At(0), key, limit, Some(period)), key, limit, period);
    times := [0] + rest;
    assert times[1..] == rest;
    TwoBursts(1, limit - 1, period, limit);
  }

  lemma OneCounter(key: string, limit: int, period: int) returns (times: seq<int>)
    requires 0 < period
    ensures Sorted(times) && InWindow(key, limit, period, times, 1) == Max(limit, 1)
  {
    times := Repeat(1, Max(limit, 1));
    LifetimeConserves(Store(map[], 0), key, limit, Some(period), times, 1, 1 + period);
  }

  /** The window bound is sharp, for every limit and every period. */
  lemma WindowBoundIsSharp(key: string, limit: int, period: int)
    requires 0 < period
    ensures exists times, from :: Sorted(times) && InWindow(key, limit, period, times, from) == WindowMost(limit, period)
  {
    var times;
    if period == 1 || limit <= 1 {
      times := OneCounter(key, limit, period);
    } else {
      times := TwoCounters(key, limit, period);
    }
    assert Sorted(times) && InWindow(key, limit, period, times, 1) == WindowMost(limit, period);
  }

  /** Every window as long as the period stays within the limit, over every run, if and only if the limit is
      one or the period is one second. */
  lemma WithinLimitExactlyWhen(key: string, limit: int, period: int)
    requires 0 < period && 1 <= limit
    ensures (forall times, from | Sorted(times) :: InWindow(key, limit, period, times, from) <= limit)
            <==> limit == 1 || period == 1
  {
    if limit == 1 || period == 1 {
      forall times, from | Sorted(times) ensures InWindow(key, limit, period, times, from) <= limit {
        WindowBound(Store(map[], 0), key, limit, period, times, from);
      }
    } else {
      WindowBoundIsSharp(key, limit, period);
    }
  }

  // --- the usage notice ------------------------------------------------------------------

  lemma ScaledLess(a: real, b: real, scale: real)
    requires 0.0 < scale
    ensures a < b <==> a * scale < b * scale
  {
    assert a < b ==> 0.0 < (b - a) * scale;
    assert a > b ==> 0.0 < (a - b) * scale;
    assert a >= b ==> 0.0 <= (a - b) * scale;
  }

  lemma Unscale(part: real, whole: real, percent: real)
    requires 0.0 < whole
    ensures part / whole * 100.0 < percent <==> part * 100.0 < percent * whole
  {
    assert part / whole * whole == part;
    assert part / whole * 100.0 * whole == part * 100.0;
    ScaledLess(part / whole * 100.0, percent, whole);
  }

  /** The threshold without division. */
  lemma CrossesExactly(current: int, limit: int, notify: int)
    requires 0 < limit
    ensures Crosses(current, limit, notify) <==>
            notify != 0 && 100 * (current - 1) < (100 - notify) * limit <= 100 * current
  {
    var c, l, n := current as real, limit as real, (100 - notify) as real;
    Unscale(c, l, n);
    Unscale(c - 1.0, l, n);
    assert n * l == ((100 - notify) * limit) as real;
    assert c * 100.0 == (100 * current) as real;
    assert (c - 1.0) * 100.0 == (100 * (current - 1)) as real;
  }

  /** Counting down from `value` sends one notice if the threshold lies among the values that
      are counted down, and none otherwise. */
  lemma {:induction false} NoticesCountingDown(store: Store, key: string, limit: int, period: Option<int>,
                                               notify: int, times: seq<int>)
    requires Countable(store, key) && Within(store, key, times)
    requires 0 <= store.data[key].value.n < limit
    ensures var value := store.data[key].value.n;
            var threshold := (100 - notify) * limit;
            Notices(store, key, limit, period, notify, times) ==
            if notify != 0 && 100 * Max(value - |times|, 0) < threshold <= 100 * value then 1 else 0
    decreases |times|
  {
    if times != [] {
      var next := Stored(store.At(times[0]), key, limit, period);
      assert times[0] in times;
      assert forall t | t in times[1..] :: t in times;
      CrossesExactly(store.data[key].value.n, limit, notify);
      NoticesCountingDown(next, key, limit, period, notify, times[1..]);
    }
  }

  lemma ThresholdReached(limit: int, notify: int)
    requires 0 < limit
    ensures 0 < (100 - notify) * limit <==> notify < 100
    ensures (100 - notify) * limit <= 100 * (limit - 1) <==> 100 <= notify * limit
    ensures notify == 0 ==> notify * limit == 0
  {
    assert (100 - notify) * limit == 100 * limit - notify * limit;
    if notify < 100 {
      assert limit <= (100 - notify) * limit;
    } else {
      assert (100 - notify) * limit <= 0;
    }
  }

  /** Within one lifetime at most one usage notice is sent, and exactly one by the time the
      grant is used up if and only if 100/limit <= notify < 100. */
  lemma NoticeOnce(store: Store, key: string, limit: int, period: Option<int>, notify: int, times: seq<int>)
    requires Lifetime(store, key, period, times) && 0 < limit
    ensures Notices(store, key, limit, period, notify, times) <= 1
    ensures limit <= |times| ==>
              (Notices(store, key, limit, period, notify, times) == 1 <==> 100 <= notify * limit && notify < 100)
  {
    assert times[0] in times;
    var next := Stored(store.At(times[0]), key, limit, period);
    assert forall t | t in times[1..] :: t in times;
    NoticesCountingDown(next, key, limit, period, notify, times[1..]);
    ThresholdReached(limit, notify);
  }

  // --- a counter that expires between its reading and its count-down -----------------------

  lemma {:induction false} StuckStays(store: Store, key: string, limit: int, period: Option<int>, times: seq<int>,
                                      from: int, until: int)
    requires key in store.data && store.data[key].value.Num? && store.data[key].value.n <= 0
    requires store.data[key].expiry.None? && 0 < limit
    ensures AcceptedIn(store, key, limit, period, times, from, until) == 0
    decreases |times|
  {
    if times != [] {
      StuckStays(store.At(times[0]), key, limit, period, times[1..], from, until);
    }
  }

  /** A count-down that reaches the server after the counter has expired leaves a negative
      counter that never expires: from then on every store is refused, at every instant. */
  lemma LateCountDownLocksOut(store: Store, key: string, limit: int, period: Option<int>,
                              times: seq<int>, from: int, until: int)
    requires Countable(store, key) && !store.Live(key) && 0 < limit
    ensures AcceptedIn(store.IncrBy(key, -1), key, limit, period, times, from, until) == 0
  {
    StuckStays(store.IncrBy(key, -1), key, limit, period, times, from, until);
  }

  /** After a count-down all stores are refused for ever, whenever they are made, if and only if it found
      no live counter, or used up one that is meant never to expire. */
  lemma LocksOutExactlyWhen(store: Store, key: string, limit: int, period: Option<int>)
    requires Countable(store, key) && 0 < limit
    ensures (forall times, from, until ::
               AcceptedIn(store.IncrBy(key, -1), key, limit, period, times, from, until) == 0)
            <==> !store.Live(key) || (store.data[key].expiry.None? && store.data[key].value.n <= 1)
  {
    var after := store.IncrBy(key, -1);
    if !store.Live(key) || (store.data[key].expiry.None? && store.data[key].value.n <= 1) {
      forall times, from, until ensures AcceptedIn(after, key, limit, period, times, from, until) == 0 {
        StuckStays(after, key, limit, period, times, from, until);
      }
    } else {
      var expiry := store.data[key].expiry;
      var time := if expiry.Some? then expiry.value else store.now;
      assert Accepts(after.At(time), key, limit);
      assert AcceptedIn(after, key, limit, period, [time], time, time + 1) == 1;
    }
  }
}
