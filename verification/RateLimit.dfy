/** `RateLimit.call`: two counters per service and user, one for the even and one for the odd
    intervals since the epoch. A call increments the counter of its own interval, lets it live
    for one second less than an interval, and deletes the other one. */
module RateLimit {
  import opened Wrappers
  import opened Redis
  import opened Schedules
  import opened Arithmetic
  import opened Texts

  function Interval(time: int, interval: int): int
    requires 0 < interval
  {
    time / interval
  }

  function Parity(time: int, interval: int): int
    requires 0 < interval
  {
    time % (interval * 2) / interval
  }

  function Key(service: string, uid: string, parity: int): string {
    "rate:" + service + ":" + uid + ":" + if parity == 0 then "0" else "1"
  }

  function CurrentKey(service: string, uid: string, time: int, interval: int): string
    requires 0 < interval
  {
    Key(service, uid, Parity(time, interval))
  }

  function OtherKey(service: string, uid: string, time: int, interval: int): string
    requires 0 < interval
  {
    Key(service, uid, if Parity(time, interval) == 0 then 1 else 0)
  }

  /** `Crash`: with a limit of zero and no counter, the call converts nothing to a number. */
  datatype Verdict = Pass | Exceeded | Crash

  function Judge(calls: Option<int>, limit: int): Verdict {
    match calls
    case None => if limit != 0 then Pass else Crash
    case Some(n) => if n < limit then Pass else Exceeded
  }

  predicate Countable(store: Store, service: string, uid: string) {
    forall parity | 0 <= parity < 2 :: Key(service, uid, parity) in store.data ==>
                                         store.data[Key(service, uid, parity)].value.Num?
  }

  function Calls(store: Store, key: string): Option<int> {
    if store.Live(key) && store.data[key].value.Num? then Some(store.data[key].value.n) else None
  }

  /** The pipeline of an accepted call, applied as one step. */
  function Called(store: Store, service: string, uid: string, limit: int, interval: int): Store
    requires 0 < interval
  {
    var key := CurrentKey(service, uid, store.now, interval);
    if Judge(Calls(store, key), limit).Pass? then
      store.IncrBy(key, 1).Expire(key, interval - 1).Delete(OtherKey(service, uid, store.now, interval))
    else store
  }

  lemma ParityIsBinary(time: int, interval: int)
    requires 0 < interval
    ensures 0 <= Parity(time, interval) <= 1
  {
    Scale(2, Parity(time, interval), interval);
  }

  class RateLimiter {
    const redis: Server
    const enable: bool
    const interval: int

    constructor (redis: Server, enable: bool, interval: int)
      requires 0 < interval
      ensures this.redis == redis && this.enable == enable && this.interval == interval
    {
      this.redis, this.enable, this.interval := redis, enable, interval;
    }

    /** `limit` is the caller's limit or, when that is missing or zero, the user's grant. */
    method Call(limit: int, service: string, uid: string) returns (verdict: Verdict)
      requires 0 < interval && Countable(redis.store, service, uid)
      modifies redis
      ensures !enable || uid == "" ==> verdict == Pass && redis.store == old(redis.store)
      ensures enable && uid != "" ==>
                && verdict == Judge(Calls(old(redis.store), CurrentKey(service, uid, old(redis.store).now, interval)), limit)
                && redis.store == Called(old(redis.store), service, uid, limit, interval)
    {
      if !enable || uid == "" {
        return Pass;
      }
      var curr := redis.store.now % (interval * 2) / interval;
      ParityIsBinary(redis.store.now, interval);
      var key, altkey := Key(service, uid, curr), Key(service, uid, if curr == 0 then 1 else 0);
      var calls := redis.Get(key);
      if limit != 0 && calls.None? {
        verdict := Pass;
      } else if calls.None? {
        return Crash;
      } else {
        verdict := if calls.value.n < limit then Pass else Exceeded;
      }
      if verdict.Pass? {
        redis.IncrBy(key, 1);
        redis.Expire(key, interval - 1);
        var _ := redis.Delete(altkey);
      }
    }

    method Reset(service: string, uid: string)
      modifies redis
      ensures redis.store == old(redis.store).Delete(Key(service, uid, 0)).Delete(Key(service, uid, 1))
    {
      var _ := redis.Delete(Key(service, uid, 0));
      var _ := redis.Delete(Key(service, uid, 1));
    }
  }

  // --- intervals ---------------------------------------------------------------------------

  lemma IntervalHolds(time: int, interval: int)
    requires 0 < interval
    ensures var k := Interval(time, interval); k * interval <= time < k * interval + interval
  {
  }

  /** The code's parity is that of the interval's number. */
  lemma ParityOfInterval(time: int, interval: int)
    requires 0 < interval
    ensures Parity(time, interval) == Interval(time, interval) % 2
  {
    var k, double := Interval(time, interval), interval * 2;
    var half, parity := k / 2, k % 2;
    assert k * interval == half * double + parity * interval;
    QuotientIs(time, double, half);
    assert time % double == time - half * double;
    QuotientIs(time % double, interval, parity);
  }

  /** Two instants of intervals with the same parity, less than an interval apart, lie in the
      same interval. */
  lemma SameInterval(earlier: int, later: int, interval: int)
    requires 0 < interval && earlier <= later < earlier + interval
    requires Interval(earlier, interval) % 2 == Interval(later, interval) % 2
    ensures Interval(earlier, interval) == Interval(later, interval)
  {
    var j, k := Interval(earlier, interval), Interval(later, interval);
    Scale(j + 2, k, interval);
    Scale(k + 1, j, interval);
  }

  // --- runs --------------------------------------------------------------------------------

  datatype Config = Config(service: string, uid: string, limit: int, interval: int) {
    predicate Valid() { 0 < interval }
  }

  /** The server after calls at `times`, from a server without counters for this user. */
  function After(c: Config, times: seq<int>): Store
    requires c.Valid()
  {
    if times == [] then Store(map[], 0)
    else
      var last := |times| - 1;
      Called(After(c, times[..last]).At(times[last]), c.service, c.uid, c.limit, c.interval)
  }

  /** The counter that a call at `time` reads after calls at `times`. */
  function CallsAt(c: Config, times: seq<int>, time: int): Option<int>
    requires c.Valid()
  {
    Calls(After(c, times).At(time), CurrentKey(c.service, c.uid, time, c.interval))
  }

  function VerdictAt(c: Config, times: seq<int>, time: int): Verdict
    requires c.Valid()
  {
    Judge(CallsAt(c, times, time), c.limit)
  }

  /** How many of the calls at `times` are accepted at an instant in [from, until). */
  function Accepted(c: Config, times: seq<int>, from: int, until: int): nat
    requires c.Valid()
  {
    if times == [] then 0
    else
      var last := |times| - 1;
      Accepted(c, times[..last], from, until) +
      if from <= times[last] < until && VerdictAt(c, times[..last], times[last]).Pass? then 1 else 0
  }

  function AcceptedInInterval(c: Config, times: seq<int>, k: int): nat
    requires c.Valid()
  {
    Accepted(c, times, k * c.interval, (k + 1) * c.interval)
  }

  /** The instant at which an entry's counter was last incremented, read off its expiry. */
  function Touched(entry: Entry, interval: int): int {
    if entry.expiry.Some? then entry.expiry.value - (interval - 1) else 0
  }

  /** What a counter always tells: it was last incremented in an interval of its own parity,
      not in the future, and it counts only calls accepted in that interval. */
  ghost predicate Honest(c: Config, times: seq<int>, now: int, parity: int)
    requires c.Valid()
  {
    var data, key := After(c, times).data, Key(c.service, c.uid, parity);
    key in data ==>
      && data[key].value.Num? && data[key].expiry.Some?
      && var touched := Touched(data[key], c.interval);
         var k := Interval(touched, c.interval);
         && touched <= now && k % 2 == parity
         && 0 < data[key].value.n <= AcceptedInInterval(c, times, k)
  }

  lemma KeysDiffer(service: string, uid: string)
    ensures Key(service, uid, 0) != Key(service, uid, 1)
  {
    var prefix := "rate:" + service + ":" + uid + ":";
    assert Key(service, uid, 0)[|prefix|] == '0' && Key(service, uid, 1)[|prefix|] == '1';
  }

  /** What one more call does to the counts of accepted calls. */
  lemma OneMore(c: Config, times: seq<int>, time: int, k: int)
    requires c.Valid()
    ensures AcceptedInInterval(c, times + [time], k) ==
            AcceptedInInterval(c, times, k) +
            if Interval(time, c.interval) == k && VerdictAt(c, times, time).Pass? then 1 else 0
  {
    assert (times + [time])[..|times|] == times;
    if k * c.interval <= time < (k + 1) * c.interval {
      QuotientIs(time, c.interval, k);
    } else {
      IntervalHolds(time, c.interval);
    }
  }

  lemma StepHonest(c: Config, times: seq<int>, time: int, parity: int)
    requires c.Valid() && 0 <= parity <= 1 && Honest(c, times, time, parity)
    ensures Honest(c, times + [time], time, parity)
  {
    assert (times + [time])[..|times|] == times;
    var store, k := After(c, times).At(time), Interval(time, c.interval);
    var key := Key(c.service, c.uid, parity);
    ParityOfInterval(time, c.interval);
    KeysDiffer(c.service, c.uid);
    if k % 2 == parity {
      OneMore(c, times, time, k);
      if store.Live(key) {
        SameInterval(Touched(store.data[key], c.interval), time, c.interval);
      } else if key in store.data {
        OneMore(c, times, time, Interval(Touched(store.data[key], c.interval), c.interval));
      }
    } else if key in store.data {
      OneMore(c, times, time, Interval(Touched(store.data[key], c.interval), c.interval));
    }
  }

  lemma {:induction false} CountersHonest(c: Config, times: seq<int>, now: int)
    requires c.Valid() && Sorted(times + [now])
    ensures Honest(c, times, now, 0) && Honest(c, times, now, 1)
    decreases |times|
  {
    if times != [] {
      var last := |times| - 1;
      var before, time := times[..last], times[last];
      assert times == before + [time];
      SortedLast(times, now);
      CountersHonest(c, before, time);
      StepHonest(c, before, time, 0);
      StepHonest(c, before, time, 1);
    }
  }

  /** A counter that a call reads was last incremented in that call's own interval: nothing
      leaks from two intervals back. */
  lemma CurrentCounterIsCurrent(c: Config, times: seq<int>, time: int)
    requires c.Valid() && Sorted(times + [time])
    requires CallsAt(c, times, time).Some?
    ensures var entry := After(c, times).data[CurrentKey(c.service, c.uid, time, c.interval)];
            && entry.expiry.Some?
            && Interval(Touched(entry, c.interval), c.interval) == Interval(time, c.interval)
    ensures 0 < CallsAt(c, times, time).value <= AcceptedInInterval(c, times, Interval(time, c.interval))
  {
    CountersHonest(c, times, time);
    ParityOfInterval(time, c.interval);
    var entry := After(c, times).data[CurrentKey(c.service, c.uid, time, c.interval)];
    SameInterval(Touched(entry, c.interval), time, c.interval);
  }

  /** A refusal means that the limit's worth of calls was accepted in this very interval. */
  lemma RefusalIsEarned(c: Config, times: seq<int>, time: int)
    requires c.Valid() && Sorted(times + [time])
    requires VerdictAt(c, times, time).Exceeded?
    ensures c.limit <= AcceptedInInterval(c, times, Interval(time, c.interval))
  {
    CurrentCounterIsCurrent(c, times, time);
  }

  // --- whose calls count ---------------------------------------------------------------------------

  function Owner(service: string, uid: string): string {
    service + [':'] + uid
  }

  /** Two counters are one exactly for the same service and user, joined by a colon, and the same parity. */
  lemma KeysShared(service: string, uid: string, parity: int, service': string, uid': string, parity': int)
    ensures Key(service, uid, parity) == Key(service', uid', parity') <==>
            Owner(service, uid) == Owner(service', uid') && (parity == 0 <==> parity' == 0)
  {
    var key, key' := Key(service, uid, parity), Key(service', uid', parity');
    var owner, owner' := Owner(service, uid), Owner(service', uid');
    assert key == "rate:" + owner + ":" + if parity == 0 then "0" else "1";
    assert key' == "rate:" + owner' + ":" + if parity' == 0 then "0" else "1";
    assert key[5..|key| - 2] == owner && key'[5..|key'| - 2] == owner';
    assert key[|key| - 1] == '0' <==> parity == 0;
    assert key'[|key'| - 1] == '0' <==> parity' == 0;
  }

  /** A call of somebody; different callers may have different limits. */
  datatype Request = Request(who: Config, time: int)

  /** The server after the calls of everybody. */
  function AfterAll(requests: seq<Request>): Store
    requires forall r | r in requests :: r.who.Valid()
  {
    if requests == [] then Store(map[], 0)
    else
      var last := requests[|requests| - 1];
      assert last in requests && last.who.Valid();
      Called(AfterAll(requests[..|requests| - 1]).At(last.time), last.who.service, last.who.uid, last.who.limit, last.who.interval)
  }

  /** When one caller's calls are made. */
  function OwnTimes(requests: seq<Request>, c: Config): seq<int> {
    if requests == [] then []
    else
      var last := requests[|requests| - 1];
      OwnTimes(requests[..|requests| - 1], c) + if last.who == c then [last.time] else []
  }

  /** Every call is the caller's own, or one for another service or user. */
  ghost predicate Distinguished(requests: seq<Request>, c: Config) {
    && ':' !in c.service
    && forall r | r in requests ::
         && r.who.Valid() && ':' !in r.who.service
         && (r.who == c || r.who.service != c.service || r.who.uid != c.uid)
  }

  predicate SameUnder(store: Store, store': Store, key: string) {
    (key in store.data <==> key in store'.data) && (key in store.data ==> store.data[key] == store'.data[key])
  }

  lemma CalledSame(c: Config, store: Store, store': Store)
    requires c.Valid() && store.now == store'.now
    requires forall p | 0 <= p <= 1 :: SameUnder(store, store', Key(c.service, c.uid, p))
    ensures var after := Called(store, c.service, c.uid, c.limit, c.interval);
            var after' := Called(store', c.service, c.uid, c.limit, c.interval);
            forall p | 0 <= p <= 1 :: SameUnder(after, after', Key(c.service, c.uid, p))
  {
    ParityIsBinary(store.now, c.interval);
    KeysDiffer(c.service, c.uid);
    var parity := Parity(store.now, c.interval);
    assert SameUnder(store, store', Key(c.service, c.uid, parity));
  }

  lemma CalledOther(other: Config, store: Store, c: Config, p: int)
    requires other.Valid() && Owner(other.service, other.uid) != Owner(c.service, c.uid)
    ensures SameUnder(Called(store, other.service, other.uid, other.limit, other.interval), store, Key(c.service, c.uid, p))
  {
    KeysShared(other.service, other.uid, 0, c.service, c.uid, p);
    KeysShared(other.service, other.uid, 1, c.service, c.uid, p);
    ParityIsBinary(store.now, other.interval);
  }

  lemma {:induction false} OwnCountersOnly(requests: seq<Request>, c: Config)
    requires c.Valid() && Distinguished(requests, c)
    ensures forall p | 0 <= p <= 1 :: SameUnder(AfterAll(requests), After(c, OwnTimes(requests, c)), Key(c.service, c.uid, p))
    decreases |requests|
  {
    if requests != [] {
      var before, last := requests[..|requests| - 1], requests[|requests| - 1];
      var times := OwnTimes(before, c);
      assert last in requests && forall r | r in before :: r in requests;
      OwnCountersOnly(before, c);
      var store := AfterAll(before).At(last.time);
      if last.who == c {
        assert (times + [last.time])[..|times|] == times;
        CalledSame(c, store, After(c, times).At(last.time));
      } else {
        SamePair(last.who.service, last.who.uid, c.service, c.uid, ':');
        assert times + [] == times;
        forall p | 0 <= p <= 1 ensures SameUnder(AfterAll(requests), After(c, times), Key(c.service, c.uid, p)) {
          CalledOther(last.who, store, c, p);
          assert SameUnder(AfterAll(before), After(c, times), Key(c.service, c.uid, p));
        }
      }
    }
  }

  /** Among the calls of everybody, a call is answered as if the caller's own ones had been the only ones,
      so all that holds of one caller's runs holds within them. */
  lemma OwnCallsOnly(requests: seq<Request>, c: Config, time: int)
    requires c.Valid() && Distinguished(requests, c)
    ensures var calls := Calls(AfterAll(requests).At(time), CurrentKey(c.service, c.uid, time, c.interval));
            calls == CallsAt(c, OwnTimes(requests, c), time) && Judge(calls, c.limit) == VerdictAt(c, OwnTimes(requests, c), time)
  {
    OwnCountersOnly(requests, c);
    ParityIsBinary(time, c.interval);
    var p := Parity(time, c.interval);
    assert SameUnder(AfterAll(requests), After(c, OwnTimes(requests, c)), Key(c.service, c.uid, p));
  }

  /** A reset starts the caller's counts over, and touches nobody else's. */
  lemma ResetIsOwn(store: Store, c: Config, other: Config, p: int)
    requires 0 <= p <= 1 && ':' !in c.service && ':' !in other.service
    ensures var after := store.Delete(Key(c.service, c.uid, 0)).Delete(Key(c.service, c.uid, 1));
            && Calls(after, Key(c.service, c.uid, p)).None?
            && (other.service != c.service || other.uid != c.uid ==>
                  SameUnder(after, store, Key(other.service, other.uid, p)))
  {
    SamePair(c.service, c.uid, other.service, other.uid, ':');
    KeysShared(c.service, c.uid, 0, other.service, other.uid, p);
    KeysShared(c.service, c.uid, 1, other.service, other.uid, p);
  }

  // --- limits that allow nothing --------------------------------------------------------------------

  lemma {:induction false} CountsArePositive(c: Config, times: seq<int>, key: string)
    requires c.Valid()
    ensures key in After(c, times).data ==> After(c, times).data[key].value.Num? && 0 < After(c, times).data[key].value.n
    ensures c.limit == 0 ==> key !in After(c, times).data
    decreases |times|
  {
    if times != [] {
      var last := |times| - 1;
      CountsArePositive(c, times[..last], key);
      CountsArePositive(c, times[..last], CurrentKey(c.service, c.uid, times[last], c.interval));
    }
  }

  /** In no run does a call fail, unless the limit is zero, and then every call does. */
  lemma CrashesExactlyWhen(c: Config, times: seq<int>, time: int)
    requires c.Valid()
    ensures VerdictAt(c, times, time).Crash? <==> c.limit == 0
  {
    CountsArePositive(c, times, CurrentKey(c.service, c.uid, time, c.interval));
  }

  /** A negative limit works as a limit of one. */
  lemma {:induction false} NegativeIsOne(c: Config, times: seq<int>, time: int)
    requires c.Valid() && c.limit < 0
    ensures After(c, times) == After(c.(limit := 1), times)
    ensures VerdictAt(c, times, time) == VerdictAt(c.(limit := 1), times, time)
    decreases |times|
  {
    CountsArePositive(c, times, CurrentKey(c.service, c.uid, time, c.interval));
    if times != [] {
      var last := |times| - 1;
      NegativeIsOne(c, times[..last], times[last]);
    }
  }

  // --- how many calls an interval accepts ----------------------------------------------------

  function Count(c: Config, times: seq<int>, time: int): int
    requires c.Valid()
  {
    var calls := CallsAt(c, times, time);
    if calls.Some? then calls.value else 0
  }

  /** When the counter that a call at `time` reads was last incremented. */
  function LastTouch(c: Config, times: seq<int>, time: int): int
    requires c.Valid()
  {
    var data, key := After(c, times).data, CurrentKey(c.service, c.uid, time, c.interval);
    if key in data then Touched(data[key], c.interval) else 0
  }

  function FirstSecond(c: Config, k: int): int {
    k * c.interval
  }

  /** The last second of interval k. */
  function LastSecond(c: Config, k: int): int {
    (k + 1) * c.interval - 1
  }

  /** Accepted in the first second of interval k. */
  function AcceptedFirst(c: Config, times: seq<int>, k: int): nat
    requires c.Valid()
  {
    Accepted(c, times, FirstSecond(c, k), FirstSecond(c, k) + 1)
  }

  /** Accepted before the last second. */
  function AcceptedEarly(c: Config, times: seq<int>, k: int): nat
    requires c.Valid()
  {
    Accepted(c, times, FirstSecond(c, k), LastSecond(c, k))
  }

  function AcceptedLate(c: Config, times: seq<int>, k: int): nat
    requires c.Valid()
  {
    Accepted(c, times, LastSecond(c, k), LastSecond(c, k) + 1)
  }

  /** How many of the calls at `times` are made, accepted or not, at an instant in [from, until). */
  function Made(times: seq<int>, from: int, until: int): nat {
    if times == [] then 0
    else Made(times[..|times| - 1], from, until) + if from <= times[|times| - 1] < until then 1 else 0
  }

  function MadeFirst(c: Config, times: seq<int>, k: int): nat {
    Made(times, FirstSecond(c, k), FirstSecond(c, k) + 1)
  }

  function MadeEarly(c: Config, times: seq<int>, k: int): nat {
    Made(times, FirstSecond(c, k), LastSecond(c, k))
  }

  function MadeBetween(c: Config, times: seq<int>, k: int): nat {
    Made(times, FirstSecond(c, k) + 1, LastSecond(c, k))
  }

  function MadeLate(c: Config, times: seq<int>, k: int): nat {
    Made(times, LastSecond(c, k), LastSecond(c, k) + 1)
  }

  function Min(a: int, b: int): int {
    if a < b then a else b
  }

  lemma {:induction false} AcceptedSplits(c: Config, times: seq<int>, from: int, middle: int, until: int)
    requires c.Valid() && from <= middle <= until
    ensures Accepted(c, times, from, until) == Accepted(c, times, from, middle) + Accepted(c, times, middle, until)
  {
    if times != [] {
      AcceptedSplits(c, times[..|times| - 1], from, middle, until);
    }
  }

  lemma {:induction false} MadeSplits(times: seq<int>, from: int, middle: int, until: int)
    requires from <= middle <= until
    ensures Made(times, from, until) == Made(times, from, middle) + Made(times, middle, until)
  {
    if times != [] {
      MadeSplits(times[..|times| - 1], from, middle, until);
    }
  }

  lemma SecondsInOrder(c: Config, k: int)
    requires 2 <= c.interval
    ensures FirstSecond(c, k) < LastSecond(c, k) && LastSecond(c, k) + 1 == (k + 1) * c.interval
    ensures LastSecond(c, k) == FirstSecond(c, k) + c.interval - 1
  {
    assert (k + 1) * c.interval == k * c.interval + c.interval;
  }

  lemma EarlyAndLate(c: Config, times: seq<int>, k: int)
    requires 2 <= c.interval
    ensures AcceptedInInterval(c, times, k) == AcceptedEarly(c, times, k) + AcceptedLate(c, times, k)
    ensures MadeEarly(c, times, k) == MadeFirst(c, times, k) + MadeBetween(c, times, k)
  {
    SecondsInOrder(c, k);
    AcceptedSplits(c, times, FirstSecond(c, k), LastSecond(c, k), LastSecond(c, k) + 1);
    MadeSplits(times, FirstSecond(c, k), FirstSecond(c, k) + 1, LastSecond(c, k));
  }

  lemma OneMoreIn(c: Config, times: seq<int>, time: int, from: int, until: int)
    requires c.Valid()
    ensures Accepted(c, times + [time], from, until) ==
            Accepted(c, times, from, until) +
            if from <= time < until && VerdictAt(c, times, time).Pass? then 1 else 0
    ensures Made(times + [time], from, until) == Made(times, from, until) + if from <= time < until then 1 else 0
  {
    assert (times + [time])[..|times|] == times;
  }

  lemma {:induction false} NoneBefore(c: Config, times: seq<int>, from: int, until: int)
    requires c.Valid() && forall i | 0 <= i < |times| :: times[i] < from
    ensures Accepted(c, times, from, until) == 0 == Made(times, from, until)
  {
    if times != [] {
      NoneBefore(c, times[..|times| - 1], from, until);
    }
  }

  lemma {:induction false} NumbersOnly(c: Config, times: seq<int>, key: string)
    requires c.Valid()
    ensures key in After(c, times).data ==> After(c, times).data[key].value.Num?
  {
    if times != [] {
      var last := |times| - 1;
      var before := After(c, times[..last]).At(times[last]);
      NumbersOnly(c, times[..last], key);
      NumbersOnly(c, times[..last], CurrentKey(c.service, c.uid, before.now, c.interval));
    }
  }

  /** What a call leaves behind for the next one at the same instant. */
  lemma CallCounts(c: Config, times: seq<int>, time: int)
    requires 2 <= c.interval
    ensures CallsAt(c, times + [time], time) ==
            if VerdictAt(c, times, time).Pass? then Some(Count(c, times, time) + 1) else CallsAt(c, times, time)
    ensures LastTouch(c, times + [time], time) ==
            if VerdictAt(c, times, time).Pass? then time else LastTouch(c, times, time)
  {
    assert (times + [time])[..|times|] == times;
    var before, key := After(c, times).At(time), CurrentKey(c.service, c.uid, time, c.interval);
    ParityIsBinary(time, c.interval);
    KeysDiffer(c.service, c.uid);
    if VerdictAt(c, times, time).Pass? {
      var counted := before.IncrBy(key, 1);
      var value := Num(Count(c, times, time) + 1);
      assert key !in before.data || before.data[key].value.Num? || !before.Live(key) by {
        NumbersOnly(c, times, key);
      }
      assert counted.data[key].value == value && counted.Live(key);
      var kept := counted.Expire(key, c.interval - 1);
      assert kept.data[key] == Entry(value, Some(time + c.interval - 1));
    }
  }

  /** What an interval was asked for and has accepted: in its first second, before its last one, and in
      the last one. */
  datatype Tally = Tally(first: nat, early: nat, late: nat, askedFirst: nat, askedEarly: nat, askedLate: nat) {
    /** What the counter still tells in the last second: the calls accepted so far, if it was touched
        after the first second, and otherwise nothing. */
    function Kept(): nat {
      if first < early then early else 0
    }

    predicate Settled(limit: int) {
      && first == Min(askedFirst, limit) && early == Min(askedEarly, limit) && first <= early
      && late == Min(askedLate, limit - Kept())
    }

    /** The tally after one more call. */
    function More(inFirst: bool, inLast: bool, accepted: bool): Tally {
      var one := if accepted then 1 else 0;
      Tally(first + (if inFirst then one else 0), early + (if inLast then 0 else one), late + (if inLast then one else 0),
            askedFirst + (if inFirst then 1 else 0), askedEarly + (if inLast then 0 else 1), askedLate + (if inLast then 1 else 0))
    }

    /** What a call reads at this point of the interval. */
    predicate Reads(count: int, inFirst: bool, inLast: bool) {
      && (inFirst ==> first == early && askedFirst == askedEarly)
      && (if inLast then count == Kept() + late else askedLate == 0 && count == early)
    }
  }

  function Tallied(c: Config, times: seq<int>, k: int): Tally
    requires c.Valid()
  {
    Tally(AcceptedFirst(c, times, k), AcceptedEarly(c, times, k), AcceptedLate(c, times, k),
          MadeFirst(c, times, k), MadeEarly(c, times, k), MadeLate(c, times, k))
  }

  lemma MoreKeepsSettled(t: Tally, limit: int, count: int, inFirst: bool, inLast: bool)
    requires t.Settled(limit) && t.Reads(count, inFirst, inLast) && 1 <= limit && !(inFirst && inLast)
    ensures var more := t.More(inFirst, inLast, count < limit);
            more.Settled(limit) && more.Reads(if count < limit then count + 1 else count, inFirst, inLast)
  {
  }

  /** Where a counter was touched, by what its interval has accepted. */
  predicate TouchTells(t: Tally, touch: int, firstSecond: int) {
    firstSecond <= touch && (firstSecond < touch <==> t.first < t.early)
  }

  /** What a call at `time` reads, by what its interval has accepted. */
  ghost predicate Exact(c: Config, times: seq<int>, time: int)
    requires c.Valid()
  {
    var k := Interval(time, c.interval);
    var t := Tallied(c, times, k);
    && t.Settled(c.limit)
    && t.Reads(Count(c, times, time), time == FirstSecond(c, k), time == LastSecond(c, k))
    && (time < LastSecond(c, k) && CallsAt(c, times, time).Some? ==>
          TouchTells(t, LastTouch(c, times, time), FirstSecond(c, k)))
  }

  /** A call in interval k, or outside it. */
  lemma TalliedMore(c: Config, times: seq<int>, time: int, k: int)
    requires 2 <= c.interval
    ensures var t, more := Tallied(c, times, k), Tallied(c, times + [time], k);
            if FirstSecond(c, k) <= time <= LastSecond(c, k) then
              more == t.More(time == FirstSecond(c, k), time == LastSecond(c, k), VerdictAt(c, times, time).Pass?)
            else more == t
  {
    SecondsInOrder(c, k);
    OneMoreIn(c, times, time, FirstSecond(c, k), FirstSecond(c, k) + 1);
    OneMoreIn(c, times, time, FirstSecond(c, k), LastSecond(c, k));
    OneMoreIn(c, times, time, LastSecond(c, k), LastSecond(c, k) + 1);
  }

  lemma PassesBelowLimit(c: Config, times: seq<int>, time: int)
    requires c.Valid() && 1 <= c.limit
    ensures VerdictAt(c, times, time).Pass? <==> Count(c, times, time) < c.limit
    ensures VerdictAt(c, times, time).Exceeded? <==> c.limit <= Count(c, times, time)
  {
  }

  lemma MoreKeepsTouch(t: Tally, limit: int, count: int, inFirst: bool, touch: int, time: int, firstSecond: int)
    requires t.Reads(count, inFirst, false) && 1 <= limit && firstSecond <= time && (inFirst <==> time == firstSecond)
    requires 0 < count || limit <= count ==> TouchTells(t, touch, firstSecond)
    requires t.first <= t.early
    ensures TouchTells(t.More(inFirst, false, count < limit), if count < limit then time else touch, firstSecond)
  {
  }

  lemma CallKeepsExact(c: Config, times: seq<int>, time: int)
    requires 2 <= c.interval && 1 <= c.limit && Exact(c, times, time)
    ensures Exact(c, times + [time], time)
  {
    var k, more, count := Interval(time, c.interval), times + [time], Count(c, times, time);
    var t, inFirst, inLast := Tallied(c, times, k), time == FirstSecond(c, k), time == LastSecond(c, k);
    IntervalHolds(time, c.interval);
    SecondsInOrder(c, k);
    assert count < c.limit <==> VerdictAt(c, times, time).Pass? by { PassesBelowLimit(c, times, time); }
    assert Tallied(c, more, k) == t.More(inFirst, inLast, count < c.limit) by { TalliedMore(c, times, time, k); }
    assert Count(c, more, time) == (if count < c.limit then count + 1 else count)
        && LastTouch(c, more, time) == (if count < c.limit then time else LastTouch(c, times, time)) by {
      CallCounts(c, times, time);
    }
    MoreKeepsSettled(t, c.limit, count, inFirst, inLast);
    if !inLast {
      MoreKeepsTouch(t, c.limit, count, inFirst, LastTouch(c, times, time), time, FirstSecond(c, k));
    }
  }

  /** Nothing is known of an interval that has just begun, and its counter has not been touched. */
  lemma NewIntervalExact(c: Config, times: seq<int>, now: int)
    requires 2 <= c.interval && 1 <= c.limit && Sorted(times + [now])
    requires forall i | 0 <= i < |times| :: times[i] < FirstSecond(c, Interval(now, c.interval))
    ensures Exact(c, times, now)
  {
    var k := Interval(now, c.interval);
    SecondsInOrder(c, k);
    NoneBefore(c, times, FirstSecond(c, k), FirstSecond(c, k) + 1);
    NoneBefore(c, times, FirstSecond(c, k), LastSecond(c, k));
    NoneBefore(c, times, LastSecond(c, k), LastSecond(c, k) + 1);
    EarlyAndLate(c, times, k);
    if CallsAt(c, times, now).Some? {
      CurrentCounterIsCurrent(c, times, now);
    }
  }

  /** Within an interval, a counter is read as before until its last second, and then only if it was
      touched after the first one. */
  lemma CounterLives(c: Config, times: seq<int>, time: int, now: int)
    requires 2 <= c.interval && Sorted(times + [time]) && time <= now
    requires Interval(time, c.interval) == Interval(now, c.interval)
    ensures LastTouch(c, times, now) == LastTouch(c, times, time)
    ensures CallsAt(c, times, time).None? ==> CallsAt(c, times, now).None?
    ensures CallsAt(c, times, time).Some? && now < LastTouch(c, times, time) + c.interval - 1 ==>
              CallsAt(c, times, now) == CallsAt(c, times, time)
    ensures LastTouch(c, times, time) + c.interval - 1 <= now ==> CallsAt(c, times, now).None?
  {
    ParityOfInterval(time, c.interval);
    ParityOfInterval(now, c.interval);
    if CallsAt(c, times, time).Some? {
      CurrentCounterIsCurrent(c, times, time);
    }
  }

  lemma WaitingKeepsExact(c: Config, times: seq<int>, time: int, now: int)
    requires 2 <= c.interval && 1 <= c.limit && Sorted(times + [time]) && time <= now && Exact(c, times, time)
    ensures Exact(c, times, now)
  {
    SortedLast(times, time);
    SortedMore(times, now);
    var j, k := Interval(time, c.interval), Interval(now, c.interval);
    IntervalHolds(time, c.interval);
    IntervalHolds(now, c.interval);
    Scale(k + 1, j, c.interval);
    SecondsInOrder(c, k);
    if j < k {
      Scale(j + 1, k, c.interval);
      SecondsInOrder(c, j);
      NewIntervalExact(c, times, now);
    } else {
      CounterLives(c, times, time, now);
    }
  }

  lemma {:induction false} CountsExact(c: Config, times: seq<int>, now: int)
    requires 2 <= c.interval && 1 <= c.limit && Sorted(times + [now])
    ensures Exact(c, times, now)
    decreases |times|
  {
    if times != [] {
      var last := |times| - 1;
      var before, time := times[..last], times[last];
      assert times == before + [time];
      SortedLast(times, now);
      SortedLast(before, time);
      SortedMore(times, time);
      CountsExact(c, before, time);
      CallKeepsExact(c, before, time);
      WaitingKeepsExact(c, times, time, now);
    } else {
      NewIntervalExact(c, times, now);
    }
  }

  lemma NotInInterval(c: Config, time: int, k: int)
    requires 2 <= c.interval && Interval(time, c.interval) != k
    ensures !(FirstSecond(c, k) <= time <= LastSecond(c, k))
  {
    SecondsInOrder(c, k);
    if FirstSecond(c, k) <= time <= LastSecond(c, k) {
      QuotientIs(time, c.interval, k);
    }
  }

  /** Over any run, what an interval accepts is a function of the calls made in its first second, in
      its last one, and between them. */
  lemma {:induction false} AcceptedExactly(c: Config, times: seq<int>, k: int)
    requires 2 <= c.interval && 1 <= c.limit && Sorted(times)
    ensures AcceptedFirst(c, times, k) == Min(MadeFirst(c, times, k), c.limit)
    ensures AcceptedEarly(c, times, k) == Min(MadeEarly(c, times, k), c.limit)
    ensures AcceptedLate(c, times, k) == Min(MadeLate(c, times, k), c.limit - Tallied(c, times, k).Kept())
    decreases |times|
  {
    if times != [] {
      var last := |times| - 1;
      var before, time := times[..last], times[last];
      assert times == before + [time];
      SortedLast(before, time);
      if Interval(time, c.interval) == k {
        SortedMore(times, time);
        CountsExact(c, times, time);
      } else {
        AcceptedExactly(c, before, k);
        NotInInterval(c, time, k);
        TalliedMore(c, before, time, k);
      }
    }
  }

  /** Over any run, an interval accepts at most `limit` calls before its last second and at
      most twice as many altogether. */
  lemma IntervalBound(c: Config, times: seq<int>, k: int)
    requires 2 <= c.interval && 1 <= c.limit && Sorted(times)
    ensures AcceptedEarly(c, times, k) <= c.limit
    ensures AcceptedInInterval(c, times, k) <= 2 * c.limit
  {
    AcceptedExactly(c, times, k);
    EarlyAndLate(c, times, k);
  }

  /** Over any run, an interval accepts more than the limit if and only if its first and its last second
      ask for more than the limit together, both for some, and either nothing is asked for between
      them or the first second asks for the whole limit. */
  lemma ExceedsExactlyWhen(c: Config, times: seq<int>, k: int)
    requires 2 <= c.interval && 1 <= c.limit && Sorted(times)
    ensures var first, between, late := MadeFirst(c, times, k), MadeBetween(c, times, k), MadeLate(c, times, k);
            AcceptedInInterval(c, times, k) > c.limit <==>
            0 < first && 0 < late && c.limit < first + late && (between == 0 || c.limit <= first)
  {
    AcceptedExactly(c, times, k);
    EarlyAndLate(c, times, k);
  }

  /** At any time, a call is refused if and only if its interval has already accepted `limit` calls; in the
      last second only those of that second count, if none was accepted after the first second. */
  lemma RefusedExactlyAtLimit(c: Config, times: seq<int>, time: int)
    requires 2 <= c.interval && 1 <= c.limit && Sorted(times + [time])
    ensures var k := Interval(time, c.interval);
            var startsOver := time == LastSecond(c, k) && AcceptedFirst(c, times, k) == AcceptedEarly(c, times, k);
            VerdictAt(c, times, time).Exceeded? <==>
            c.limit == if startsOver then AcceptedLate(c, times, k) else AcceptedInInterval(c, times, k)
  {
    var k := Interval(time, c.interval);
    IntervalHolds(time, c.interval);
    CountsExact(c, times, time);
    EarlyAndLate(c, times, k);
    SecondsInOrder(c, k);
  }

  // --- how sharp the bounds are ----------------------------------------------------------------

  /** A call that finds n calls counted is accepted below the limit, and counted. */
  lemma BurstStep(c: Config, times: seq<int>, time: int, n: nat, from: int, until: int)
    requires 2 <= c.interval && n < c.limit && CallsAt(c, times, time) == if n == 0 then None else Some(n)
    ensures CallsAt(c, times + [time], time) == Some(n + 1)
    ensures Accepted(c, times + [time], from, until) ==
            Accepted(c, times, from, until) + if from <= time < until then 1 else 0
  {
    assert VerdictAt(c, times, time).Pass?;
    CallCounts(c, times, time);
    OneMoreIn(c, times, time, from, until);
  }

  /** A burst that finds no counter is accepted up to the limit. */
  lemma {:induction false} Burst(c: Config, times: seq<int>, time: int, count: nat, from: int, until: int)
    requires 2 <= c.interval && count <= c.limit && CallsAt(c, times, time).None?
    ensures CallsAt(c, times + Repeat(time, count), time) == if count == 0 then None else Some(count)
    ensures Accepted(c, times + Repeat(time, count), from, until) ==
            Accepted(c, times, from, until) + if from <= time < until then count else 0
    decreases count
  {
    if count == 0 {
      assert times + Repeat(time, 0) == times;
    } else {
      var before := times + Repeat(time, count - 1);
      Burst(c, times, time, count - 1, from, until);
      BurstStep(c, before, time, count - 1, from, until);
      RepeatMore(times, time, count - 1);
    }
  }

  /** A counter last touched at the first instant of interval 0 is gone in its last second. */
  lemma GoneInLastSecond(c: Config, times: seq<int>)
    requires 2 <= c.interval && Sorted(times + [0]) && CallsAt(c, times, 0).Some?
    ensures CallsAt(c, times, c.interval - 1).None?
  {
    var key := CurrentKey(c.service, c.uid, 0, c.interval);
    QuotientIs(0, c.interval, 0);
    QuotientIs(c.interval - 1, c.interval, 0);
    ParityOfInterval(0, c.interval);
    ParityOfInterval(c.interval - 1, c.interval);
    CurrentCounterIsCurrent(c, times, 0);
    CountersHonest(c, times, 0);
    var entry := After(c, times).data[key];
    IntervalHolds(Touched(entry, c.interval), c.interval);
    assert entry.expiry == Some(c.interval - 1);
  }

  lemma SecondBurst(c: Config, first: seq<int>)
    requires 2 <= c.interval && 1 <= c.limit && Sorted(first + [0]) && CallsAt(c, first, 0).Some?
    ensures Accepted(c, first + Repeat(c.interval - 1, c.limit), 0, c.interval) ==
            Accepted(c, first, 0, c.interval) + c.limit
  {
    GoneInLastSecond(c, first);
    Burst(c, first, c.interval - 1, c.limit, 0, c.interval);
  }

  lemma FirstBurst(c: Config)
    requires 2 <= c.interval && 1 <= c.limit
    ensures CallsAt(c, Repeat(0, c.limit), 0) == Some(c.limit)
    ensures Accepted(c, Repeat(0, c.limit), 0, c.interval) == c.limit
  {
    Burst(c, [], 0, c.limit, 0, c.interval);
    assert [] + Repeat(0, c.limit) == Repeat(0, c.limit);
  }

  /** Two limits' worth is reached in every configuration: spend the limit in the first second
      of an interval, and again in its last one, when the counter has just expired. */
  lemma IntervalBoundIsSharp(c: Config)
    requires 2 <= c.interval && 1 <= c.limit
    ensures var times := Repeat(0, c.limit) + Repeat(c.interval - 1, c.limit);
            Sorted(times) && AcceptedInInterval(c, times, 0) == 2 * c.limit
  {
    var first := Repeat(0, c.limit);
    FirstBurst(c);
    SecondBurst(c, first);
    TwoBursts(0, c.limit, c.interval - 1, c.limit);
    assert 0 * c.interval == 0 && (0 + 1) * c.interval == c.interval;
  }

  lemma {:induction false} NothingKept(c: Config, times: seq<int>, parity: int)
    requires c.interval == 1 && 0 <= parity <= 1
    ensures Key(c.service, c.uid, parity) !in After(c, times).data
    decreases |times|
  {
    if times != [] {
      var last := |times| - 1;
      NothingKept(c, times[..last], parity);
      ParityIsBinary(times[last], c.interval);
    }
  }

  /** A limit of at least one is ever enforced if and only if the interval is longer than one
      second: an interval of one second lets its counters live for zero seconds. */
  lemma EnforcedExactlyWhen(c: Config)
    requires c.Valid() && 1 <= c.limit
    ensures (exists times, time :: Sorted(times + [time]) && VerdictAt(c, times, time).Exceeded?) <==> 2 <= c.interval
  {
    if 2 <= c.interval {
      var times := Repeat(0, c.limit);
      Burst(c, [], 0, c.limit, 0, 1);
      assert [] + times == times;
      assert Sorted(times + [0]) && VerdictAt(c, times, 0).Exceeded?;
    } else {
      forall times, time ensures !VerdictAt(c, times, time).Exceeded? {
        ParityIsBinary(time, c.interval);
        NothingKept(c, times, Parity(time, c.interval));
      }
    }
  }
}
