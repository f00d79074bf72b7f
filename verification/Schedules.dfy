/** Instants, in seconds, at which calls are made. */
module Schedules {
  predicate Sorted(times: seq<int>) {
    forall i, j | 0 <= i < j < |times| :: times[i] <= times[j]
  }

  lemma SortedLast(times: seq<int>, now: int)
    requires Sorted(times + [now])
    ensures Sorted(times) && forall i | 0 <= i < |times| :: times[i] <= now
  {
    var all := times + [now];
    forall i | 0 <= i < |times| ensures times[i] <= now {
      assert all[i] <= all[|times|];
    }
    forall i, j | 0 <= i < j < |times| ensures times[i] <= times[j] {
      assert all[i] <= all[j];
    }
  }

  lemma SortedMore(times: seq<int>, now: int)
    requires Sorted(times) && forall i | 0 <= i < |times| :: times[i] <= now
    ensures Sorted(times + [now])
  {
  }

  function Repeat(time: int, count: nat): (times: seq<int>)
    ensures |times| == count && forall i | 0 <= i < count :: times[i] == time
    ensures Sorted(times + [time])
  {
    seq(count, _ => time)
  }

  lemma RepeatMore(before: seq<int>, time: int, count: nat)
    ensures before + Repeat(time, count + 1) == before + Repeat(time, count) + [time]
  {
    assert Repeat(time, count + 1) == Repeat(time, count) + [time];
  }

  lemma TwoBursts(time: int, count: nat, later: int, count': nat)
    requires time <= later
    ensures Sorted(Repeat(time, count) + Repeat(later, count'))
  {
  }
}
