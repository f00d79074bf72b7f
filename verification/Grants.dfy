/** `Grants`: usage limits read from the grants table through a cache whose entries live for a
    limited time; and the grant controller, which changes the table. */
module Grants {
  import opened Wrappers

  datatype Grant = Grant(uid: string, name: string, value: string, status: string, expires: Option<int>)

  type Values = map<string, string>

  /** An entry counts for `ttl` seconds from the instant `at` on. */
  datatype Cached = Cached(values: Values, at: int)

  type Cache = map<string, Cached>

  predicate Counts(row: Grant, uid: string, now: int) {
    row.uid == uid && row.status == "active" && (row.expires.Some? ==> row.expires.value > now)
  }

  /** The user's grants in a table at an instant; of several rows with one name the last one counts. */
  function Load(rows: seq<Grant>, uid: string, now: int): Values {
    if rows == [] then map[]
    else
      var last := rows[|rows| - 1];
      var earlier := Load(rows[..|rows| - 1], uid, now);
      if Counts(last, uid, now) then earlier[last.name := last.value] else earlier
  }

  predicate Live(cache: Cache, ttl: int, uid: string, now: int) {
    uid in cache && now < cache[uid].at + ttl
  }

  /** The cache after a lookup. */
  function Filled(cache: Cache, ttl: int, rows: seq<Grant>, uid: string, now: int): Cache {
    if Live(cache, ttl, uid, now) then cache else cache[uid := Cached(Load(rows, uid, now), now)]
  }

  /** The cache without the entry of a user, if there is one to name. */
  function Cleared(cache: Cache, uid: Option<string>): Cache {
    if uid.Some? then cache - {uid.value} else cache
  }

  function ValueOf(values: Values, defaults: Values, name: string): Option<string> {
    if name in values then Some(values[name])
    else if name in defaults then Some(defaults[name])
    else None
  }

  /** What a lookup answers. */
  function Lookup(cache: Cache, ttl: int, rows: seq<Grant>, defaults: Values, uid: string, name: string, now: int)
    : Option<string>
  {
    ValueOf(Filled(cache, ttl, rows, uid, now)[uid].values, defaults, name)
  }

  /** The grants table of the database. */
  class Table {
    var rows: seq<Grant>

    constructor (rows: seq<Grant>)
      ensures this.rows == rows
    {
      this.rows := rows;
    }
  }

  class GrantCache {
    const ttl: int
    const defaults: Values
    const table: Table
    var cache: Cache

    constructor (ttl: int, defaults: Values, table: Table)
      ensures this.ttl == ttl && this.defaults == defaults && this.table == table && cache == map[]
    {
      this.ttl, this.defaults, this.table, this.cache := ttl, defaults, table, map[];
    }

    method Get(name: string, uid: string, now: int) returns (value: Option<string>)
      modifies this
      ensures value == Lookup(old(cache), ttl, table.rows, defaults, uid, name, now)
      ensures cache == Filled(old(cache), ttl, table.rows, uid, now)
    {
      if !Live(cache, ttl, uid, now) {
        var grants: Values := map[];
        for i := 0 to |table.rows|
          invariant grants == Load(table.rows[..i], uid, now)
        {
          var rec := table.rows[i];
          assert table.rows[..i + 1][..i] == table.rows[..i];
          if rec.uid == uid && rec.status == "active" {
            if rec.expires.None? || rec.expires.value > now {
              grants := grants[rec.name := rec.value];
            }
          }
        }
        assert table.rows[..|table.rows|] == table.rows;
        cache := cache[uid := Cached(grants, now)];
      }
      if name in cache[uid].values {
        return Some(cache[uid].values[name]);
      }
      return if name in defaults then Some(defaults[name]) else None;
    }

    method Uncache(uid: string)
      modifies this
      ensures cache == old(cache) - {uid}
    {
      cache := cache - {uid};
    }
  }

  /** How an insertion goes: refused before the limit on grants is looked up, refused after that, or
      carried out. */
  datatype Fate = Denied | Refused | Inserted

  /** The controller as the worker processes of one deployment run it: each has a cache of its own, and
      they share the table. */
  class GrantController {
    const table: Table
    const workers: seq<GrantCache>

    ghost predicate Valid() {
      && (forall i, j | 0 <= i < j < |workers| :: workers[i] != workers[j])
      && (forall i | 0 <= i < |workers| :: workers[i].table == table)
    }

    constructor (table: Table, workers: seq<GrantCache>)
      requires forall i, j | 0 <= i < j < |workers| :: workers[i] != workers[j]
      requires forall i | 0 <= i < |workers| :: workers[i].table == table
      ensures Valid() && this.table == table && this.workers == workers
    {
      this.table, this.workers := table, workers;
    }

    /** The inherited creation of a record, by worker w. On its way it looks up the user's limit on
        grants, and so loads the cache from the table without the new row. */
    method CreateRow(w: nat, row: Grant, fate: Fate, now: int)
      requires Valid() && w < |workers|
      modifies workers[w], table
      ensures table.rows == old(table.rows) + if fate.Inserted? then [row] else []
      ensures workers[w].cache == if fate.Denied? then old(workers[w].cache)
                                  else Filled(old(workers[w].cache), workers[w].ttl, old(table.rows), row.uid, now)
    {
      if fate.Denied? {
        return;
      }
      var limit := workers[w].Get("grants", row.uid, now);
      if fate.Inserted? {
        table.rows := table.rows + [row];
      }
    }

    /** The row's user leaves the cache of the worker that serves the request: from then on this worker
        answers from the table with the new row, and another one as soon as its own entry has expired. */
    method Create(w: nat, row: Grant, fate: Fate, now: int)
      requires Valid() && w < |workers|
      modifies workers[w], table
      ensures table.rows == old(table.rows) + if fate.Inserted? then [row] else []
      ensures workers[w].cache == old(workers[w].cache) - {row.uid}
      ensures forall v, name, later: int | 0 <= v < |workers| && now <= later ::
                Lookup(workers[v].cache, workers[v].ttl, table.rows, workers[v].defaults, row.uid, name, later) ==
                if v == w || !Live(old(workers[v].cache), workers[v].ttl, row.uid, later)
                then ValueOf(Load(table.rows, row.uid, later), workers[v].defaults, name)
                else ValueOf(old(workers[v].cache)[row.uid].values, workers[v].defaults, name)
      ensures fate.Inserted? && Counts(row, row.uid, now) ==>
                forall v | 0 <= v < |workers| && (v == w || !Live(old(workers[v].cache), workers[v].ttl, row.uid, now)) ::
                  Lookup(workers[v].cache, workers[v].ttl, table.rows, workers[v].defaults, row.uid, row.name, now)
                  == Some(row.value)
    {
      CreateRow(w, row, fate, now);
      workers[w].Uncache(row.uid);
      if fate.Inserted? {
        assert table.rows[..|table.rows| - 1] == old(table.rows);
      }
    }

    /** An update with an ID of the form `uid:grant` clears the cache first, for the user that the body
        names, if any, and then creates a row for the user in the ID. What the creation finds in the
        cache or loads on its way stays there: this worker does not see the new row before that entry
        expires, and sees it from then on. */
    method UpdateHybrid(w: nat, bodyUid: Option<string>, row: Grant, fate: Fate, now: int)
      requires Valid() && w < |workers|
      modifies workers[w], table
      ensures table.rows == old(table.rows) + if fate.Inserted? then [row] else []
      ensures var before, ttl := Cleared(old(workers[w].cache), bodyUid), workers[w].ttl;
              workers[w].cache == if fate.Denied? then before else Filled(before, ttl, old(table.rows), row.uid, now)
      ensures var kept := bodyUid != Some(row.uid) && Live(old(workers[w].cache), workers[w].ttl, row.uid, now);
              var at := if kept then old(workers[w].cache)[row.uid].at else now;
              var values := if kept then old(workers[w].cache)[row.uid].values else Load(old(table.rows), row.uid, now);
              !fate.Denied? ==>
                forall name, later: int | now <= later ::
                  Lookup(workers[w].cache, workers[w].ttl, table.rows, workers[w].defaults, row.uid, name, later) ==
                  ValueOf(if at + workers[w].ttl <= later then Load(table.rows, row.uid, later) else values,
                          workers[w].defaults, name)
    {
      if bodyUid.Some? {
        workers[w].Uncache(bodyUid.value);
      }
      CreateRow(w, row, fate, now);
    }

    /** Any other update clears the cache in the same way, and then changes a row without a look at the
        cache. The worker sees the change at once if the body names the row's user, and otherwise when
        its entry for that user expires. */
    method Update(w: nat, bodyUid: Option<string>, index: nat, row: Grant, allowed: bool, now: int)
      requires Valid() && w < |workers| && index < |table.rows|
      modifies workers[w], table
      ensures table.rows == if allowed then old(table.rows)[index := row] else old(table.rows)
      ensures workers[w].cache == Cleared(old(workers[w].cache), bodyUid)
      ensures forall uid, name, later: int | now <= later ::
                Lookup(workers[w].cache, workers[w].ttl, table.rows, workers[w].defaults, uid, name, later) ==
                ValueOf(if bodyUid == Some(uid) || !Live(old(workers[w].cache), workers[w].ttl, uid, later)
                        then Load(table.rows, uid, later) else old(workers[w].cache)[uid].values,
                        workers[w].defaults, name)
    {
      if bodyUid.Some? {
        workers[w].Uncache(bodyUid.value);
      }
      if allowed {
        table.rows := table.rows[index := row];
      }
    }
  }

  // --- which row a lookup answers from ------------------------------------------------------------------------

  /** Row i is the one that counts for a user's grant at an instant: it is the user's, active, not expired and
      of that name, and no later row is. */
  ghost predicate Decides(rows: seq<Grant>, i: int, uid: string, name: string, now: int) {
    && 0 <= i < |rows| && rows[i].name == name
    && rows[i].uid == uid && rows[i].status == "active" && (rows[i].expires.Some? ==> now < rows[i].expires.value)
    && forall j | i < j < |rows| ::
         !(rows[j].name == name && rows[j].uid == uid && rows[j].status == "active" &&
           (rows[j].expires.Some? ==> now < rows[j].expires.value))
  }

  lemma {:induction false} LoadExactly(rows: seq<Grant>, uid: string, now: int, name: string)
    ensures name in Load(rows, uid, now) <==> exists i :: Decides(rows, i, uid, name, now)
    ensures forall i | Decides(rows, i, uid, name, now) :: name in Load(rows, uid, now) && Load(rows, uid, now)[name] == rows[i].value
  {
    if rows != [] {
      var before, last := rows[..|rows| - 1], |rows| - 1;
      assert rows == before + [rows[last]];
      LoadExactly(before, uid, now, name);
      if Counts(rows[last], uid, now) && rows[last].name == name {
        assert Decides(rows, last, uid, name, now);
      } else {
        forall i ensures Decides(rows, i, uid, name, now) <==> Decides(before, i, uid, name, now) {
          assert 0 <= i < last ==> before[i] == rows[i];
          assert forall j | 0 <= j < last :: before[j] == rows[j];
        }
      }
    }
  }

  /** A lookup that loads the table answers with the value of the row that counts, and without one with the
      default, if there is any. */
  lemma LookupExactly(cache: Cache, ttl: int, rows: seq<Grant>, defaults: Values, uid: string, name: string, now: int)
    requires uid !in cache || cache[uid].at + ttl <= now
    ensures var answer := Lookup(cache, ttl, rows, defaults, uid, name, now);
            && (forall i | Decides(rows, i, uid, name, now) :: answer == Some(rows[i].value))
            && ((forall i :: !Decides(rows, i, uid, name, now)) ==>
                  answer == if name in defaults then Some(defaults[name]) else None)
  {
    LoadExactly(rows, uid, now, name);
  }

  // --- runs ---------------------------------------------------------------------------------------------------

  datatype State = State(cache: Cache, rows: seq<Grant>, now: int)

  /** The table may change in any way at any time, and the cache may drop entries for want of room. */
  datatype Event =
    | Ask(uid: string)
    | Change(rows: seq<Grant>)
    | Clear(uid: string)
    | Evict(uid: string)
    | Wait(seconds: nat)

  function Next(s: State, ttl: int, event: Event): State {
    match event
    case Ask(uid) => s.(cache := Filled(s.cache, ttl, s.rows, uid, s.now))
    case Change(rows) => s.(rows := rows)
    case Clear(uid) => s.(cache := s.cache - {uid})
    case Evict(uid) => s.(cache := s.cache - {uid})
    case Wait(seconds) => s.(now := s.now + seconds)
  }

  function After(start: State, ttl: int, log: seq<Event>): State {
    if log == [] then start else Next(After(start, ttl, log[..|log| - 1]), ttl, log[|log| - 1])
  }

  /** Every entry was loaded from the table as it was at some point of the log, and has not been
      cleared since. */
  lemma {:induction false} EntryHasSource(start: State, ttl: int, log: seq<Event>, uid: string) returns (i: nat)
    requires start.cache == map[] && uid in After(start, ttl, log).cache
    ensures i <= |log| && Clear(uid) !in log[i..]
    ensures var past, now := After(start, ttl, log[..i]), After(start, ttl, log);
            past.now <= now.now && now.cache[uid] == Cached(Load(past.rows, uid, past.now), past.now)
    decreases |log|
  {
    var last := |log| - 1;
    var before, event := log[..last], log[last];
    var s := After(start, ttl, before);
    if event == Ask(uid) && !Live(s.cache, ttl, uid, s.now) {
      i := last;
      assert log[i..] == [event];
    } else {
      i := EntryHasSource(start, ttl, before, uid);
      assert log[..i] == before[..i] && log[i..] == before[i..] + [event];
    }
  }

  /** Every lookup answers with what the table said at some instant less than `ttl` ago, and not
      before the user was last cleared from the cache. */
  lemma LookupIsRecent(start: State, ttl: int, log: seq<Event>, defaults: Values, uid: string, name: string)
    returns (i: nat)
    requires start.cache == map[] && 0 < ttl
    ensures i <= |log| && Clear(uid) !in log[i..]
    ensures var past, now := After(start, ttl, log[..i]), After(start, ttl, log);
            && now.now - ttl < past.now <= now.now
            && Lookup(now.cache, ttl, now.rows, defaults, uid, name, now.now)
               == ValueOf(Load(past.rows, uid, past.now), defaults, name)
  {
    var now := After(start, ttl, log);
    if Live(now.cache, ttl, uid, now.now) {
      i := EntryHasSource(start, ttl, log, uid);
    } else {
      i := |log|;
      assert log[..i] == log;
    }
  }
}
