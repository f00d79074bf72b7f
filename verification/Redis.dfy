/** The part of a Redis server that the application relies on: string keys with an
    optional expiry, read against an integer-second clock.

    `Store` is the server's state as a value; `Server` is the server itself, the object
    that every worker's connection changes in place. Each command is one atomic step. */
module Redis {
  import opened Wrappers

  /** A counter, a plain text, or an encrypted session. The cipher is an inverse pair, so an
      encrypted session is represented by what decryption gives back. */
  datatype Value = Num(n: int) | Text(s: string) | Sealed(fields: map<string, string>)

  /** `expiry` is the first instant at which the entry no longer exists. */
  datatype Entry = Entry(value: Value, expiry: Option<int>)

  datatype Store = Store(data: map<string, Entry>, now: int) {

    predicate Live(key: string) {
      key in data && (data[key].expiry.Some? ==> now < data[key].expiry.value)
    }

    function Get(key: string): Option<Value> {
      if Live(key) then Some(data[key].value) else None
    }

    function Deadline(ex: Option<int>): Option<int> {
      if ex.Some? then Some(now + ex.value) else None
    }

    /** SET key value EX ex */
    function Set(key: string, value: Value, ex: Option<int>): Store {
      this.(data := data[key := Entry(value, Deadline(ex))])
    }

    /** SET key value EX ex NX */
    function SetNx(key: string, value: Value, ex: Option<int>): Store {
      if Live(key) then this else Set(key, value, ex)
    }

    /** INCRBY key amount: a missing key counts as 0 and gets no expiry, a live one keeps its
        expiry, and a live value that is not a number makes the command fail. */
    function IncrBy(key: string, amount: int): Store {
      if !Live(key) then
        this.(data := data[key := Entry(Num(amount), None)])
      else if data[key].value.Num? then
        this.(data := data[key := data[key].(value := Num(data[key].value.n + amount))])
      else
        this
    }

    /** EXPIRE key seconds: a lifetime that is not positive deletes the key. */
    function Expire(key: string, seconds: int): Store {
      if !Live(key) then this
      else if seconds <= 0 then Delete(key)
      else this.(data := data[key := data[key].(expiry := Some(now + seconds))])
    }

    /** DEL key */
    function Delete(key: string): Store {
      this.(data := data - {key})
    }

    function At(time: int): Store {
      this.(now := time)
    }
  }

  /** Every command touches its own key only, and no command the clock. */
  lemma OwnKeyOnly(store: Store, key: string, other: string, value: Value, ex: Option<int>, n: int)
    requires key != other
    ensures forall after | after in [store.Set(key, value, ex), store.SetNx(key, value, ex), store.IncrBy(key, n),
                                     store.Expire(key, n), store.Delete(key)] ::
              && after.now == store.now && (other in after.data <==> other in store.data)
              && (other in store.data ==> after.data[other] == store.data[other])
  {
  }

  class Server {
    var store: Store

    constructor (now: int)
      ensures store == Store(map[], now)
    {
      store := Store(map[], now);
    }

    method Get(key: string) returns (value: Option<Value>)
      ensures value == store.Get(key)
    {
      if key !in store.data {
        return None;
      }
      var entry := store.data[key];
      match entry.expiry
      case None => return Some(entry.value);
      case Some(deadline) => return if store.now < deadline then Some(entry.value) else None;
    }

    method Set(key: string, value: Value, ex: Option<int>)
      modifies this
      ensures store == old(store).Set(key, value, ex)
    {
      store := store.Set(key, value, ex);
    }

    method SetNx(key: string, value: Value, ex: Option<int>) returns (done: bool)
      modifies this
      ensures done == !old(store).Live(key)
      ensures store == old(store).SetNx(key, value, ex)
    {
      var current := Get(key);
      done := current.None?;
      if done {
        Set(key, value, ex);
      }
    }

    method IncrBy(key: string, amount: int)
      modifies this
      ensures store == old(store).IncrBy(key, amount)
    {
      store := store.IncrBy(key, amount);
    }

    method Expire(key: string, seconds: int)
      modifies this
      ensures store == old(store).Expire(key, seconds)
    {
      store := store.Expire(key, seconds);
    }

    method Delete(key: string) returns (done: bool)
      modifies this
      ensures done == old(store).Live(key)
      ensures store == old(store).Delete(key)
    {
      var current := Get(key);
      done := current.Some?;
      store := store.Delete(key);
    }
  }
}
