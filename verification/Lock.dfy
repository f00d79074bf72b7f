/** `Mutex`: a lock held as an expiring key whose value is its holder's signature. */
module Lock {
  import opened Wrappers
  import opened Redis

  /** What one attempt meets: a server that cannot be reached, or one in some state that the
      other clients have left it in. */
  datatype Attempt = Down | Up(store: Store)

  datatype Release = Released | HeldTooLong | NothingHeld

  function Key(lockname: string): string {
    "mutex:" + lockname
  }

  predicate Free(attempt: Attempt, lockname: string) {
    attempt.Up? && !attempt.store.Live(Key(lockname))
  }

  /** The first attempt that finds the lock free. */
  function FirstFree(world: seq<Attempt>, lockname: string): (i: nat)
    ensures i <= |world|
    ensures forall j | 0 <= j < i :: !Free(world[j], lockname)
    ensures i < |world| ==> Free(world[i], lockname)
  {
    if world == [] || Free(world[0], lockname) then 0
    else 1 + FirstFree(world[1..], lockname)
  }

  class Mutex {
    const connection: Server
    const lockname: string
    const signature: string
    const ttl: int
    const maxwait: int

    constructor (connection: Server, lockname: string, signature: string, ttl: int, maxwait: int)
      ensures this.connection == connection && this.lockname == lockname && this.signature == signature
      ensures this.ttl == ttl && this.maxwait == maxwait
    {
      this.connection, this.lockname, this.signature := connection, lockname, signature;
      this.ttl, this.maxwait := ttl, maxwait;
    }

    /** Tries at most `maxwait` times; `world` holds what each try meets. The lock is taken at
        the first try that finds it free, and with none the wait times out. */
    method Acquire(world: seq<Attempt>) returns (acquired: bool, tries: nat)
      requires maxwait <= |world|
      modifies connection
      ensures tries <= if maxwait < 0 then 0 else maxwait
      ensures acquired <==> exists i :: 0 <= i < maxwait && Free(world[i], lockname)
      ensures acquired ==>
                && tries == FirstFree(world, lockname) + 1
                && connection.store == world[tries - 1].store.SetNx(Key(lockname), Text(signature), Some(ttl))
                && connection.store.Get(Key(lockname)) == (if 0 < ttl then Some(Text(signature)) else None)
      ensures !acquired ==> tries == if maxwait < 0 then 0 else maxwait
    {
      tries := 0;
      for retry := 0 to if maxwait < 0 then 0 else maxwait
        invariant tries == retry
        invariant forall j | 0 <= j < retry :: !Free(world[j], lockname)
      {
        tries := retry + 1;
        match world[retry]
        case Down =>
        case Up(store) =>
          connection.store := store;
          acquired := connection.SetNx(Key(lockname), Text(signature), Some(ttl));
          if acquired {
            assert Free(world[retry], lockname);
            return true, tries;
          }
      }
      return false, tries;
    }

    /** Releasing only ever removes this client's own lock. */
    method Release() returns (outcome: Release)
      modifies connection
      ensures outcome == match old(connection.store).Get(Key(lockname))
                         case None => NothingHeld
                         case Some(value) => if value == Text(signature) then Released else HeldTooLong
      ensures connection.store ==
              if outcome.Released? then old(connection.store).Delete(Key(lockname)) else old(connection.store)
    {
      var value := connection.Get(Key(lockname));
      if value.None? {
        return NothingHeld;
      }
      if value.value != Text(signature) {
        return HeldTooLong;
      }
      var deleted := connection.Delete(Key(lockname));
      return if deleted then Released else HeldTooLong;
    }
  }

  // --- n clients with distinct signatures, one step at a time --------------------------------

  /** The clients of one lock: client i signs with `signatures[i]`. */
  datatype Config = Config(lockname: string, signatures: seq<string>, ttl: int) {
    ghost predicate Valid() {
      forall i, j | 0 <= i < j < |signatures| :: signatures[i] != signatures[j]
    }
  }

  /** `Leaving`: the release has read its own signature and is about to delete the key. */
  datatype Client = Outside | Inside(deadline: int) | Leaving(deadline: int)

  datatype State = State(server: Store, clients: seq<Client>) {
    predicate Holds(i: nat) {
      i < |clients| && !clients[i].Outside?
    }

    /** No holder has outlived its lock. */
    ghost predicate Punctual() {
      forall i: nat | Holds(i) :: server.now < clients[i].deadline
    }
  }

  datatype Action =
    | TryAcquire(client: nat)   // SET NX
    | CheckOwner(client: nat)   // the GET of a release
    | Remove(client: nat)       // the DELETE of a release
    | Tick(seconds: nat)

  /** An action that is not enabled changes nothing. */
  function Step(c: Config, s: State, action: Action): State
    requires |s.clients| == |c.signatures|
  {
    match action
    case TryAcquire(i) =>
      if i < |s.clients| && s.clients[i].Outside? && !s.server.Live(Key(c.lockname)) then
        State(s.server.SetNx(Key(c.lockname), Text(c.signatures[i]), Some(c.ttl)),
              s.clients[i := Inside(s.server.now + c.ttl)])
      else s
    case CheckOwner(i) =>
      if i < |s.clients| && s.clients[i].Inside? then
        if s.server.Get(Key(c.lockname)) == Some(Text(c.signatures[i])) then
          s.(clients := s.clients[i := Leaving(s.clients[i].deadline)])
        else
          s.(clients := s.clients[i := Outside])
      else s
    case Remove(i) =>
      if i < |s.clients| && s.clients[i].Leaving? then
        State(s.server.Delete(Key(c.lockname)), s.clients[i := Outside])
      else s
    case Tick(seconds) => s.(server := s.server.At(s.server.now + seconds))
  }

  function Start(c: Config, now: int): State {
    State(Store(map[], now), seq(|c.signatures|, _ => Outside))
  }

  function Run(c: Config, s: State, actions: seq<Action>): (end: State)
    requires |s.clients| == |c.signatures|
    ensures |end.clients| == |s.clients|
    decreases |actions|
  {
    if actions == [] then s else Run(c, Step(c, s, actions[0]), actions[1..])
  }

  ghost predicate PunctualThroughout(c: Config, s: State, actions: seq<Action>)
    requires |s.clients| == |c.signatures|
    decreases |actions|
  {
    s.Punctual() && (actions == [] || PunctualThroughout(c, Step(c, s, actions[0]), actions[1..]))
  }

  /** The stored lock is that of every client that holds it. */
  ghost predicate Inv(c: Config, s: State) {
    && c.Valid() && |s.clients| == |c.signatures|
    && forall i: nat | s.Holds(i) ::
         Key(c.lockname) in s.server.data &&
         s.server.data[Key(c.lockname)] == Entry(Text(c.signatures[i]), Some(s.clients[i].deadline))
  }

  ghost predicate Exclusive(s: State) {
    forall i: nat, j: nat | s.Holds(i) && s.Holds(j) :: i == j
  }

  lemma InvIsExclusive(c: Config, s: State)
    requires Inv(c, s)
    ensures Exclusive(s)
  {
    forall i: nat, j: nat | s.Holds(i) && s.Holds(j) ensures i == j {
      assert Text(c.signatures[i]) == Text(c.signatures[j]);
    }
  }

  lemma StepKeepsInv(c: Config, s: State, action: Action)
    requires Inv(c, s) && s.Punctual()
    ensures Inv(c, Step(c, s, action))
  {
    InvIsExclusive(c, s);
    var after := Step(c, s, action);
    forall i: nat | after.Holds(i)
      ensures Key(c.lockname) in after.server.data &&
              after.server.data[Key(c.lockname)] == Entry(Text(c.signatures[i]), Some(after.clients[i].deadline))
    {
      assert (!action.Tick? && action.client == i) || s.Holds(i);
    }
  }

  /** In every interleaving in which no holder outlives its lock, at most one client is between
      taking the lock and deleting it, and what the server stores is that client's signature:
      so deleting the key removes nobody else's lock. */
  lemma {:induction false} MutualExclusion(c: Config, s: State, actions: seq<Action>)
    requires Inv(c, s) && PunctualThroughout(c, s, actions)
    ensures var end := Run(c, s, actions);
            && Inv(c, end) && Exclusive(end) && end.Punctual()
            && (forall i: nat | end.Holds(i) :: end.server.Get(Key(c.lockname)) == Some(Text(c.signatures[i])))
    decreases |actions|
  {
    if actions != [] {
      StepKeepsInv(c, s, actions[0]);
      MutualExclusion(c, Step(c, s, actions[0]), actions[1..]);
    } else {
      InvIsExclusive(c, s);
    }
  }

  lemma StartHoldsInv(c: Config, now: int)
    requires c.Valid()
    ensures Inv(c, Start(c, now)) && Start(c, now).Punctual()
  {
  }

  /** What an outliving holder leads to: one step of any client outside puts two clients inside,
      and if the first one had already checked its signature, its delete then removes the
      second one's lock. */
  lemma OutlivingBreaksExclusion(c: Config, s: State, i: nat, j: nat)
    requires Inv(c, s) && s.Holds(i) && s.clients[i].deadline <= s.server.now
    requires j < |s.clients| && s.clients[j].Outside?
    ensures var both := Step(c, s, TryAcquire(j));
            && i != j && both.Holds(i) && both.Holds(j) && !Exclusive(both)
            && Key(c.lockname) in both.server.data
            && both.server.data[Key(c.lockname)].value == Text(c.signatures[j])
            && (s.clients[i].Leaving? ==> Key(c.lockname) !in Step(c, both, Remove(i)).server.data)
  {
    var both := Step(c, s, TryAcquire(j));
    assert both.Holds(i) && both.Holds(j);
  }

  /** With a client waiting outside, exclusion survives every next step if and only if no holder
      has outlived its lock. */
  lemma ExclusionExactlyWhenPunctual(c: Config, s: State, waiting: nat)
    requires Inv(c, s) && waiting < |s.clients| && s.clients[waiting].Outside?
    ensures (forall action :: Exclusive(Step(c, s, action))) <==> s.Punctual()
  {
    if s.Punctual() {
      forall action ensures Exclusive(Step(c, s, action)) {
        StepKeepsInv(c, s, action);
        InvIsExclusive(c, Step(c, s, action));
      }
    } else {
      var i: nat :| s.Holds(i) && s.clients[i].deadline <= s.server.now;
      OutlivingBreaksExclusion(c, s, i, waiting);
    }
  }

  // --- the steps against the mutex --------------------------------------------------------------

  /** Locks of different names have different keys. */
  lemma NamesHaveTheirKeys(lockname: string, lockname': string)
    ensures Key(lockname) == Key(lockname') <==> lockname == lockname'
  {
    assert Key(lockname)[6..] == lockname && Key(lockname')[6..] == lockname';
  }

  /** No step of one lock's clients touches another lock. */
  lemma OtherLocksStay(c: Config, s: State, action: Action, other: string)
    requires |s.clients| == |c.signatures| && other != c.lockname
    ensures var before, after := s.server.data, Step(c, s, action).server.data;
            (Key(other) in before <==> Key(other) in after) && (Key(other) in before ==> after[Key(other)] == before[Key(other)])
  {
    NamesHaveTheirKeys(c.lockname, other);
  }

  /** What `Mutex.Release` does in one go is what its two steps do to the server with nothing in between:
      the lock is deleted exactly if it holds the client's signature, and either way the client is
      outside. */
  lemma ReleaseInSteps(c: Config, s: State, i: nat)
    requires |s.clients| == |c.signatures| && i < |s.clients| && s.clients[i].Inside?
    ensures var key, end := Key(c.lockname), Run(c, s, [CheckOwner(i), Remove(i)]);
            && end.clients == s.clients[i := Outside]
            && end.server == if s.server.Get(key) == Some(Text(c.signatures[i])) then s.server.Delete(key) else s.server
  {
    var checked := Step(c, s, CheckOwner(i));
    assert [CheckOwner(i), Remove(i)][1..] == [Remove(i)];
    assert Run(c, checked, [Remove(i)]) == Step(c, checked, Remove(i)) by {
      assert [Remove(i)][1..] == [];
    }
    assert Step(c, checked, Remove(i)).clients == s.clients[i := Outside];
  }

  /** What one attempt of `Mutex.Acquire` does is what the step does: the client is inside with the lock's
      full lifetime before it exactly if the lock was free. */
  lemma AcquireInSteps(c: Config, s: State, i: nat)
    requires |s.clients| == |c.signatures| && i < |s.clients| && s.clients[i].Outside?
    ensures var key, after := Key(c.lockname), Step(c, s, TryAcquire(i));
            && after.server == s.server.SetNx(key, Text(c.signatures[i]), Some(c.ttl))
            && (after.Holds(i) <==> Free(Up(s.server), c.lockname))
            && (after.Holds(i) && 0 < c.ttl ==>
                  forall time | s.server.now <= time ::
                    (after.server.At(time).Get(key) == Some(Text(c.signatures[i])) <==> time < s.server.now + c.ttl))
  {
  }
}
