/** `SessionManager`: login sessions stored under the owner and the last three characters of the
    session's token. */
module Sessions {
  import opened Wrappers
  import opened Redis
  import opened Texts

  type Content = map<string, string>

  function Tail(token: string): string {
    if |token| <= 3 then token else token[|token| - 3..]
  }

  function Key(owner: string, token: string): string {
    "ses:" + owner + ":" + Tail(token)
  }

  function Claims(uid: string, roles: seq<string>, issuer: string, token: string, exp: string, extra: Content): Content {
    map["auth" := Join(roles, ":"), "exp" := exp, "iss" := issuer, "jti" := token, "sub" := uid] + extra
  }

  function Owner(uid: string, keyId: Option<string>): string {
    if keyId.Some? && keyId.value != "" then keyId.value else uid
  }

  /** What a lookup under `owner` gives for the full token. */
  function Lookup(store: Store, owner: string, token: string): Option<Content> {
    match store.Get(Key(owner, token))
    case Some(Sealed(fields)) => if "jti" in fields && fields["jti"] == token then Some(fields) else None
    case _ => None
  }

  datatype Error = NoSuchSession

  datatype Operation =
    | Create(owner: string, token: string, content: Content, ttl: int)
    | Update(owner: string, token: string, arg: string, value: string)
    | Delete(owner: string, token: string)

  function Apply(store: Store, op: Operation, ttl: int): Store {
    var key := Key(op.owner, op.token);
    match op
    case Create(_, _, content, lifetime) => store.SetNx(key, Sealed(content), Some(lifetime))
    case Update(owner, token, arg, value) =>
      var data := Lookup(store, owner, token);
      if data.None? then store else store.Set(key, Sealed(data.value[arg := value]), Some(ttl))
    case Delete(_, _) => store.Delete(key)
  }

  class SessionManager {
    const connection: Server
    const ttl: int
    const issuer: string

    constructor (connection: Server, ttl: int, issuer: string)
      ensures this.connection == connection && this.ttl == ttl && this.issuer == issuer
    {
      this.connection, this.ttl, this.issuer := connection, ttl, issuer;
    }

    /** `exp` is the printed expiration time; `ttl` overrides the manager's own. */
    method Create(uid: string, roles: seq<string>, keyId: Option<string>, token: string, exp: string,
                  ttl: Option<int>, extra: Content) returns (content: Option<Content>)
      modifies connection
      ensures var key, before := Key(Owner(uid, keyId), token), old(connection.store);
              && (content.Some? <==> !before.Live(key))
              && (content.Some? ==> content.value == Claims(uid, roles, issuer, token, exp, extra))
              && connection.store == before.SetNx(key, Sealed(Claims(uid, roles, issuer, token, exp, extra)),
                                                  Some(if ttl.Some? then ttl.value else this.ttl))
              && connection.store == Apply(before, Operation.Create(Owner(uid, keyId), token,
                                                                    Claims(uid, roles, issuer, token, exp, extra),
                                                                    if ttl.Some? then ttl.value else this.ttl), this.ttl)
    {
      var claims := Claims(uid, roles, issuer, token, exp, extra);
      var lifetime := if ttl.Some? then ttl.value else this.ttl;
      var done := connection.SetNx(Key(Owner(uid, keyId), token), Sealed(claims), Some(lifetime));
      return if done then Some(claims) else None;
    }

    method Get(uid: string, token: string, keyId: Option<string>) returns (content: Option<Content>)
      ensures content == Lookup(connection.store, Owner(uid, keyId), token)
    {
      var data := connection.Get(Key(Owner(uid, keyId), token));
      if data.None? || !data.value.Sealed? {
        return None;
      }
      var fields := data.value.fields;
      if "jti" !in fields || fields["jti"] != token {
        return None;
      }
      return Some(fields);
    }

    method GetField(uid: string, token: string, arg: string, keyId: Option<string>) returns (value: Option<string>)
      ensures var content := Lookup(connection.store, Owner(uid, keyId), token);
              value == if content.Some? && arg in content.value then Some(content.value[arg]) else None
    {
      var data := Get(uid, token, keyId);
      return if data.Some? && arg in data.value then Some(data.value[arg]) else None;
    }

    /** The session is read under the user's ID even when a key ID is given. */
    method Update(uid: string, token: string, arg: string, value: string, keyId: Option<string>)
      returns (result: Result<(), Error>)
      modifies connection
      ensures var before, data := old(connection.store), Lookup(old(connection.store), uid, token);
              && (result.Ok? <==> data.Some?)
              && connection.store ==
                 if data.None? then before
                 else before.Set(Key(Owner(uid, keyId), token), Sealed(data.value[arg := value]), Some(ttl))
      ensures keyId.None? ==> connection.store == Apply(old(connection.store), Operation.Update(uid, token, arg, value), ttl)
    {
      var data := Get(uid, token, None);
      if data.None? {
        return Err(NoSuchSession);
      }
      connection.Set(Key(Owner(uid, keyId), token), Sealed(data.value[arg := value]), Some(ttl));
      return Ok(());
    }

    method Delete(uid: string, token: string, keyId: Option<string>)
      modifies connection
      ensures connection.store == old(connection.store).Delete(Key(Owner(uid, keyId), token))
      ensures connection.store == Apply(old(connection.store), Operation.Delete(Owner(uid, keyId), token), ttl)
    {
      var _ := connection.Delete(Key(Owner(uid, keyId), token));
    }
  }

  // --- runs -------------------------------------------------------------------------------------

  datatype Event = Event(time: int, op: Operation)

  /** Tokens have at least three characters, and no caller sets the token field itself. */
  predicate Regular(op: Operation) {
    && 3 <= |op.token|
    && (op.Create? ==> "jti" in op.content && op.content["jti"] == op.token)
    && (op.Update? ==> op.arg != "jti")
  }

  ghost predicate ValidLog(log: seq<Event>) {
    && (forall i | 0 <= i < |log| :: Regular(log[i].op))
    && (forall i, j | 0 <= i < j < |log| :: log[i].time <= log[j].time)
  }

  function After(log: seq<Event>, ttl: int): Store {
    if log == [] then Store(map[], 0)
    else
      var last := |log| - 1;
      Apply(After(log[..last], ttl).At(log[last].time), log[last].op, ttl)
  }

  /** Whether the caller is told that the operation succeeded. */
  predicate Succeeds(log: seq<Event>, ttl: int, event: Event) {
    var store := After(log, ttl).At(event.time);
    match event.op
    case Create(owner, token, _, _) => !store.Live(Key(owner, token))
    case Update(owner, token, _, _) => Lookup(store, owner, token).Some?
    case Delete(_, _) => true
  }

  datatype Session = Session(content: Content, expiry: int)

  /** What the log says of one full token: the content it was last successfully created or updated
      with, unless a session with the same owner and the same last three characters has been
      deleted since. Other tokens' creations and updates play no part. */
  function Recorded(log: seq<Event>, ttl: int, owner: string, token: string): Option<Session> {
    if log == [] then None
    else
      var last := |log| - 1;
      var earlier, event := Recorded(log[..last], ttl, owner, token), log[last];
      if event.op.owner != owner || !Succeeds(log[..last], ttl, event) then earlier
      else
        match event.op
        case Create(_, t, content, lifetime) =>
          if t == token then Some(Session(content, event.time + lifetime)) else earlier
        case Update(_, t, arg, value) =>
          if t == token && earlier.Some? then Some(Session(earlier.value.content[arg := value], event.time + ttl))
          else earlier
        case Delete(_, t) =>
          if Tail(t) == Tail(token) then None else earlier
  }

  function Current(recorded: Option<Session>, now: int): Option<Session> {
    if recorded.Some? && now < recorded.value.expiry then recorded else None
  }

  // --- what a login stores ---------------------------------------------------------------------------

  /** A session holds the five claims and the extra ones, of which the latter win. Its roles are read back
      as they were given exactly if there are any and none has a colon. */
  lemma ClaimsHold(uid: string, roles: seq<string>, issuer: string, token: string, exp: string, extra: Content)
    ensures var content := Claims(uid, roles, issuer, token, exp, extra);
            && content.Keys == {"auth", "exp", "iss", "jti", "sub"} + extra.Keys
            && (forall k | k in extra :: content[k] == extra[k])
            && ("sub" !in extra ==> content["sub"] == uid) && ("jti" !in extra ==> content["jti"] == token)
            && ("iss" !in extra ==> content["iss"] == issuer) && ("exp" !in extra ==> content["exp"] == exp)
            && ("auth" !in extra ==>
                  (Split(content["auth"], ':') == roles <==> roles != [] && forall role | role in roles :: ':' !in role))
  {
    if roles != [] && forall role | role in roles :: ':' !in role {
      SplitJoin(roles, ':');
    }
  }

  /** A session that has been created in a free slot is found by its full token, under the key's ID if it has
      one, whatever user is named, and otherwise under the user, until its lifetime ends; unless an extra
      claim has put another token into it. */
  lemma CreatedIsFound(store: Store, uid: string, roles: seq<string>, keyId: Option<string>, token: string, exp: string,
                       lifetime: int, issuer: string, extra: Content, time: int, uid': string)
    requires !store.Live(Key(Owner(uid, keyId), token)) && store.now <= time
    ensures var content := Claims(uid, roles, issuer, token, exp, extra);
            var after := store.SetNx(Key(Owner(uid, keyId), token), Sealed(content), Some(lifetime));
            var byKey := keyId.Some? && keyId.value != "";
            var owner := if byKey then keyId.value else uid;
            && Lookup(after.At(time), owner, token) ==
               (if time < store.now + lifetime && ("jti" in extra ==> extra["jti"] == token) then Some(content) else None)
            && (byKey || uid' == uid ==> Owner(uid', keyId) == owner)
  {
    ClaimsHold(uid, roles, issuer, token, exp, extra);
  }

  /** The creation of a session is an operation that the laws about runs speak of, exactly if its token has at
      least three characters and no extra claim replaces it. */
  lemma LoginIsRegular(uid: string, roles: seq<string>, keyId: Option<string>, token: string, exp: string,
                       lifetime: int, issuer: string, extra: Content)
    ensures Regular(Operation.Create(Owner(uid, keyId), token, Claims(uid, roles, issuer, token, exp, extra), lifetime)) <==>
            3 <= |token| && ("jti" in extra ==> extra["jti"] == token)
  {
    ClaimsHold(uid, roles, issuer, token, exp, extra);
  }

  /** Two tokens of at least three characters have the same tail exactly if their last three characters are
      the same. */
  lemma TailsAreLastThree(token: string, token': string)
    requires 3 <= |token| && 3 <= |token'|
    ensures var n, n' := |token|, |token'|;
            Tail(token) == Tail(token') <==>
            token[n - 3] == token'[n' - 3] && token[n - 2] == token'[n' - 2] && token[n - 1] == token'[n' - 1]
  {
    var n, n' := |token|, |token'|;
    assert Tail(token) == [token[n - 3], token[n - 2], token[n - 1]];
    assert Tail(token') == [token'[n' - 3], token'[n' - 2], token'[n' - 1]];
  }

  /** Different slots have different keys. */
  lemma SlotsHaveTheirKeys(owner: string, token: string, owner': string, token': string)
    requires 3 <= |token| && 3 <= |token'|
    ensures Key(owner, token) == Key(owner', token') <==> owner == owner' && Tail(token) == Tail(token')
  {
    var key, key' := Key(owner, token), Key(owner', token');
    assert key[4..|key| - 4] == owner && key[|key| - 3..] == Tail(token);
    assert key'[4..|key'| - 4] == owner' && key'[|key'| - 3..] == Tail(token');
  }

  /** The server holds what the log records for a token, and nothing else under its name. */
  ghost predicate Faithful(log: seq<Event>, ttl: int, owner: string, token: string, now: int) {
    var store, key := After(log, ttl).At(now), Key(owner, token);
    var recorded := Current(Recorded(log, ttl, owner, token), now);
    && (recorded.Some? ==>
          && "jti" in recorded.value.content && recorded.value.content["jti"] == token
          && key in store.data
          && store.data[key] == Entry(Sealed(recorded.value.content), Some(recorded.value.expiry)))
    && (Lookup(store, owner, token).Some? ==> recorded.Some?)
  }

  lemma WaitingKeepsFaithful(log: seq<Event>, ttl: int, owner: string, token: string, time: int, now: int)
    requires Faithful(log, ttl, owner, token, time) && time <= now
    ensures Faithful(log, ttl, owner, token, now)
  {
  }

  lemma AfterOneMore(log: seq<Event>, ttl: int, event: Event)
    ensures After(log + [event], ttl) == Apply(After(log, ttl).At(event.time), event.op, ttl)
  {
    assert (log + [event])[..|log|] == log;
  }

  lemma OtherKeyKept(store: Store, op: Operation, ttl: int, key: string)
    requires key != Key(op.owner, op.token)
    ensures var after := Apply(store, op, ttl);
            after.now == store.now && (key in after.data <==> key in store.data) &&
            (key in store.data ==> after.data[key] == store.data[key])
  {
    match op
    case Create(_, _, _, _) =>
    case Update(_, _, _, _) =>
    case Delete(_, _) =>
  }

  /** An event in another slot, or one that its caller is told has failed. */
  lemma OtherEventKeepsFaithful(log: seq<Event>, ttl: int, owner: string, token: string, event: Event)
    requires Faithful(log, ttl, owner, token, event.time) && Regular(event.op) && 3 <= |token|
    requires event.op.owner != owner || Tail(event.op.token) != Tail(token) || !Succeeds(log, ttl, event)
    ensures Faithful(log + [event], ttl, owner, token, event.time)
  {
    AfterOneMore(log, ttl, event);
    assert Recorded(log + [event], ttl, owner, token) == Recorded(log, ttl, owner, token) by {
      assert (log + [event])[..|log|] == log;
    }
    if Succeeds(log, ttl, event) {
      SlotsHaveTheirKeys(owner, token, event.op.owner, event.op.token);
      OtherKeyKept(After(log, ttl).At(event.time), event.op, ttl, Key(owner, token));
    }
  }

  lemma CreateKeepsFaithful(log: seq<Event>, ttl: int, owner: string, token: string, event: Event)
    requires Faithful(log, ttl, owner, token, event.time) && Regular(event.op) && event.op.Create?
    requires event.op.owner == owner && Tail(event.op.token) == Tail(token) && Succeeds(log, ttl, event)
    ensures Faithful(log + [event], ttl, owner, token, event.time)
  {
    assert (log + [event])[..|log|] == log;
    assert Key(owner, event.op.token) == Key(owner, token);
  }

  lemma UpdateKeepsFaithful(log: seq<Event>, ttl: int, owner: string, token: string, event: Event)
    requires Faithful(log, ttl, owner, token, event.time) && Regular(event.op) && event.op.Update?
    requires event.op.owner == owner && Tail(event.op.token) == Tail(token) && Succeeds(log, ttl, event)
    ensures Faithful(log + [event], ttl, owner, token, event.time)
  {
    assert (log + [event])[..|log|] == log;
    assert Key(owner, event.op.token) == Key(owner, token);
  }

  lemma DeleteKeepsFaithful(log: seq<Event>, ttl: int, owner: string, token: string, event: Event)
    requires event.op.Delete? && event.op.owner == owner && Tail(event.op.token) == Tail(token)
    ensures Faithful(log + [event], ttl, owner, token, event.time)
  {
    assert (log + [event])[..|log|] == log;
    assert Key(owner, event.op.token) == Key(owner, token);
  }

  lemma EventKeepsFaithful(log: seq<Event>, ttl: int, owner: string, token: string, event: Event)
    requires Faithful(log, ttl, owner, token, event.time) && Regular(event.op) && 3 <= |token|
    ensures Faithful(log + [event], ttl, owner, token, event.time)
  {
    if event.op.owner != owner || Tail(event.op.token) != Tail(token) || !Succeeds(log, ttl, event) {
      OtherEventKeepsFaithful(log, ttl, owner, token, event);
    } else {
      match event.op
      case Create(_, _, _, _) => CreateKeepsFaithful(log, ttl, owner, token, event);
      case Update(_, _, _, _) => UpdateKeepsFaithful(log, ttl, owner, token, event);
      case Delete(_, _) => DeleteKeepsFaithful(log, ttl, owner, token, event);
    }
  }

  lemma LogBefore(log: seq<Event>, now: int)
    requires ValidLog(log) && log != [] && forall i | 0 <= i < |log| :: log[i].time <= now
    ensures var before, event := log[..|log| - 1], log[|log| - 1];
            && log == before + [event] && ValidLog(before) && Regular(event.op) && event.time <= now
            && forall i | 0 <= i < |before| :: before[i].time <= event.time
  {
  }

  lemma {:induction false} LogIsFaithful(log: seq<Event>, ttl: int, owner: string, token: string, now: int)
    requires ValidLog(log) && 3 <= |token|
    requires forall i | 0 <= i < |log| :: log[i].time <= now
    ensures Faithful(log, ttl, owner, token, now)
    decreases |log|
  {
    if log != [] {
      var before, event := log[..|log| - 1], log[|log| - 1];
      LogBefore(log, now);
      LogIsFaithful(before, ttl, owner, token, event.time);
      EventKeepsFaithful(before, ttl, owner, token, event);
      WaitingKeepsFaithful(log, ttl, owner, token, event.time, now);
    }
  }

  /** Over any run of creations, updates, deletions and waiting: a lookup returns exactly the
      content with which that full token was last created or updated, while it lasts and has not
      been deleted, and otherwise nothing. */
  lemma LookupIsLastRecorded(log: seq<Event>, ttl: int, owner: string, token: string, now: int)
    requires ValidLog(log) && 3 <= |token|
    requires forall i | 0 <= i < |log| :: log[i].time <= now
    ensures var recorded := Current(Recorded(log, ttl, owner, token), now);
            Lookup(After(log, ttl).At(now), owner, token) ==
            if recorded.Some? then Some(recorded.value.content) else None
  {
    LogIsFaithful(log, ttl, owner, token, now);
  }

  /** No slot has two live sessions on record. */
  lemma OneLiveSessionPerSlot(log: seq<Event>, ttl: int, owner: string, token: string, token': string, now: int)
    requires ValidLog(log) && 3 <= |token| && 3 <= |token'| && Tail(token) == Tail(token')
    requires forall i | 0 <= i < |log| :: log[i].time <= now
    requires Current(Recorded(log, ttl, owner, token), now).Some?
    requires Current(Recorded(log, ttl, owner, token'), now).Some?
    ensures token == token'
  {
    LogIsFaithful(log, ttl, owner, token, now);
    LogIsFaithful(log, ttl, owner, token', now);
  }

  /** What the server stores under a key is the session of some token that belongs there. */
  lemma {:induction false} StoredToken(log: seq<Event>, ttl: int, key: string) returns (token: string)
    requires ValidLog(log) && key in After(log, ttl).data
    ensures 3 <= |token| && |key| >= 3 && key[|key| - 3..] == Tail(token)
    ensures var value := After(log, ttl).data[key].value;
            value.Sealed? && "jti" in value.fields && value.fields["jti"] == token
    decreases |log|
  {
    var last := |log| - 1;
    var event := log[last];
    var before := After(log[..last], ttl).At(event.time);
    if key == Key(event.op.owner, event.op.token) && (event.op.Create? || event.op.Update?) && After(log, ttl) != before {
      assert key[|key| - 3..] == Tail(event.op.token);
      token := event.op.token;
    } else {
      token := StoredToken(log[..last], ttl, key);
    }
  }

  /** A creation succeeds exactly when no session on record is live in its slot, so it never
      overwrites one. */
  lemma CreateNeedsFreeSlot(log: seq<Event>, ttl: int, event: Event)
    requires ValidLog(log) && Regular(event.op) && event.op.Create?
    requires forall i | 0 <= i < |log| :: log[i].time <= event.time
    ensures Succeeds(log, ttl, event) <==>
            forall token: string | 3 <= |token| && Tail(token) == Tail(event.op.token) ::
              Current(Recorded(log, ttl, event.op.owner, token), event.time).None?
  {
    var owner, key := event.op.owner, Key(event.op.owner, event.op.token);
    var store := After(log, ttl).At(event.time);
    forall token: string | 3 <= |token| && Tail(token) == Tail(event.op.token)
      ensures Current(Recorded(log, ttl, owner, token), event.time).Some? ==> store.Live(key)
    {
      LogIsFaithful(log, ttl, owner, token, event.time);
    }
    if store.Live(key) {
      var token := StoredToken(log, ttl, key);
      LogIsFaithful(log, ttl, owner, token, event.time);
      SlotsHaveTheirKeys(owner, token, owner, event.op.token);
    }
  }
}
