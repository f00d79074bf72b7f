/** The one Redis server holds the keys of all protocols, which must not meet. */
module Keyspace {
  import Lock
  import Metrics
  import RateLimit
  import Sessions

  /** Grants, rate limits, locks and sessions never share a key, whatever users, tokens, services and
      locks are called. */
  lemma ProtocolsAreApart(name: string, tag: string, service: string, user: string, parity: int,
                          lockname: string, owner: string, token: string)
    ensures Metrics.Key(name, tag) != RateLimit.Key(service, user, parity)
    ensures Metrics.Key(name, tag) != Lock.Key(lockname)
    ensures Metrics.Key(name, tag) != Sessions.Key(owner, token)
    ensures RateLimit.Key(service, user, parity) != Lock.Key(lockname)
    ensures RateLimit.Key(service, user, parity) != Sessions.Key(owner, token)
    ensures Lock.Key(lockname) != Sessions.Key(owner, token)
  {
    assert Metrics.Key(name, tag)[..2] == "mt";
    assert RateLimit.Key(service, user, parity)[..2] == "ra";
    assert Lock.Key(lockname)[..2] == "mu";
    assert Sessions.Key(owner, token)[..2] == "se";
  }
}
