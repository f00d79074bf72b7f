# apicrud: shared counters, locks, paging, access control and codecs

apicrud is a Python framework for REST services whose worker processes share a Redis server and a
database. This project models the parts of it whose guarantees span several calls, several workers or
several functions, and proves what they guarantee.

* `Redis` is the server: keys with an optional expiry, read against an integer-second clock. `Store`
  is its state as a value, `Server` the object that the workers change. Every other Redis protocol is
  a class over a `Server`, and each of its methods is proved equal to a function on `Store`; the laws
  over whole runs are proved about those functions.
* `Metrics` and `MetricsRace` are the usage grants, one store at a time and with n workers whose
  readings and writings interleave. `RateLimit` is the limit on calls per interval, `Lock` the mutex,
  `Startup` the start of n instances of the service under that mutex, `Sessions` the login sessions.
* `Trashcan` and `Listing` are the two kinds of paged listings, over `Paging` (what it takes for pages
  to make up a list) and `Cursor` (base64 cursors and composite IDs).
* `Roles` and `Access` are membership roles, privacy levels, the evaluator of permissions on one
  record and the filter that is to agree with it on whole tables.
* `Grants` is the cache of usage limits and the controller that invalidates it, `Numerals` the record
  IDs, `Identity` the normalized email addresses, `BackupCodes` the buffer of one-time codes.
* `Keyspace` keeps the keys of all protocols apart on the one server; `Arithmetic`, `Schedules`, `Texts`
  and `Wrappers` hold what the others share.

`dafny verify dfyconfig.toml` checks everything.

Time, database rows, what another process does meanwhile, and the reachability of a server are
parameters. Where several outcomes are possible, such as the random part of a record ID, lemmas
quantify over all of them.

## Where the code and its documentation differ

The model follows the code.

* IDs are documented as sortable by date with a granularity of 24 hours. The random spread is drawn
  from 0 to 8 with both ends included, so the last value of one day is the first one of the next;
  `Numerals.IdsSortExactlyWhen` has the exact condition, two days.
* `RateLimit` is documented to limit calls per interval. A counter lives for one second less than an
  interval, so the last second of an interval can start over: `RateLimit.ExceedsExactlyWhen` says for
  which calls, the sharp bound is two limits (`RateLimit.IntervalBound`,
  `RateLimit.IntervalBoundIsSharp`), and an interval of one second enforces nothing
  (`RateLimit.EnforcedExactlyWhen`).
* Grants are described as limits per period. A period is one lifetime of the counter, not any window
  of that length, and some window exceeds the limit unless that is one (`Metrics.WithinLimitExactlyWhen`);
  the sharp bound is two limits less one (`Metrics.WindowBound`, `Metrics.WindowBoundIsSharp`).
  `check` looks at the user's counter even where `store` counts per instance
  (`Metrics.CheckForeseesStore`).
* The database is to be seeded when it is blank. A version that cannot be read counts as none, and an
  instance that then gets through seeds a database whose schemas are all current
  (`Startup.CurrentStaysExactlyWhen`).
* `schema_update` asks to be called under the mutex. Instances that do not migrate call it without,
  and seed a blank database as well once they have waited in vain; and the mutex lives only as long
  as one schema may keep an instance waiting (`Startup.SeededOnceExactlyWhen` has all of this).
* A special case of `rbac_permissions` is meant for policies with principals like `list-*`. Loading
  has turned the star into `.*` by then, so it never applies, while the filter does honour such
  policies (`Access.StarCaseIsDead`, `Access.SoundExactlyWhenCovered`).
* Policies for `{list_id}` are matched with no ID, and roles with a colon do not survive a session, so
  policies for list members give nothing on a record with an ID, and those for `mfarequired:{uid}` give
  nothing at all (`Access.ListScopeGivesNothing`,
  `Access.TaggedGivesNothing`); under policies scoped like those of
  example/rbac.yaml list members read by the privacy setting of a record alone
  (`Access.ReadableCustomarily`).
* Hybrid updates of a grant clear the cache before they create the row, and so leave the old limit in
  the cache (`Grants.GrantController.UpdateHybrid`). Invalidation reaches the cache of one worker
  process only (`Grants.GrantController.Create`).

## Model

| member | source | states |
|---|---|---|
| Redis.Server.SetNx | apicrud/session_manager.py:180-183 | SET with NX takes a key exactly if no live entry is under it, expired ones counting as gone, and leaves everything else alone |
| Redis.OwnKeyOnly | apicrud/ratelimit.py:66-68 | every command touches its own key only, and none the clock |
| Keyspace.ProtocolsAreApart | apicrud/session_manager.py:81 | the keys of grants, rate limits, locks and sessions, which share one server, never meet, whatever anything is called |
| Metrics.Recorder.Store | apicrud/metrics.py:65-119 | a store of a grant metric fails for an undefined name and otherwise answers, changes the server and sends the usage notice as the specification functions say, on which the laws below are proved |
| Metrics.Recorder.Check | apicrud/metrics.py:121-145 | the remaining credit of the user's counter, or none, read without a change |
| Metrics.CheckForeseesStore | apicrud/metrics.py:82-88 | on every server and for every limit, a check reports credit exactly when the next store is accepted, if and only if the metric is not counted per instance |
| Metrics.CountersShared | apicrud/metrics.py:82-88 | for metric names without a colon, two recorders count by one counter if and only if metric and, by its scope, instance or user are the same |
| Metrics.KeysShared | apicrud/metrics.py:88 | for any names, two keys are one if and only if name and label are the same, or a colon within one name is taken for the one before the label |
| Metrics.IndependentExactlyWhen | apicrud/metrics.py:82-107 | on every server and for all limits, a store of one recorder changes nothing about what store and check answer another one, if and only if they do not share the counter |
| Metrics.SeededFor | apicrud/metrics.py:21-22 | a counter that a store seeds is live for exactly an hour, a day, seven or thirty-one days, or for ever, by the metric's period |
| Metrics.LifetimeConserves | apicrud/metrics.py:89-107 | over any stores in one lifetime of a counter, accepted and remaining add up to the limit, and the accepted ones are as many as the calls or the limit, whichever is less (one even for limits below one) |
| Metrics.CreditExactly | apicrud/metrics.py:139-145 | for a positive limit, the number that a check reports is how many stores would be accepted on the spot, and none is reported exactly if none would be |
| Metrics.CountsDown | apicrud/metrics.py:92-107 | from any value on, stores are accepted as long as the counter is positive, and the counter loses exactly what was accepted while its expiry stays |
| Metrics.StoreUsesAllowance | apicrud/metrics.py:89-107 | a store takes what it is accepted for off the number of stores that a window can still accept |
| Metrics.AllowanceHolds | apicrud/metrics.py:89-107 | from any server that stores can have left behind, the stores accepted in a window of one period are at most what the counter still allows in it |
| Metrics.WindowBound | apicrud/metrics.py:89-107 | over any run, a window of one period accepts at most two limits less one, and one limit if the period is a second |
| Metrics.WindowBoundIsSharp | apicrud/metrics.py:89-107 | for every limit and every period some run and window reach that bound |
| Metrics.WithinLimitExactlyWhen | apicrud/metrics.py:89-107 | every window of one period stays within the limit, over every run, if and only if the limit is one or the period a second |
| Metrics.CrossesExactly | apicrud/metrics.py:99-102 | the percentages of the notice, as exact rationals, cross the threshold at exactly one integer step |
| Metrics.NoticesCountingDown | apicrud/metrics.py:97-107 | counting down from any value sends one notice if the threshold lies on the way, and none otherwise |
| Metrics.NoticeOnce | apicrud/metrics.py:92-107 | in one lifetime at most one notice is sent, and exactly one by the time the grant is used up if and only if the threshold is at least 100/limit and below 100 |
| Metrics.LateCountDownLocksOut | apicrud/metrics.py:107 | a count-down that arrives after the counter expired leaves a negative counter without expiry: every later store, at any time, is refused |
| Metrics.LocksOutExactlyWhen | apicrud/metrics.py:107 | after a count-down every later run of stores is refused altogether if and only if it found no live counter, or used up one that never expires |
| MetricsRace.StepKeepsInv | apicrud/metrics.py:89-107 | every reading or writing step of any of n workers keeps the counter, less the count-downs under way, above minus the number of free workers, and the total within a budget per seeding |
| MetricsRace.RaceBound | apicrud/metrics.py:89-107 | in every interleaving of n workers, at most limit + n - 1 stores are accepted after one seeding, and at most n * limit + n * (n - 1) / 2 altogether, belated seedings included |
| MetricsRace.RaceBoundIsSharp | apicrud/metrics.py:89-107 | for every n and every limit of at least two there is an interleaving that reaches the total |
| MetricsRace.BackToBackIsStore | apicrud/metrics.py:89-107 | a reading followed at once by its write has the effect of the sequential store on counter and acceptance |
| RateLimit.RateLimiter.Call | apicrud/ratelimit.py:31-75 | a call passes, is refused or crashes as the current interval's counter says, and an accepted one increments it, renews its expiry and deletes the other one; without a user or when disabled nothing happens |
| RateLimit.RateLimiter.Reset | apicrud/ratelimit.py:77-85 | both counters of a service and user are gone, everything else stays |
| RateLimit.KeysShared | apicrud/ratelimit.py:57-58 | two counters are one if and only if service and user, joined by a colon, and the parity are the same |
| RateLimit.ParityOfInterval | apicrud/ratelimit.py:56 | the even or odd counter that the code computes is the one of the interval's number since the epoch |
| RateLimit.StepHonest | apicrud/ratelimit.py:56-75 | every call keeps both counters honest: each tells of calls accepted in one interval of its own parity, and of no more than those |
| RateLimit.CountersHonest | apicrud/ratelimit.py:56-75 | so they are after any run |
| RateLimit.CurrentCounterIsCurrent | apicrud/ratelimit.py:56-75 | over any run, a live counter that a call reads was last incremented in that call's own interval, and counts only calls accepted in it: nothing leaks from two intervals back |
| RateLimit.RefusalIsEarned | apicrud/ratelimit.py:64-74 | a refusal means that this very interval has accepted the limit's worth of calls |
| RateLimit.OwnCallsOnly | apicrud/ratelimit.py:56-75 | among the calls of everybody, with limits of their own, a call is answered as if the caller's own ones for that service had been the only ones |
| RateLimit.ResetIsOwn | apicrud/ratelimit.py:77-85 | after a reset the caller's next call reads no counter, and those of any other service or user are what they were |
| RateLimit.CrashesExactlyWhen | apicrud/ratelimit.py:64 | in no run does a call fail for want of a counter unless the limit is zero, and then every call does |
| RateLimit.NegativeIsOne | apicrud/ratelimit.py:64 | over any run a negative limit works as a limit of one |
| RateLimit.AcceptedExactly | apicrud/ratelimit.py:56-75 | over any run, what an interval accepts in its first second, before its last one and in the last one is determined by how many calls are made in each; the last second continues the count exactly if a call was accepted after the first one |
| RateLimit.RefusedExactlyAtLimit | apicrud/ratelimit.py:56-75 | at any time, a call is refused if and only if its interval has accepted exactly the limit; in the last second only that second counts, if nothing was accepted after the first one |
| RateLimit.IntervalBound | apicrud/ratelimit.py:56-75 | over any run, an interval accepts at most the limit before its last second and at most twice the limit altogether |
| RateLimit.ExceedsExactlyWhen | apicrud/ratelimit.py:56-75 | over any run, an interval accepts more than the limit if and only if its first and its last second are both called, together more often than the limit, and either no call comes between them or the first second is called as often as the limit |
| RateLimit.IntervalBoundIsSharp | apicrud/ratelimit.py:66-68 | twice the limit is reached, for every interval of at least two seconds and every positive limit |
| RateLimit.EnforcedExactlyWhen | apicrud/ratelimit.py:66-68 | some run meets a refusal if and only if the interval is at least two seconds |
| Lock.Mutex.Acquire | apicrud/session_manager.py:172-187 | at most maxwait attempts; the lock is taken at the first attempt that finds it free, and the wait times out exactly if none does, whatever the server goes through meanwhile |
| Lock.Mutex.Release | apicrud/session_manager.py:189-195 | deletes the key exactly if it holds this client's signature, and tells the other two cases apart without touching the server |
| Lock.StepKeepsInv | apicrud/session_manager.py:180-194 | as long as no holder has outlived its lock, every step of any client keeps the stored lock that of every holder |
| Lock.MutualExclusion | apicrud/session_manager.py:172-195 | in every interleaving in which no holder outlives its lock, at most one client is between taking the lock and deleting it, and the server stores that client's signature |
| Lock.OutlivingBreaksExclusion | apicrud/session_manager.py:180-194 | once a holder has outlived its lock, one step of another client puts both inside, and a release that had already checked deletes the other one's lock |
| Lock.ExclusionExactlyWhenPunctual | apicrud/session_manager.py:172-195 | with a client waiting, exclusion survives every next step if and only if no holder has outlived its lock |
| Lock.AcquireInSteps | apicrud/session_manager.py:180-183 | a client is inside after an attempt exactly if the lock was free, and then holds it for its full lifetime |
| Lock.ReleaseInSteps | apicrud/session_manager.py:192-194 | the two steps of a release, with nothing in between, do to the server what the mutex's release does, and leave the client outside |
| Lock.OtherLocksStay | apicrud/session_manager.py:181 | no step of one lock's clients touches a lock of another name |
| Startup.Database.Migrate | apicrud/database.py:138-178 | when a schema comes to its head, when the database is seeded, and exactly when the instance exits for want of a connection or waits for ever |
| Startup.Database.Update | apicrud/database.py:193-215 | exactly when a call exits or waits for ever, by what it finds of the schemas; a migrating one that gets through leaves all schemas at their heads; it seeds if and only if the last schema's version could not be read or is none; and it is a run of one instance alone in the concurrent model |
| Startup.AloneFrom | apicrud/database.py:193-215 | an instance alone, among others at rest, brings the schemas to their heads if it migrates, and seeds if and only if it cannot read the last version or finds none |
| Startup.StepKeepsPhaseInv | apicrud/database.py:138-178 | every step of any instance, whatever fails and however late, keeps what is known of every other one: schemas below the one at work are at their heads, and a version found stays found |
| Startup.FinishedAtHead | apicrud/database.py:193-215 | where only migrating instances get past schemas that are not current, every schema is at its head once any instance has finished, in every interleaving with any failures |
| Startup.AtHeadExactlyWhen | apicrud/database.py:167-172 | and this is guaranteed from a blank database if and only if that is so: all instances migrate, or the waiting time is no multiple of five |
| Startup.StepAccount | apicrud/database.py:173-178 | every step keeps the sum of seedings done, pending and still called for, but for a failed reading of an existing last schema, which adds one, and a crash, which can take one away |
| Startup.SeededAtMostOnce | apicrud/database.py:138-206 | in every interleaving in which no holder outlives the lock, with failures anywhere and from any versions, the seedings are at most one for a blank last schema plus one for each failed reading of an existing one |
| Startup.SeededExactly | apicrud/database.py:138-206 | and if nothing but readings fails they are exactly that many, once the last schema exists and nobody is about to seed |
| Startup.SeededExactlyOnce | apicrud/database.py:86-93 | if all migrate and nothing but readings fails, a blank database has been seeded by the time any instance has finished, and exactly once if and only if no reading of the existing last schema failed, save one whose seeding is still to come |
| Startup.CurrentStaysExactlyWhen | apicrud/database.py:203-206 | a database at its heads is never seeded, in any interleaving, if and only if no instance can get past a schema that it does not find current: a single failed reading of one that can is enough |
| Startup.OneBesideAnother | apicrud/database.py:87-90 | two migrating instances seed a blank database twice if the first outlives its lock between reading and migrating the last schema |
| Startup.SeededOnceExactlyWhen | apicrud/database.py:86-96 | on a blank database, seeding at most once is guaranteed in all interleavings if and only if at most one instance can get past a schema that it does not find current; or no holder outlives the lock, no reading of an existing last schema fails, and only migrating instances can |
| Sessions.SessionManager.Create | apicrud/session_manager.py:73-89 | a session is stored and returned exactly if no live one has its owner and last three characters; otherwise the server is unchanged |
| Sessions.SessionManager.Get | apicrud/session_manager.py:102-117 | the stored content if it belongs to the full token, and nothing otherwise |
| Sessions.SessionManager.GetField | apicrud/session_manager.py:112-116 | one field of that content, or nothing |
| Sessions.SessionManager.Update | apicrud/session_manager.py:131-135 | fails without a change exactly if the user has no session with that full token; otherwise replaces one field and renews the expiry |
| Sessions.SessionManager.Delete | apicrud/session_manager.py:145-148 | whatever is stored for the owner and the last three characters is gone, everything else stays |
| Sessions.ClaimsHold | apicrud/session_manager.py:75-82 | a session holds user, token, issuer and expiration unless an extra claim replaces them, and its roles are read back as given if and only if there are any and none has a colon |
| Sessions.CreatedIsFound | apicrud/session_manager.py:75-113 | a session created in a free slot is found by its full token, under the key's ID or else the user, until its lifetime ends, if and only if no extra claim has replaced the token |
| Sessions.LoginIsRegular | apicrud/session_manager.py:75-82 | a creation is an operation of the runs below if and only if its token has three characters and no extra claim replaces it |
| Sessions.TailsAreLastThree | apicrud/session_manager.py:81 | two tokens belong to one slot of an owner exactly if their last three characters are the same |
| Sessions.SlotsHaveTheirKeys | apicrud/session_manager.py:81 | two tokens share a key if and only if they share owner and last three characters, whatever the owners' names |
| Sessions.LogIsFaithful | apicrud/session_manager.py:73-148 | over any run, the server holds for every token what the log of successful operations records for it |
| Sessions.LookupIsLastRecorded | apicrud/session_manager.py:91-117 | over any run, a lookup returns exactly the content with which that full token was last created or updated, while it lasts and has not been deleted, and otherwise nothing |
| Sessions.OneLiveSessionPerSlot | apicrud/session_manager.py:81-85 | no two live sessions share owner and last three characters |
| Sessions.CreateNeedsFreeSlot | apicrud/session_manager.py:81-86 | a creation succeeds if and only if no recorded session is live in its slot |
| Cursor.DecodeEncode | apicrud/basic_crud.py:586-591 | base64 (section 4 of RFC 4648) over any invertible alphabet: decoding inverts encoding on all byte sequences |
| Cursor.SextetsAreDigits | apicrud/basic_crud.py:586-587 | three bytes and the four sextets that encode them are the same number (section 4 of RFC 4648) |
| Cursor.AlphabetOfRfc4648 | apicrud/basic_crud.py:586-587 | the sextets are printed by Table 1 of RFC 4648 |
| Cursor.Utf8Exactly | apicrud/basic_crud.py:586-587 | the bytes of a character stand for it, and the first one tells how many there are (section 3 of RFC 3629) |
| Cursor.FromB64Inverts | apicrud/basic_crud.py:586-591 | decoding a text's base64 gives the text back if and only if it is ASCII, since one side writes UTF-8 (section 3 of RFC 3629) and the other reads ASCII |
| Cursor.ParsePrint | apicrud/trashcan.py:189-192 | printing and parsing a cursor of resource and offset is the identity, for every offset, if and only if the resource's name is ASCII without a colon |
| Cursor.ParsePrintOffset | apicrud/basic_crud.py:350 | the same for cursors of an offset alone, which the listing of many tables never takes for its own |
| Cursor.PositionIsNoOffset | apicrud/basic_crud.py:350 | and the listing of one table rejects the cursor of many tables if and only if its resource's name is no number |
| Cursor.ParsePrintNat | apicrud/trashcan.py:276-277 | every offset is printed in digits and read back |
| Cursor.ParseCompositeId | apicrud/trashcan.py:47 | a composite ID is taken apart into resource and record ID, for every record ID, if and only if the resource's name has no dash |
| Paging.CeilingStep | apicrud/trashcan.py:274-280 | one more full page is one more in the number of rows divided by the limit, rounded up |
| Trashcan.Append | apicrud/trashcan.py:274-301 | the rows of one table that fit on the page are appended in order, and the page is found full exactly if another row is there |
| Trashcan.AppendTable | apicrud/trashcan.py:233-302 | one turn of the outer loop: the page is complete and the place of the first row left over is known, or the tables that follow hold exactly what is missing |
| Trashcan.Collect | apicrud/trashcan.py:233-304 | the nested loops gather the first rows from an offset that runs on into later tables, and find the place of the first row left over |
| Trashcan.Find | apicrud/trashcan.py:182-304 | which tables a request lists from which offset, and when it is rejected, as the lemmas below say |
| Trashcan.AnswerExactly | apicrud/trashcan.py:188-222 | a request is rejected exactly for a broken cursor, for an offset without a resource, or for a resource that does not exist; for a resource it is answered with exactly that table's rows from the cursor's or else the given offset on |
| Trashcan.PlaceBeginsRest | apicrud/trashcan.py:274-280 | the place that a cursor names is where the rows that the page left out begin, and there is one exactly if any were left out |
| Trashcan.SelectedFrom | apicrud/trashcan.py:223-226 | with names in order, selecting from the name of a listed table on gives what the list had from that table on |
| Trashcan.PageResumes | apicrud/trashcan.py:188-304 | a page holds the beginning of what is left, of all resources or of the one asked for, and its cursor leads to exactly what is left then |
| Trashcan.WalkIsComplete | apicrud/trashcan.py:188-304 | following the cursors from the first request until there is none yields every listed row in order, each once, in full pages but for the last one, in as many requests as the rows divided by the limit, rounded up, but at least one |
| Trashcan.WalkOfResource | apicrud/trashcan.py:215-217 | following the cursors with one resource asked for yields exactly that table's rows in order, each once, whatever the order of the names |
| Trashcan.WalkListsExactly | apicrud/trashcan.py:223-226 | the walk over all resources lists exactly the rows of every table but five, under IDs from which resource and row can be told if the resource's name has no dash |
| Trashcan.OutOfOrderRepeats | apicrud/trashcan.py:223-226 | two controllers registered against the order of their names make some cursor lead back |
| Trashcan.CursorsResumeExactlyWhen | apicrud/trashcan.py:223-226 | cursors lead to exactly what the page left, for all rows and limits, if and only if controllers are registered in the order of their names |
| Listing.Collect | apicrud/basic_crud.py:428-447 | the loop keeps the rows that fit on the page, and counts them |
| Listing.Find | apicrud/basic_crud.py:349-456 | which rows a request gets, with which count and which cursor, or that its cursor is rejected |
| Listing.OffsetIsCursor | apicrud/basic_crud.py:349-354 | a given offset asks for what a cursor printed for it asks for, no offset for the first rows, and a cursor wins |
| Listing.PageHolds | apicrud/basic_crud.py:424-447 | row k of a page is the row that far from the offset, as long as there are any and the limit allows |
| Listing.PageResumes | apicrud/basic_crud.py:424-449 | a page holds the beginning of what is left, and its cursor leads to exactly what is left then |
| Listing.CountOverWalk | apicrud/basic_crud.py:448-452 | over a whole walk all pages tell the same count: what the database counts, or the number of rows where the database counts more and the rows are less than the limit |
| Listing.WalkIsComplete | apicrud/basic_crud.py:349-456 | following the cursors yields every row in order, each once, in full pages but for the last one, whatever the database counts |
| Listing.ProgressExactlyWhen | apicrud/basic_crud.py:448-449 | a cursor gets a client further if and only if the limit is positive |
| Roles.Climb | apicrud/session_auth.py:408-412 | the loop over the levels grants a member the roles up to the authorization, in order |
| Roles.GetRoles | apicrud/session_auth.py:389-413 | the loops collect, in order, the roles of the memberships that the query finds |
| Roles.RolesExactly | apicrud/session_auth.py:389-413 | a user is given exactly the roles of the levels after the public's up to the authorization of each active membership, of all records or only the one asked for |
| Roles.Reach | apicrud/session_auth.py:407-412 | a member's roles are those of the levels after the public's up to the authorization, or of all levels if the authorization is none of them |
| Roles.ParseRole | apicrud/access.py:374-385 | reading a membership role gives back the ID it was written with, dashes and all, if and only if neither resource nor level has a dash |
| Roles.RoleInjective | apicrud/session_auth.py:410-411 | two memberships have the same role only if they have the same ID and level |
| Roles.PrivacyLadder | apicrud/access.py:274-280 | the roles that get_roles writes open a record of a list to the privacy check if and only if its level is the public's, or the user is an active member of that very list with an authorization that reaches as far up |
| Roles.HigherIncludesLower | apicrud/session_auth.py:407-412 | what a lower authorization opens, a higher one opens as well |
| Access.RememberedExactly | apicrud/session_manager.py:76 | a caller has exactly the roles of the login, which a session keeps joined by colons, if and only if there are any and none has a colon |
| Access.LoginIsRemembered | apicrud/access.py:97-105 | what a session created at a login gives back at a request: the user, and the roles as they were joined |
| Access.MembersMayRead | apicrud/access.py:273-316 | from the membership table through login, session and request to a permission: on a record that no policy gives anything on, the caller may read if and only if it is public, or the caller is an active member of its list with an authorization that reaches up to its privacy level |
| Access.AddActions | apicrud/access.py:290-313 | the loop over the caller's roles adds a policy's actions exactly if some role matches |
| Access.RbacPermissions | apicrud/access.py:238-316 | the actions of all policies that a role matches or, when there are none, the last wildcard's or the privacy default, for the record in place of what the caller passed in |
| Access.PermittedExactly | apicrud/access.py:273-316 | for every action and every table: it is permitted if and only if a policy that gives the record has it; where no giving policy has any action, if and only if the last wildcard has it, or without a wildcard if it is reading and the record is public or shared with the caller |
| Access.SubjectExactly | apicrud/access.py:238-255 | a record is judged by its own owner and privacy and by the list it is in, and only outside any list by what the caller passes in |
| Access.GivesExactly | apicrud/access.py:284-313 | which policies give a record, for each form of principal: by which role the caller must hold, for which owner and list |
| Access.ScopeExactly | apicrud/access.py:289-304 | which records each form of scope fits |
| Access.WithFilter | apicrud/access.py:192-220 | the loop over the policies ends in no filter at all at the first policy that opens the table, and otherwise in the alternative of the conditions gathered |
| Access.EffectExactly | apicrud/access.py:201-219 | for any kind of access, which policies open the table and which let own records through, for each form of principal |
| Access.FilterKeeps | apicrud/access.py:192-220 | the rows that the filter keeps: all if a policy opens the table, the caller's own if a policy says so, and those of an initial condition |
| Access.ListScopeGivesNothing | apicrud/access.py:289-304 | a policy scoped with `{list_id}` gives nothing on any record with an ID, since no ID is filled in to match it with |
| Access.TaggedGivesNothing | apicrud/access.py:97-105 | a policy for a role like `mfarequired:{uid}` gives nothing on any record to anybody whose roles come out of a session |
| Access.KeptIsReadable | apicrud/access.py:273-316 | for policies as a policy file shapes them and own records covered, every row that the filter keeps has read among its permissions |
| Access.ReadableExactly | apicrud/access.py:273-316 | a record may be read if and only if the filter keeps it, or it is shared with the caller as a member of its list, or one of the remaining policies gives it: for events, for lists on a record whose ID is missing, or for a list's role on own records |
| Access.ReadableCustomarily | apicrud/access.py:273-316 | under policies scoped as those of example/rbac.yaml, a record may be read if and only if the filter keeps it or it is shared with the caller as a member of its list |
| Access.UncoveredIsUnsound | apicrud/access.py:213-219 | if own records are let through only by the beginning of a role, some row that the filter keeps may not be read |
| Access.SoundExactlyWhenCovered | apicrud/access.py:213-219 | under policies scoped as those of example/rbac.yaml, every row that the filter keeps may be read if and only if the policies that let the caller's own records through by the beginning of a role are covered by a role held in full |
| Access.StarCaseIsDead | apicrud/access.py:306-313 | after loading, no policy's principal is the one the special case looks for |
| Access.AnyLevelGivesNothing | apicrud/access.py:134-135 | so a policy for `list-*` gives no permission on any record |
| Access.StarPolicyListsUnreadable | apicrud/access.py:213-219 | under such a policy alone, a member gets own records listed that may not be read |
| Grants.GrantCache.Get | apicrud/grants.py:65-85 | a lookup answers from a live entry or loads the user's active grants that have not expired, the last one of a name counting, with the defaults behind them |
| Grants.LoadExactly | apicrud/grants.py:67-75 | a grant is loaded if and only if the table has a row of that user and name that is active and not expired, and it is the last such row's value |
| Grants.LookupExactly | apicrud/grants.py:67-81 | a lookup without a live entry answers with the last such row's value, and without one with the default, if any |
| Grants.GrantCache.Uncache | apicrud/grants.py:149-155 | the user's entry is gone, all others stay |
| Grants.GrantController.CreateRow | apicrud/basic_crud.py:115-120 | on its way the insertion loads the cache of its worker from the table without the new row, unless it is refused before |
| Grants.GrantController.Create | apicrud/controllers/grant.py:14-19 | after a creation, a lookup of that user in any worker process, at any later time, answers from the table with the new row if the process is the one that served the creation or its entry has expired, and otherwise from that entry |
| Grants.GrantController.UpdateHybrid | apicrud/controllers/grant.py:30-36 | after a hybrid update, whatever user the body names, lookups of the ID's user in the same process answer from the entry that the creation found or loaded until it expires, and from the table with the new row from then on |
| Grants.GrantController.Update | apicrud/controllers/grant.py:30-37 | after any other update, lookups in the same process answer from the changed table if the body names their user or their entry has expired, and otherwise from that entry |
| Grants.EntryHasSource | apicrud/grants.py:67-75 | over any run every entry is what the table said when it was loaded, and has not been cleared since |
| Grants.LookupIsRecent | apicrud/grants.py:67-85 | over any run every lookup in one process answers with what the table said at some instant less than the lifetime ago, with no clearing of that user in this process since |
| Numerals.NoLeadingZero | apicrud/utils.py:30-32 | a numeral is that of the quotient with one more digit, and never begins with the zero digit unless the number is zero |
| Numerals.DecodesBack | apicrud/utils.py:30-32 | every number decodes back from its numeral, for every base and ascending character set |
| Numerals.OrderKept | apicrud/utils.py:30-32 | between numerals of one length, the order of texts is that of numbers |
| Numerals.ThreeDigits | apicrud/utils.py:30-35 | a number has exactly three digits if and only if it is from 4096 to 262143 |
| Numerals.RadixExactly | apicrud/utils.py:16-18 | the digits of an ID are a dash, the ten digits, the letters and an underscore |
| Numerals.ThreeCharacterDays | apicrud/utils.py:34-35 | the date part has three characters for every spread if and only if the day is from 512 to 32766 |
| Numerals.DatePartsNeverInvert | apicrud/utils.py:33-36 | on those days the date part of a later day is never less than that of an earlier one |
| Numerals.IdsSortExactlyWhen | apicrud/utils.py:16-36 | IDs with one prefix are sure to sort by date, for all spreads and suffixes, if and only if they are at least two days apart |
| Identity.GmailNormalized | apicrud/utils.py:65-69 | a gmail address becomes the lower-case local part without dots and suffix, at gmail.com |
| Identity.GmailExactly | apicrud/utils.py:65 | an address without a newline is taken for a gmail address if and only if it ends in "@gmail", any character and "com", in whatever case |
| Identity.NewlineExactly | apicrud/utils.py:65 | a newline after an address makes no difference to that, and one within it makes it none |
| Identity.LowerExactly | apicrud/utils.py:69-71 | lower-case texts are the same exactly for texts that differ in the case of letters only |
| Identity.DotIsNothing | apicrud/utils.py:66 | a dot anywhere in the local part of a gmail address makes no difference to its account |
| Identity.SuffixIsNothing | apicrud/utils.py:69 | a suffix makes none |
| Identity.CaseIsNothing | apicrud/utils.py:69 | the case of letters makes none |
| Identity.PlainIsAccount | apicrud/utils.py:66-69 | and what is left without them is the account, so these three are all that makes no difference |
| Identity.GmailSpellings | apicrud/utils.py:63-71 | two spellings of gmail addresses become the same if and only if they differ in nothing but dots, suffix and case of letters |
| Identity.OtherSpellings | apicrud/utils.py:67-69 | two other addresses become the same if and only if they differ in nothing but the suffix and the case of letters |
| Identity.OddSpellings | apicrud/utils.py:70-71 | two texts that have not exactly one "@" become the same if and only if they differ in the case of letters only |
| Identity.NormalizedTwiceExactly | apicrud/utils.py:63-71 | normalizing is idempotent on an address if and only if its suffix does not hide a gmail address from the first test |
| Identity.NormalizeIdempotent | apicrud/utils.py:63-71 | it is idempotent on every address without a newline |
| Identity.NewlineInSuffixHides | apicrud/utils.py:65 | gmail addresses with a dot in the local part and a newline in the suffix are of the kind that drifts |
| BackupCodes.UnpadPad | apicrud/aes_encrypt.py:97-104 | padding (section 6.3 of RFC 5652) is undone on every buffer, and its length is a positive multiple of 16 |
| BackupCodes.DecryptEncrypt | apicrud/aes_encrypt.py:73-95 | for a block cipher that is an inverse pair, decrypting a column gives back the buffer it was made of |
| BackupCodes.NextBlock | apicrud/auth/totp_func.py:57-65 | one step of the scan either finds the digest as the first block of the rest or leaves the question to what follows |
| BackupCodes.Account.UseCode | apicrud/auth/totp_func.py:52-68 | a code is accepted exactly if its digest is among the 16-byte blocks of the decrypted buffer, and then the column is left with the other blocks; otherwise it stays |
| BackupCodes.BlocksConcat | apicrud/auth/totp_func.py:57-65 | a buffer made of digests has exactly these blocks |
| BackupCodes.UseCodeMeaning | apicrud/auth/totp_func.py:52-68 | for a buffer of any digests, encrypted and decrypted, what is scanned are those digests, and what is left is all but the first one that was used, in their order |

## Left out

- Metrics.Recorder.Store: models grant metrics without explicit labels; counters and gauges are a single Redis command each, and `find` and `collect` only format values.
- Metrics.LifetimeConserves: the limit stays the same in the runs of `Metrics`, `MetricsRace` and `RateLimit`; a grant that changes during a lifetime is not covered.
- MetricsRace.RaceBound: the key does not expire between a reading and its write; `Metrics.LateCountDownLocksOut` shows what happens if it does.
- RateLimit.RateLimiter.Call: the pipeline is one step, connection errors (which let a call pass) and the lookup of the user behind an API key or a basic login are left out, and the limit is a parameter in place of its own lookup.
- RateLimit.OwnCallsOnly: services have no colon in their names, and a caller's limit stays the same.
- RateLimit.IntervalBound: runs consist of calls of one service and user; a reset between them and workers whose steps straddle an interval are not part of them.
- Lock.Mutex.Release: a lock that has expired altogether raises an AttributeError in the code, which is the outcome `NothingHeld` here.
- Startup.Database.Migrate: a migration is one step that succeeds, seeding cannot be switched off, and what is migrated or seeded is not modelled; failures other than of reading a version are the action `Crash` of the concurrent model.
- Startup.SeededAtMostOnce: concurrent instances have the same waiting time, which is positive; a waiting time of zero, with which nothing is migrated, is covered by `Startup.Database.Update` only.
- Sessions.SessionManager.Create: encryption and JSON are an inverse pair, and a connection error, on which nothing is returned, is left out.
- Sessions.SessionManager.Get: a stored session without its token raises a KeyError in the code and is None here; no operation stores one.
- Sessions.LookupIsLastRecorded: in runs tokens have at least three characters, nobody sets the token field itself, and updates carry no key ID, under which the code reads one session and writes another.
- Cursor.ParsePrint: `int` also reads signs, blanks and underscores, and base64 decoding skips characters outside its alphabet; the server prints none of these, and here they are rejected.
- Trashcan.Find: filters, the order of rows, the access filter and the model's columns are taken as the given rows; invalid filters, the metadata of records and negative offsets are left out.
- Trashcan.AnswerExactly: a resource exists if there is a table of its name; resources' names are distinct.
- Trashcan.WalkIsComplete: the tables stay the same between the pages, and the limit is positive.
- Listing.Find: the query is taken as the given rows, and the `rbac` and `owner` fields of records are left out.
- Roles.GetRoles: the table of memberships has the column of the resource, and an exception in the query is left out.
- Access.ReadableCustomarily: what is said of example/rbac.yaml is said of the shape of its policies, not of the file; resources' names contain neither `uid` nor `eid`, and no list has the ID "None".
- Access.RbacPermissions: record IDs and user IDs hold no characters of regular expressions; contact's referrer and primary contact, and models whose owner is a referrer, are left out.
- Access.KeptIsReadable: a filter without any condition means whatever the SQL library makes of it, so at least one condition is asked for.
- Grants.GrantCache.Get: values are texts without the conversion to integers; which entry a full cache drops is left open, and defaults do not change.
- Grants.GrantController.Update: which of its checks refuse an update is a parameter.
- Identity.NormalizeIdempotent: letters outside ASCII, for which Python's lower case and its matching regardless of case have rules of their own, are left as they are.
- Numerals.ThreeCharacterDays: days before 2018 are left out; the alphabet is the one of `gen_id`.
- BackupCodes.Account.UseCode: the buffer that a login writes back is not encrypted, so only a single login is covered; the digest of a code is a parameter.
- The internals of AES, MD5, SHA, JWT and TOTP, logins by OAuth and LDAP, passwords, messages, media, geocoding, configuration, logging and translation are left out.
