/** Role-based access: `AccessControl.rbac_permissions` evaluates one record, `with_filter` turns the
    same policies into a filter over a whole table. */
module Access {
  import opened Wrappers
  import opened Texts
  import Redis
  import Roles
  import Sessions

  /** The forms in which a policy names its principal, after loading: `.*`, a role's name,
      `user/{uid}` or `person/{uid}`, `list-.*`, `list-{list_id}-member`, and `mfarequired:{uid}`. */
  datatype Principal =
    | Anyone
    | Plain(name: string)
    | Owner(kind: string)
    | AnyLevel(resource: string)
    | Level(resource: string, keyword: string, level: string)
    | Tagged(name: string)
  {
    /** The text of the loaded policy. */
    function Text(): string {
      match this
      case Anyone => ".*"
      case Plain(name) => name
      case Owner(kind) => kind + "/{uid}"
      case AnyLevel(resource) => resource + "-.*"
      case Level(resource, keyword, level) => resource + "-{" + keyword + "}-" + level
      case Tagged(name) => name + ":{uid}"
    }

    /** The text with the keywords filled in: both list keywords stand for the same ID. */
    function Filled(id: string, owner: string): string {
      match this
      case Anyone => ".*"
      case Plain(name) => name
      case Owner(kind) => kind + "/" + owner
      case AnyLevel(resource) => resource + "-.*"
      case Level(resource, _, level) => Roles.RoleText(resource, id, level)
      case Tagged(name) => name + ":" + owner
    }

    /** `re.match` of the text, taken as a regular expression, with the beginning of a role. */
    predicate Begins(role: string) {
      match this
      case Anyone => true
      case AnyLevel(resource) => resource + "-" <= role
      case _ => Text() <= role
    }
  }

  /** What follows the resource's name: `*`, `{uid}`, `{list_id}` or `{eid}`. */
  datatype Scope = Every | OfUser | OfList | OfEvent {
    function Text(): string {
      match this
      case Every => ".*"
      case OfUser => "{uid}"
      case OfList => "{list_id}"
      case OfEvent => "{eid}"
    }
  }

  datatype Policy = Policy(principal: Principal, scope: Scope, actions: set<char>)

  /** A logged-in user's roles and ID; without a login there are no roles. */
  datatype Caller = Caller(auth: seq<string>, uid: Option<string>)

  datatype Model = Model(resource: string, hasPrivacy: bool)

  /** A record of a model with an owner: `listId` is set where the model has that column. */
  datatype Row = Row(uid: Option<string>, privacy: Option<string>, listId: Option<string>)

  /** What a record is judged by: its owner, and the membership that defines its privacy. */
  datatype Subject = Subject(owner: Option<string>, membership: Option<string>, id: Option<string>,
                             privacy: Option<string>)

  /** Python's printing of a value that may be None. */
  function Show(value: Option<string>): string {
    if value.Some? then value.value else "None"
  }

  /** The record takes precedence over the membership that the caller passes in. */
  function SubjectOf(row: Row, primary: string, membership: Option<string>, id: Option<string>): Subject {
    var m, i := if row.listId.Some? then Some(primary) else membership, if row.listId.Some? then row.listId else id;
    Subject(row.uid, if i.None? || i.value == "" then None else m, i, row.privacy)
  }

  predicate Contains(text: string, part: string) {
    part <= text || (text != "" && Contains(text[1..], part))
  }

  /** The ID a policy's resource is matched with. */
  function MatchId(model: Model, scope: Scope, caller: Caller, subject: Subject): Option<string> {
    var text := model.resource + ":" + scope.Text();
    if Contains(text, "uid") then caller.uid
    else if Contains(text, "eid") then subject.id
    else None
  }

  predicate ScopeMatches(model: Model, scope: Scope, caller: Caller, subject: Subject) {
    var matched := Show(MatchId(model, scope, caller, subject));
    match scope
    case Every => true
    case OfUser => matched == Show(subject.owner)
    case OfList => matched == Show(subject.id)
    case OfEvent => matched == Show(subject.id)
  }

  function FilledRole(role: string, caller: Caller): string {
    if role == "person" || role == "user" then role + "/" + Show(caller.uid) else role
  }

  /** Whether one of the caller's roles gets a policy's actions on the record. */
  predicate RoleMatches(model: Model, policy: Policy, role: string, caller: Caller, subject: Subject) {
    && (|| policy.principal.Filled(Show(subject.id), Show(subject.owner)) == FilledRole(role, caller)
        || (policy.principal.Text() == Show(subject.membership) + "-*" &&
            Split(role, '-')[0] == Show(subject.membership)))
    && ScopeMatches(model, policy.scope, caller, subject)
  }

  predicate Gives(model: Model, policy: Policy, caller: Caller, subject: Subject) {
    !policy.principal.Anyone? && exists role | role in caller.auth :: RoleMatches(model, policy, role, caller, subject)
  }

  function ActionsOf(model: Model, policies: seq<Policy>, caller: Caller, subject: Subject): set<char> {
    if policies == [] then {}
    else
      ActionsOf(model, policies[..|policies| - 1], caller, subject) +
      var last := policies[|policies| - 1];
      if Gives(model, last, caller, subject) then last.actions else {}
  }

  /** The caller holds the role of the record's privacy level in the record's own membership. */
  predicate SharedWith(caller: Caller, subject: Subject) {
    subject.id.Some? &&
    Roles.SharedWith(caller.auth, Show(subject.membership), subject.id.value, Show(subject.privacy))
  }

  function PrivacyDefault(caller: Caller, subject: Subject): set<char> {
    if subject.privacy == Some("public") || SharedWith(caller, subject) then {'r'} else {}
  }

  /** The last wildcard policy replaces whatever the defaults were. */
  function DefaultsOf(policies: seq<Policy>, initial: set<char>): set<char> {
    if policies == [] then initial
    else
      var last := policies[|policies| - 1];
      if last.principal.Anyone? then last.actions else DefaultsOf(policies[..|policies| - 1], initial)
  }

  function Permissions(model: Model, policies: seq<Policy>, caller: Caller, subject: Subject): set<char> {
    var actions := ActionsOf(model, policies, caller, subject);
    if actions != {} then actions else DefaultsOf(policies, PrivacyDefault(caller, subject))
  }

  /** The loop over the caller's roles for one policy. */
  method AddActions(model: Model, policy: Policy, caller: Caller, subject: Subject, actions: set<char>)
    returns (more: set<char>)
    ensures more == actions + if exists role | role in caller.auth :: RoleMatches(model, policy, role, caller, subject)
                              then policy.actions else {}
  {
    more := actions;
    for r := 0 to |caller.auth|
      invariant more == actions + if exists k | 0 <= k < r :: RoleMatches(model, policy, caller.auth[k], caller, subject)
                                  then policy.actions else {}
    {
      var matches := RoleMatches(model, policy, caller.auth[r], caller, subject);
      if matches {
        more := more + policy.actions;
      }
    }
  }

  method RbacPermissions(model: Model, policies: seq<Policy>, caller: Caller, primary: string, row: Row,
                         membership: Option<string>, id: Option<string>)
    returns (permissions: set<char>)
    requires model.resource != "contact"
    ensures permissions == Permissions(model, policies, caller, SubjectOf(row, primary, membership, id))
  {
    var subject := SubjectOf(row, primary, membership, id);
    var actions, defaults := {}, PrivacyDefault(caller, subject);
    for p := 0 to |policies|
      invariant actions == ActionsOf(model, policies[..p], caller, subject)
      invariant defaults == DefaultsOf(policies[..p], PrivacyDefault(caller, subject))
    {
      var policy := policies[p];
      assert policies[..p + 1][..p] == policies[..p];
      if policy.principal.Anyone? {
        defaults := policy.actions;
      } else {
        actions := AddActions(model, policy, caller, subject, actions);
      }
    }
    assert policies[..|policies|] == policies;
    return if actions != {} then actions else defaults;
  }

  // --- the filter -------------------------------------------------------------------------------------------

  datatype Condition = IsPublic | IsOwn

  /** Either no filter at all, or an alternative of conditions. */
  datatype Filter = Everything | AnyOf(conditions: seq<Condition>)

  /** The part of a principal's text before the first slash. */
  function Kind(principal: Principal): string {
    Split(principal.Text(), '/')[0]
  }

  datatype Effect = Opens | Owned | Nothing

  /** What one policy contributes to the filter. */
  function EffectOf(policy: Policy, caller: Caller, access: char): Effect {
    if access !in policy.actions then Nothing
    else if policy.principal.Anyone? then Opens
    else if policy.scope.Every? && policy.principal.Text() in caller.auth then Opens
    else if policy.scope.OfUser? && Kind(policy.principal) in {"person", "user"} && Kind(policy.principal) in caller.auth
    then Owned
    else if policy.scope.OfUser? && exists role | role in caller.auth :: policy.principal.Begins(role) then Owned
    else Nothing
  }

  function FilterOf(policies: seq<Policy>, caller: Caller, access: char, conditions: seq<Condition>): Filter {
    if policies == [] then AnyOf(conditions)
    else
      match EffectOf(policies[0], caller, access)
      case Opens => Everything
      case Owned => FilterOf(policies[1..], caller, access, conditions + [IsOwn])
      case Nothing => FilterOf(policies[1..], caller, access, conditions)
  }

  function InitialConditions(model: Model): seq<Condition> {
    if model.hasPrivacy then [IsPublic] else []
  }

  lemma FilterFrom(policies: seq<Policy>, p: nat, caller: Caller, access: char, conditions: seq<Condition>)
    requires p < |policies|
    ensures FilterOf(policies[p..], caller, access, conditions) ==
            match EffectOf(policies[p], caller, access)
            case Opens => Everything
            case Owned => FilterOf(policies[p + 1..], caller, access, conditions + [IsOwn])
            case Nothing => FilterOf(policies[p + 1..], caller, access, conditions)
  {
    assert policies[p..][1..] == policies[p + 1..];
  }

  method WithFilter(model: Model, policies: seq<Policy>, caller: Caller, access: char) returns (filter: Filter)
    requires model.resource != "contact"
    ensures filter == FilterOf(policies, caller, access, InitialConditions(model))
  {
    var conditions := InitialConditions(model);
    for p := 0 to |policies|
      invariant FilterOf(policies, caller, access, InitialConditions(model)) ==
                FilterOf(policies[p..], caller, access, conditions)
    {
      var policy := policies[p];
      FilterFrom(policies, p, caller, access, conditions);
      if policy.principal.Anyone? && access in policy.actions {
        return Everything;
      }
      if caller.auth != [] {
        if policy.scope.Every? && policy.principal.Text() in caller.auth && access in policy.actions {
          return Everything;
        } else if policy.scope.OfUser? && Kind(policy.principal) in {"person", "user"} &&
                  Kind(policy.principal) in caller.auth && access in policy.actions {
          conditions := conditions + [IsOwn];
        } else if policy.scope.OfUser? && access in policy.actions {
          var r := 0;
          while r < |caller.auth|
            invariant 0 <= r <= |caller.auth|
            invariant forall k | 0 <= k < r :: !policy.principal.Begins(caller.auth[k])
          {
            if policy.principal.Begins(caller.auth[r]) {
              conditions := conditions + [IsOwn];
              break;
            }
            r := r + 1;
          }
          assert EffectOf(policy, caller, access) == if r < |caller.auth| then Owned else Nothing;
        }
      }
    }
    assert policies[|policies|..] == [];
    return AnyOf(conditions);
  }

  predicate Holds(condition: Condition, caller: Caller, row: Row) {
    match condition
    case IsPublic => row.privacy == Some("public")
    case IsOwn => row.uid == caller.uid
  }

  /** Whether a row gets through the filter. What an empty alternative means is up to the database
      library; here it keeps nothing, and the main results leave it out. */
  predicate Kept(filter: Filter, caller: Caller, row: Row) {
    filter.Everything? || exists c | c in filter.conditions :: Holds(c, caller, row)
  }

  /** Roles as a session hands them on: joined into one text at the login, split at each request. */
  function Remembered(roles: seq<string>): seq<string> {
    Split(Join(roles, ":"), ':')
  }

  // --- the filter against the evaluator ---------------------------------------------------------------------

  /** Names without the characters that carry meaning in a policy. */
  predicate Simple(name: string) {
    '/' !in name && '*' !in name && '{' !in name
  }

  /** Principals as a policy file names them. */
  ghost predicate WellNamed(principal: Principal) {
    match principal
    case Anyone => true
    case Plain(name) => Simple(name) && name != "person" && name != "user"
    case Owner(kind) => kind == "person" || kind == "user"
    case AnyLevel(resource) => Simple(resource)
    case Level(resource, keyword, level) => Simple(resource) && Simple(keyword) && Simple(level)
    case Tagged(name) => Simple(name)
  }

  /** Policies as a policy file shapes them. */
  ghost predicate WellShaped(policy: Policy) {
    && WellNamed(policy.principal)
    && (!policy.principal.Anyone? ==>
          'r' in policy.actions && (policy.scope.Every? ==> policy.principal.Plain?))
  }

  /** A whole table for one caller: only the wildcard may lack 'r', and there is at most one. */
  ghost predicate WellFormed(model: Model, policies: seq<Policy>, caller: Caller) {
    && (forall p | p in policies :: WellShaped(p))
    && (forall i, j | 0 <= i < j < |policies| :: !policies[i].principal.Anyone? || !policies[j].principal.Anyone?)
    && (model.hasPrivacy ==> forall p | p in policies :: p.principal.Anyone? ==> 'r' in p.actions)
    && caller.uid.Some? && caller.uid.value != "None"
    && (forall role | role in caller.auth :: Simple(role))
  }

  /** A policy by which the caller may read what the caller owns, through a role that is held. */
  predicate OwnerReads(policy: Policy, caller: Caller) {
    policy.scope.OfUser? &&
    match policy.principal
    case Plain(name) => name in caller.auth
    case Owner(kind) => kind in caller.auth
    case _ => false
  }

  /** If the filter lets the caller's own records through because of how a role begins, then some role
      that is held in full lets the caller read them. */
  ghost predicate Covered(policies: seq<Policy>, caller: Caller) {
    || (exists p | p in policies :: EffectOf(p, caller, 'r').Opens?)
    || (forall p | p in policies :: !EffectOf(p, caller, 'r').Owned?)
    || (exists q | q in policies :: OwnerReads(q, caller))
  }

  ghost predicate RowOf(model: Model, row: Row, caller: Caller, subject: Subject) {
    && (model.hasPrivacy <==> row.privacy.Some?)
    && subject.owner == row.uid && subject.privacy == row.privacy
    && (row.privacy.None? ==> !SharedWith(caller, subject))
  }

  /** Roles as they come out of a session. */
  predicate FromSession(caller: Caller) {
    forall role | role in caller.auth :: ':' !in role
  }

  /** Policies that may give something on a record without the filter having a condition for it: those
      for events, those for lists that match the record, those that ask for a list's role on own
      records, and tagged ones, for a caller whose roles come from elsewhere than a session. */
  predicate Unfiltered(model: Model, policy: Policy, caller: Caller, subject: Subject) {
    match policy.scope
    case Every => false
    case OfUser => policy.principal.Level? || (policy.principal.Tagged? && !FromSession(caller))
    case OfList => ScopeMatches(model, OfList, caller, subject)
    case OfEvent => true
  }

  /** The name does not look like a keyword to the matching of IDs. */
  predicate PlainResource(model: Model) {
    !Contains(model.resource, "uid") && !Contains(model.resource, "eid")
  }

  lemma {:induction false} ContainsAfter(before: string, part: string, after: string)
    ensures Contains(before + part + after, part)
  {
    var text := before + part + after;
    if before == "" {
      assert text == part + after;
    } else {
      ContainsAfter(before[1..], part, after);
      assert text[1..] == before[1..] + part + after;
    }
  }

  lemma UserScope(model: Model, caller: Caller, subject: Subject)
    requires caller.uid.Some? && caller.uid.value != "None"
    ensures ScopeMatches(model, OfUser, caller, subject) <==> subject.owner == caller.uid
  {
    ContainsAfter(model.resource + ":{", "uid", "}");
    assert model.resource + ":" + "{uid}" == model.resource + ":{" + "uid" + "}";
  }

  lemma {:induction false} ContainsNeedsFirst(text: string, part: string)
    requires part != "" && part[0] !in text
    ensures !Contains(text, part)
  {
    if text != "" {
      ContainsNeedsFirst(text[1..], part);
    }
  }

  /** A part without the mark does not reach across it. */
  lemma {:induction false} ContainsAround(before: string, mark: char, after: string, part: string)
    requires mark !in part && part != ""
    ensures Contains(before + [mark] + after, part) <==> Contains(before, part) || Contains(after, part)
  {
    var text := before + [mark] + after;
    assert |before| < |part| ==> part[|before|] in part;
    assert part <= text ==> part <= before;
    assert part <= before ==> part <= text;
    if before == "" {
      assert text[1..] == after && text[0] == mark && part[0] in part;
    } else {
      assert text[1..] == before[1..] + [mark] + after;
      ContainsAround(before[1..], mark, after, part);
    }
  }

  lemma ScopeHasNo(resource: string, scope: string, part: string)
    requires part != "" && ':' !in part && part[0] !in scope && !Contains(resource, part)
    ensures !Contains(resource + ":" + scope, part)
  {
    ContainsNeedsFirst(scope, part);
    ContainsAround(resource, ':', scope, part);
    assert resource + ":" + scope == resource + [':'] + scope;
  }

  /** A policy for `{list_id}` is matched with no ID at all: it gives something only on a record whose
      ID prints like a missing one. */
  lemma ListScope(model: Model, caller: Caller, subject: Subject)
    requires PlainResource(model)
    ensures ScopeMatches(model, OfList, caller, subject) <==> Show(subject.id) == "None"
  {
    ScopeHasNo(model.resource, OfList.Text(), "uid");
    ScopeHasNo(model.resource, OfList.Text(), "eid");
  }

  /** So it gives nothing on any record with an ID, to anybody. */
  lemma ListScopeGivesNothing(model: Model, policy: Policy, caller: Caller, subject: Subject)
    requires PlainResource(model) && policy.scope.OfList? && Show(subject.id) != "None"
    ensures !Gives(model, policy, caller, subject)
  {
    ListScope(model, caller, subject);
  }

  lemma NoKind(text: string, i: nat)
    requires i < |text| && (text[i] == '*' || text[i] == '{' || text[i] == '}')
    ensures text != "person" && text != "user"
  {
  }

  lemma KindOf(policy: Policy)
    requires WellNamed(policy.principal) && !policy.principal.Anyone?
    ensures Kind(policy.principal) in {"person", "user"} <==> policy.principal.Owner?
    ensures policy.principal.Owner? ==> Kind(policy.principal) == policy.principal.kind
  {
    var text := policy.principal.Text();
    if policy.principal.Owner? {
      var kind := policy.principal.kind;
      assert text == kind + ['/'] + "{uid}";
      SplitAt(kind, '/', "{uid}");
    } else {
      SplitNoMark(text, '/');
      match policy.principal {
        case Plain(name) =>
        case Level(resource, keyword, level) => NoKind(text, |resource| + 1);
        case AnyLevel(resource) => NoKind(text, |text| - 1);
        case Tagged(name) => NoKind(text, |text| - 1);
      }
    }
  }

  /** In `rbac_permissions`, the special case for principals like `list-*` never applies: loading
      has turned the star into `.*`. */
  lemma StarCaseIsDead(policy: Policy, membership: Option<string>)
    requires WellNamed(policy.principal)
    ensures policy.principal.Text() != Show(membership) + "-*"
  {
    var text, dead := policy.principal.Text(), Show(membership) + "-*";
    assert dead[|dead| - 1] == '*' && dead[|dead| - 2] == '-';
    match policy.principal {
      case Anyone =>
      case Plain(name) =>
      case Owner(kind) => assert text[|text| - 1] == '}';
      case AnyLevel(resource) => assert text[|text| - 2] == '.';
      case Level(resource, keyword, level) =>
        assert text[|text| - 1] == if level == "" then '-' else level[|level| - 1];
      case Tagged(name) => assert text[|text| - 1] == '}';
    }
  }

  /** So a `list-*` policy, which the filter honours, gives nothing on any record. */
  lemma AnyLevelGivesNothing(model: Model, policy: Policy, caller: Caller, subject: Subject)
    requires WellNamed(policy.principal) && policy.principal.AnyLevel?
    requires forall role | role in caller.auth :: Simple(role)
    ensures !Gives(model, policy, caller, subject)
  {
    StarCaseIsDead(policy, subject.membership);
    var filled := policy.principal.Filled(Show(subject.id), Show(subject.owner));
    assert filled[|filled| - 1] == '*';
    forall role | role in caller.auth ensures filled != FilledRole(role, caller) {
      if role == "person" || role == "user" {
        assert FilledRole(role, caller)[|role|] == '/';
      }
    }
  }

  lemma RememberedIsFromSession(roles: seq<string>, uid: Option<string>)
    ensures FromSession(Caller(Remembered(roles), uid))
  {
  }

  /** A text with a mark after a name is nobody's role as the owner of something. */
  lemma MarkedIsNoOwner(name: string, mark: char, rest: string, kind: string, uid: string)
    requires '/' !in name && mark != '/' && mark !in kind
    ensures name + [mark] + rest != kind + "/" + uid
  {
    var marked, owned := name + [mark] + rest, kind + "/" + uid;
    assert marked[|name|] == mark && owned[|kind|] == '/';
    assert |kind| < |name| ==> name[|kind|] in name;
    assert |name| < |kind| ==> kind[|name|] in kind;
    assert |kind| < |name| ==> marked[|kind|] != '/';
    assert |name| < |kind| ==> owned[|name|] != mark;
  }

  /** So only a role of just that text matches it. */
  lemma MarkedRole(name: string, mark: char, rest: string, role: string, caller: Caller)
    requires '/' !in name && (mark == ':' || mark == '-')
    ensures name + [mark] + rest == FilledRole(role, caller) <==> name + [mark] + rest == role
  {
    assert (name + [mark] + rest)[|name|] == mark;
    assert mark !in "person" && mark !in "user";
    if role == "person" || role == "user" {
      MarkedIsNoOwner(name, mark, rest, role, Show(caller.uid));
      assert mark in name + [mark] + rest;
    }
  }

  /** A policy for a role like `mfarequired:{uid}` gives nothing on any record to anybody, since no role
      survives a session with a colon in it. */
  lemma TaggedGivesNothing(model: Model, policy: Policy, caller: Caller, subject: Subject)
    requires WellNamed(policy.principal) && policy.principal.Tagged? && FromSession(caller)
    ensures !Gives(model, policy, caller, subject)
  {
    StarCaseIsDead(policy, subject.membership);
    forall role | role in caller.auth
      ensures policy.principal.Filled(Show(subject.id), Show(subject.owner)) != FilledRole(role, caller)
    {
      var name, owner := policy.principal.name, Show(subject.owner);
      MarkedRole(name, ':', owner, role, caller);
      assert name + ":" + owner == name + [':'] + owner && ':' in name + [':'] + owner;
    }
  }

  // --- what a policy gives, and what it lets through, by its shape --------------------------------------

  /** A policy's scope fits a record: always, if the record is the caller's own, if it has no list, or always. */
  lemma ScopeExactly(model: Model, scope: Scope, caller: Caller, subject: Subject)
    requires PlainResource(model)
    ensures ScopeMatches(model, scope, caller, subject) <==>
            match scope
            case Every => true
            case OfUser => Show(caller.uid) == Show(subject.owner)
            case OfList => Show(subject.id) == "None"
            case OfEvent => true
  {
    match scope {
      case Every =>
      case OfUser =>
        ContainsAfter(model.resource + ":{", "uid", "}");
        assert model.resource + ":" + "{uid}" == model.resource + ":{" + "uid" + "}";
      case OfList => ListScope(model, caller, subject);
      case OfEvent =>
        ScopeHasNo(model.resource, OfEvent.Text(), "uid");
        ContainsAfter(model.resource + ":{", "eid", "}");
        assert model.resource + ":" + "{eid}" == model.resource + ":{" + "eid" + "}";
    }
  }

  lemma OwnersRole(kind: string, owner: string, role: string, caller: Caller)
    requires (kind == "person" || kind == "user") && '/' !in role
    requires kind + "/" + owner == FilledRole(role, caller)
    ensures role == kind
  {
    var owned := kind + "/" + owner;
    assert owned[|kind|] == '/' && owned[0] == kind[0];
    assert |kind| < |role| ==> role[|kind|] in role;
  }

  lemma OwnersMatch(kind: string, owner: string, role: string, caller: Caller)
    requires (kind == "person" || kind == "user") && '/' !in role
    ensures kind + "/" + owner == FilledRole(role, caller) <==> role == kind && owner == Show(caller.uid)
  {
    if kind + "/" + owner == FilledRole(role, caller) {
      OwnersRole(kind, owner, role, caller);
      assert (kind + "/" + owner)[|kind| + 1..] == owner && (kind + "/" + Show(caller.uid))[|kind| + 1..] == Show(caller.uid);
    }
  }

  lemma PlainsRole(name: string, role: string, caller: Caller)
    requires '/' !in name
    ensures name == FilledRole(role, caller) ==> role == name
    ensures name != "person" && name != "user" ==> (name == FilledRole(role, caller) <==> role == name)
  {
    assert (role + "/" + Show(caller.uid))[|role|] == '/';
  }

  /** A policy gives its actions on a record to a caller whose roles have none of a policy's marks, if its scope
      fits and the caller holds the role it names: as it stands, as the owner's, of the record's own list
      with that level, or with the owner's ID after a colon. */
  lemma GivesExactly(model: Model, policy: Policy, caller: Caller, subject: Subject)
    requires WellNamed(policy.principal) && (forall role | role in caller.auth :: Simple(role))
    ensures Gives(model, policy, caller, subject) <==>
            && ScopeMatches(model, policy.scope, caller, subject)
            && match policy.principal
               case Anyone => false
               case Plain(name) => name in caller.auth
               case Owner(kind) => kind in caller.auth && Show(subject.owner) == Show(caller.uid)
               case AnyLevel(_) => false
               case Level(resource, _, level) => resource + "-" + Show(subject.id) + "-" + level in caller.auth
               case Tagged(name) => name + ":" + Show(subject.owner) in caller.auth
  {
    var owner, id, filled := Show(subject.owner), Show(subject.id), policy.principal.Filled(Show(subject.id), Show(subject.owner));
    StarCaseIsDead(policy, subject.membership);
    match policy.principal {
      case Anyone =>
      case Plain(name) =>
        forall role | role in caller.auth ensures filled == FilledRole(role, caller) <==> role == name {
          PlainsRole(name, role, caller);
        }
      case Owner(kind) =>
        forall role | role in caller.auth
          ensures filled == FilledRole(role, caller) <==> role == kind && owner == Show(caller.uid)
        {
          OwnersMatch(kind, owner, role, caller);
        }
      case AnyLevel(_) => AnyLevelGivesNothing(model, policy, caller, subject);
      case Level(resource, _, level) =>
        assert filled == resource + ['-'] + (id + "-" + level);
        forall role | role in caller.auth ensures filled == FilledRole(role, caller) <==> filled == role {
          MarkedRole(resource, '-', id + "-" + level, role, caller);
        }
      case Tagged(name) =>
        assert filled == name + [':'] + owner;
        forall role | role in caller.auth ensures filled == FilledRole(role, caller) <==> filled == role {
          MarkedRole(name, ':', owner, role, caller);
        }
    }
  }

  lemma TextIsNoRole(policy: Policy, caller: Caller)
    requires WellNamed(policy.principal) && !policy.principal.Anyone?
    requires forall role | role in caller.auth :: Simple(role)
    ensures !policy.principal.Plain? ==> forall role | role in caller.auth :: !(policy.principal.Text() <= role)
  {
    if !policy.principal.Plain? {
      var text := policy.principal.Text();
      assert '{' in text || '*' in text by {
        match policy.principal {
          case Owner(kind) => assert text[|text| - 5] == '{';
          case AnyLevel(resource) => assert text[|text| - 1] == '*';
          case Level(resource, keyword, level) => assert text[|resource| + 1] == '{';
          case Tagged(name) => assert text[|text| - 5] == '{';
        }
      }
      forall role | role in caller.auth ensures !(text <= role) {
        assert text <= role ==> forall c | c in text :: c in role;
      }
    }
  }

  /** For any kind of access: a policy opens the table to everybody or to the holder of a plain role, and lets
      the caller's own records through for the holder of an owner's role, or of any role that begins
      with the name of a plain one or of a resource. */
  lemma EffectExactly(policy: Policy, caller: Caller, access: char)
    requires WellNamed(policy.principal) && (forall role | role in caller.auth :: Simple(role))
    ensures EffectOf(policy, caller, access).Opens? <==>
            && access in policy.actions
            && (policy.principal.Anyone? ||
                (policy.scope.Every? && policy.principal.Plain? && policy.principal.name in caller.auth))
    ensures EffectOf(policy, caller, access).Owned? <==>
            && access in policy.actions && policy.scope.OfUser?
            && match policy.principal
               case Plain(name) => exists role | role in caller.auth :: name <= role
               case Owner(kind) => kind in caller.auth
               case AnyLevel(resource) => exists role | role in caller.auth :: resource + "-" <= role
               case _ => false
  {
    if !policy.principal.Anyone? {
      KindOf(policy);
      TextIsNoRole(policy, caller);
    }
  }

  lemma OwnGives(model: Model, policy: Policy, caller: Caller, subject: Subject)
    requires caller.uid.Some? && caller.uid.value != "None" && subject.owner == caller.uid && policy.scope.OfUser?
    requires || (policy.principal.Owner? && policy.principal.kind in caller.auth &&
                 (policy.principal.kind == "person" || policy.principal.kind == "user"))
             || (WellShaped(policy) && policy.principal.Plain? && policy.principal.name in caller.auth)
    ensures Gives(model, policy, caller, subject)
  {
    UserScope(model, caller, subject);
    var role := if policy.principal.Owner? then policy.principal.kind else policy.principal.name;
    assert RoleMatches(model, policy, role, caller, subject);
  }

  /** What opens a whole table for the filter gives every record. */
  lemma OpeningGives(model: Model, policy: Policy, caller: Caller, subject: Subject)
    requires WellShaped(policy) && !policy.principal.Anyone? && EffectOf(policy, caller, 'r').Opens?
    ensures Gives(model, policy, caller, subject)
  {
    assert RoleMatches(model, policy, policy.principal.name, caller, subject);
  }

  /** What the evaluator gives by a policy that the filter knows of, the filter lets through. */
  lemma GivenHasEffect(model: Model, policy: Policy, caller: Caller, subject: Subject)
    requires WellShaped(policy) && Gives(model, policy, caller, subject) && !Unfiltered(model, policy, caller, subject)
    requires caller.uid.Some? && caller.uid.value != "None"
    requires forall role | role in caller.auth :: Simple(role)
    ensures var effect := EffectOf(policy, caller, 'r');
            effect.Opens? || (effect.Owned? && subject.owner == caller.uid && OwnerReads(policy, caller))
  {
    if policy.principal.Tagged? && FromSession(caller) {
      TaggedGivesNothing(model, policy, caller, subject);
    }
    StarCaseIsDead(policy, subject.membership);
    KindOf(policy);
    UserScope(model, caller, subject);
    var role :| role in caller.auth && RoleMatches(model, policy, role, caller, subject);
    match policy.principal {
      case Plain(name) => PlainsRole(name, role, caller);
      case Owner(kind) => OwnersRole(kind, Show(subject.owner), role, caller);
      case AnyLevel(_) => AnyLevelGivesNothing(model, policy, caller, subject);
    }
  }

  // --- the permissions, action by action ---------------------------------------------------------------------

  lemma {:induction false} ActionsExactly(model: Model, policies: seq<Policy>, caller: Caller, subject: Subject, a: char)
    ensures a in ActionsOf(model, policies, caller, subject) <==>
            exists p | p in policies :: Gives(model, p, caller, subject) && a in p.actions
  {
    if policies != [] {
      var before, last := policies[..|policies| - 1], policies[|policies| - 1];
      ActionsExactly(model, before, caller, subject, a);
      assert forall p :: p in policies <==> p in before || p == last by {
        assert policies == before + [last];
      }
    }
  }

  /** Policy i is the last wildcard of the table. */
  ghost predicate LastWildcard(policies: seq<Policy>, i: int) {
    && 0 <= i < |policies| && policies[i].principal.Anyone?
    && forall j | i < j < |policies| :: !policies[j].principal.Anyone?
  }

  lemma {:induction false} DefaultsExactly(policies: seq<Policy>, initial: set<char>, a: char)
    ensures a in DefaultsOf(policies, initial) <==>
            || (exists i :: LastWildcard(policies, i) && a in policies[i].actions)
            || (a in initial && forall p | p in policies :: !p.principal.Anyone?)
  {
    if policies != [] {
      var before, last := policies[..|policies| - 1], policies[|policies| - 1];
      assert policies == before + [last];
      DefaultsExactly(before, initial, a);
      if last.principal.Anyone? {
        assert last in policies && LastWildcard(policies, |policies| - 1);
      } else {
        forall i ensures LastWildcard(policies, i) <==> LastWildcard(before, i) {}
      }
    }
  }

  /** An action is permitted if and only if a policy that gives the record has it. Where no giving policy has any
      action, it is permitted if and only if the last wildcard has it, or without a wildcard if it is
      reading and the record is public or shared with the caller as a member. */
  lemma PermittedExactly(model: Model, policies: seq<Policy>, caller: Caller, subject: Subject, a: char)
    ensures a in Permissions(model, policies, caller, subject) <==>
            if exists p | p in policies :: Gives(model, p, caller, subject) && p.actions != {}
            then exists p | p in policies :: Gives(model, p, caller, subject) && a in p.actions
            else || (exists i :: LastWildcard(policies, i) && a in policies[i].actions)
                 || (&& a == 'r' && (forall p | p in policies :: !p.principal.Anyone?)
                     && (subject.privacy == Some("public") ||
                         (subject.id.Some? && subject.id.value != "" &&
                          Show(subject.membership) + "-" + subject.id.value + "-" + Show(subject.privacy) in caller.auth)))
  {
    var actions := ActionsOf(model, policies, caller, subject);
    ActionsExactly(model, policies, caller, subject, a);
    DefaultsExactly(policies, PrivacyDefault(caller, subject), a);
    if p :| p in policies && Gives(model, p, caller, subject) && p.actions != {} {
      var b :| b in p.actions;
      ActionsExactly(model, policies, caller, subject, b);
    } else {
      forall b ensures b !in actions {
        ActionsExactly(model, policies, caller, subject, b);
      }
      assert actions == {};
    }
  }

  /** The subject of a record: its own owner and privacy; the list that it is in, and only for a record in no
      list what the caller passes in, of which a membership without an ID is nothing. */
  lemma SubjectExactly(row: Row, primary: string, membership: Option<string>, id: Option<string>, caller: Caller)
    ensures var subject := SubjectOf(row, primary, membership, id);
            && subject.owner == row.uid && subject.privacy == row.privacy
            && subject.id == (match row.listId case Some(list) => Some(list) case None => id)
            && (subject.membership.Some? ==> subject.id.Some? && subject.id.value != "")
            && (SharedWith(caller, subject) <==>
                match row.listId
                case Some(list) => list != "" && primary + "-" + list + "-" + Show(row.privacy) in caller.auth
                case None => id.Some? && id.value != "" &&
                             Show(membership) + "-" + id.value + "-" + Show(row.privacy) in caller.auth)
  {
  }

  lemma {:induction false} ActionsHaveRead(model: Model, policies: seq<Policy>, caller: Caller, subject: Subject)
    requires forall p | p in policies :: !p.principal.Anyone? ==> 'r' in p.actions
    ensures var actions := ActionsOf(model, policies, caller, subject);
            var given := exists p | p in policies :: Gives(model, p, caller, subject);
            ('r' in actions <==> given) && (actions != {} <==> given)
  {
    if policies != [] {
      var before, last := policies[..|policies| - 1], policies[|policies| - 1];
      assert policies == before + [last];
      ActionsHaveRead(model, before, caller, subject);
    }
  }

  lemma {:induction false} DefaultsHaveRead(policies: seq<Policy>, initial: set<char>)
    requires forall i, j | 0 <= i < j < |policies| :: !policies[i].principal.Anyone? || !policies[j].principal.Anyone?
    ensures 'r' in DefaultsOf(policies, initial) <==>
            || (exists p | p in policies :: p.principal.Anyone? && 'r' in p.actions)
            || ('r' in initial && forall p | p in policies :: !p.principal.Anyone?)
  {
    if policies != [] {
      var before, last := policies[..|policies| - 1], policies[|policies| - 1];
      assert policies == before + [last];
      DefaultsHaveRead(before, initial);
      if last.principal.Anyone? {
        assert forall p | p in before :: !p.principal.Anyone?;
      }
    }
  }

  lemma {:induction false} FilterKeeps(policies: seq<Policy>, caller: Caller, access: char, conditions: seq<Condition>, row: Row)
    ensures Kept(FilterOf(policies, caller, access, conditions), caller, row) <==>
            || (exists p | p in policies :: EffectOf(p, caller, access).Opens?)
            || (exists p | p in policies :: EffectOf(p, caller, access).Owned? && row.uid == caller.uid)
            || (exists c | c in conditions :: Holds(c, caller, row))
  {
    if policies != [] {
      var first, rest := policies[0], policies[1..];
      assert policies == [first] + rest && first in policies;
      match EffectOf(first, caller, access) {
        case Opens =>
        case Owned =>
          FilterKeeps(rest, caller, access, conditions + [IsOwn], row);
          assert forall c :: c in conditions + [IsOwn] <==> c in conditions || c == IsOwn;
          assert Holds(IsOwn, caller, row) <==> row.uid == caller.uid;
        case Nothing => FilterKeeps(rest, caller, access, conditions, row);
      }
    }
  }

  /** The filter for reading, which is meaningful when it has a condition at all. */
  function ReadFilter(model: Model, policies: seq<Policy>, caller: Caller): Filter {
    FilterOf(policies, caller, 'r', InitialConditions(model))
  }

  predicate Meaningful(filter: Filter) {
    filter.AnyOf? ==> filter.conditions != []
  }

  /** Every row that the filter keeps may be read. */
  lemma KeptIsReadable(model: Model, policies: seq<Policy>, caller: Caller, subject: Subject, row: Row)
    requires WellFormed(model, policies, caller) && Covered(policies, caller) && RowOf(model, row, caller, subject)
    requires Meaningful(ReadFilter(model, policies, caller)) && Kept(ReadFilter(model, policies, caller), caller, row)
    ensures 'r' in Permissions(model, policies, caller, subject)
  {
    ActionsHaveRead(model, policies, caller, subject);
    DefaultsHaveRead(policies, PrivacyDefault(caller, subject));
    FilterKeeps(policies, caller, 'r', InitialConditions(model), row);
    if p :| p in policies && EffectOf(p, caller, 'r').Opens? {
      if !p.principal.Anyone? {
        OpeningGives(model, p, caller, subject);
      }
    } else if p :| p in policies && EffectOf(p, caller, 'r').Owned? && row.uid == caller.uid {
      var q :| q in policies && OwnerReads(q, caller);
      OwnGives(model, q, caller, subject);
    } else {
      var c :| c in InitialConditions(model) && Holds(c, caller, row);
      assert row.privacy == Some("public");
    }
  }

  /** What the filter does not look at: membership in the record's list, and policies it has no
      condition for. */
  ghost predicate ReadOtherwise(model: Model, policies: seq<Policy>, caller: Caller, subject: Subject) {
    || SharedWith(caller, subject)
    || exists p | p in policies :: Unfiltered(model, p, caller, subject) && Gives(model, p, caller, subject)
  }

  lemma OtherwiseIsReadable(model: Model, policies: seq<Policy>, caller: Caller, subject: Subject, row: Row)
    requires WellFormed(model, policies, caller) && RowOf(model, row, caller, subject)
    requires ReadOtherwise(model, policies, caller, subject)
    ensures 'r' in Permissions(model, policies, caller, subject)
  {
    ActionsHaveRead(model, policies, caller, subject);
    DefaultsHaveRead(policies, PrivacyDefault(caller, subject));
  }

  lemma ReadableIsExplained(model: Model, policies: seq<Policy>, caller: Caller, subject: Subject, row: Row)
    requires WellFormed(model, policies, caller) && RowOf(model, row, caller, subject)
    requires 'r' in Permissions(model, policies, caller, subject)
    ensures Kept(ReadFilter(model, policies, caller), caller, row) || ReadOtherwise(model, policies, caller, subject)
  {
    ActionsHaveRead(model, policies, caller, subject);
    DefaultsHaveRead(policies, PrivacyDefault(caller, subject));
    FilterKeeps(policies, caller, 'r', InitialConditions(model), row);
    if p :| p in policies && Gives(model, p, caller, subject) {
      if !Unfiltered(model, p, caller, subject) {
        GivenHasEffect(model, p, caller, subject);
      }
    } else if p :| p in policies && p.principal.Anyone? && 'r' in p.actions {
      assert EffectOf(p, caller, 'r').Opens?;
    } else if row.privacy == Some("public") {
      assert IsPublic in InitialConditions(model) && Holds(IsPublic, caller, row);
    }
  }

  /** A record may be read if and only if the filter keeps it, or it is shared with the caller as a
      member of its list, or one of the policies that the filter has no condition for gives it. */
  lemma ReadableExactly(model: Model, policies: seq<Policy>, caller: Caller, subject: Subject, row: Row)
    requires WellFormed(model, policies, caller) && Covered(policies, caller) && RowOf(model, row, caller, subject)
    requires Meaningful(ReadFilter(model, policies, caller))
    ensures 'r' in Permissions(model, policies, caller, subject) <==>
            || Kept(ReadFilter(model, policies, caller), caller, row)
            || ReadOtherwise(model, policies, caller, subject)
  {
    if 'r' in Permissions(model, policies, caller, subject) {
      ReadableIsExplained(model, policies, caller, subject, row);
    } else if Kept(ReadFilter(model, policies, caller), caller, row) {
      KeptIsReadable(model, policies, caller, subject, row);
    } else if ReadOtherwise(model, policies, caller, subject) {
      OtherwiseIsReadable(model, policies, caller, subject, row);
    }
  }

  /** Policies as example/rbac.yaml scopes them: lists' roles with `{list_id}`, tagged ones and
      owners with `{uid}`, plain ones with either `*` or `{uid}`. */
  predicate Customary(policy: Policy) {
    match policy.principal
    case Anyone => true
    case Plain(_) => policy.scope.Every? || policy.scope.OfUser?
    case Level(_, _, _) => policy.scope.OfList?
    case _ => policy.scope.OfUser?
  }

  /** A table of such policies, and a caller without the role of a list whose ID is "None". */
  ghost predicate CustomaryTable(policies: seq<Policy>, caller: Caller) {
    forall p | p in policies ::
      Customary(p) && (p.principal.Level? ==> p.principal.Filled("None", "") !in caller.auth)
  }

  lemma CustomaryGivesNothing(model: Model, policy: Policy, caller: Caller, subject: Subject)
    requires WellShaped(policy) && Customary(policy) && Unfiltered(model, policy, caller, subject) && !policy.principal.Anyone?
    requires FromSession(caller) && PlainResource(model)
    requires policy.principal.Level? ==> policy.principal.Filled("None", "") !in caller.auth
    requires forall role | role in caller.auth :: Simple(role)
    ensures !Gives(model, policy, caller, subject)
  {
    StarCaseIsDead(policy, subject.membership);
    ListScope(model, caller, subject);
    var filled := policy.principal.Filled("None", Show(subject.owner));
    assert filled[|filled| - |policy.principal.level|..] == policy.principal.level;
    forall role | role in caller.auth ensures filled != FilledRole(role, caller) {
      if role == "person" || role == "user" {
        assert FilledRole(role, caller)[|role|] == '/';
        assert '/' !in filled;
      }
    }
  }

  /** Under such a table, a record may be read if and only if the filter keeps it, or the caller is a member
      of its list whose role reaches up to the record's privacy level. */
  lemma ReadableCustomarily(model: Model, policies: seq<Policy>, caller: Caller, subject: Subject, row: Row)
    requires WellFormed(model, policies, caller) && Covered(policies, caller) && RowOf(model, row, caller, subject)
    requires FromSession(caller) && PlainResource(model) && CustomaryTable(policies, caller)
    requires Meaningful(ReadFilter(model, policies, caller))
    ensures 'r' in Permissions(model, policies, caller, subject) <==>
            Kept(ReadFilter(model, policies, caller), caller, row) || SharedWith(caller, subject)
  {
    ReadableExactly(model, policies, caller, subject, row);
    forall p | p in policies && Unfiltered(model, p, caller, subject) ensures !Gives(model, p, caller, subject) {
      if !p.principal.Anyone? {
        CustomaryGivesNothing(model, p, caller, subject);
      }
    }
  }

  // --- from the membership table to a permission --------------------------------------------------------------

  /** What a session created at a login gives back at a request, before it expires: the user, and as the
      caller's roles the remembered ones. */
  lemma LoginIsRemembered(store: Redis.Store, uid: string, roles: seq<string>, token: string, exp: string,
                          lifetime: int, issuer: string, extra: Sessions.Content, time: int)
    requires !store.Live(Sessions.Key(uid, token)) && store.now <= time < store.now + lifetime
    requires "jti" !in extra && "auth" !in extra && "sub" !in extra
    ensures var content := Sessions.Claims(uid, roles, issuer, token, exp, extra);
            var after := store.SetNx(Sessions.Key(uid, token), Redis.Sealed(content), Some(lifetime));
            var found := Sessions.Lookup(after.At(time), uid, token);
            && found.Some? && found.value["sub"] == uid
            && Split(found.value["auth"], ':') == Remembered(roles)
  {
    Sessions.CreatedIsFound(store, uid, roles, None, token, exp, lifetime, issuer, extra, time, uid);
    Sessions.ClaimsHold(uid, roles, issuer, token, exp, extra);
  }

  /** A caller has the roles of the login if and only if there are any, and none has a colon. */
  lemma RememberedExactly(roles: seq<string>)
    ensures Remembered(roles) == roles <==> roles != [] && forall role | role in roles :: ':' !in role
  {
    if roles != [] && forall role | role in roles :: ':' !in role {
      SplitJoin(roles, ':');
    }
  }

  lemma {:induction false} NothingAdded(model: Model, policies: seq<Policy>, caller: Caller, subject: Subject)
    requires forall p | p in policies :: !Gives(model, p, caller, subject)
    ensures ActionsOf(model, policies, caller, subject) == {}
  {
    if policies != [] {
      assert policies[|policies| - 1] in policies;
      NothingAdded(model, policies[..|policies| - 1], caller, subject);
    }
  }

  lemma {:induction false} NothingGiven(model: Model, policies: seq<Policy>, caller: Caller, subject: Subject)
    requires forall p | p in policies :: !p.principal.Anyone? && !Gives(model, p, caller, subject)
    ensures Permissions(model, policies, caller, subject) == PrivacyDefault(caller, subject)
  {
    if policies != [] {
      var before := policies[..|policies| - 1];
      assert forall p | p in before :: p in policies;
      NothingGiven(model, before, caller, subject);
      var last := policies[|policies| - 1];
      assert last in policies;
      assert ActionsOf(model, before, caller, subject) == {} by { NothingAdded(model, before, caller, subject); }
    }
  }

  /** On a record that no policy gives anything on, a caller who logged in with some plain roles and
      those of the memberships may read if and only if the record is public, or the caller is an
      active member of its list with an authorization that reaches up to the record's privacy level. */
  lemma MembersMayRead(model: Model, policies: seq<Policy>, caller: Caller, members: seq<Roles.Member>,
                       levels: seq<string>, resource: string, plain: seq<string>, subject: Subject, rung: nat)
    requires Roles.Levels(levels) && '-' !in resource && rung < |levels|
    requires caller.uid.Some? && plain != [] && (forall role | role in plain :: '-' !in role)
    requires var roles := plain + Roles.RolesOf(resource, levels, Roles.Query(members, caller.uid.value, None));
             caller.auth == Remembered(roles) && forall role | role in roles :: ':' !in role
    requires subject.membership == Some(resource) && subject.id.Some? && subject.id.value != ""
    requires subject.privacy == Some(levels[rung])
    requires forall p | p in policies :: !p.principal.Anyone? && !Gives(model, p, caller, subject)
    ensures 'r' in Permissions(model, policies, caller, subject) <==>
            rung == 0 ||
            exists m :: m in members && m.uid == caller.uid.value && m.status == "active" &&
                        m.id == subject.id.value && rung <= Roles.Reach(levels, m.authorization)
  {
    RememberedExactly(plain + Roles.RolesOf(resource, levels, Roles.Query(members, caller.uid.value, None)));
    Roles.PrivacyLadder(members, levels, resource, caller.uid.value, plain, subject.id.value, rung);
    NothingGiven(model, policies, caller, subject);
  }

  // --- when the filter keeps too much -----------------------------------------------------------------------

  /** A record of the caller's own, private and in no list. */
  function OwnRow(model: Model, caller: Caller): Row {
    Row(caller.uid, if model.hasPrivacy then Some("secret") else None, None)
  }

  function OwnSubject(model: Model, caller: Caller): Subject {
    Subject(caller.uid, None, None, OwnRow(model, caller).privacy)
  }

  ghost predicate FilterIsSound(model: Model, policies: seq<Policy>, caller: Caller) {
    forall subject, row | RowOf(model, row, caller, subject) && Kept(ReadFilter(model, policies, caller), caller, row) ::
      'r' in Permissions(model, policies, caller, subject)
  }

  /** A caller whose own records are not covered, and who is given nothing on them by what the filter has no
      condition for, gets one listed that may not be read. */
  lemma UncoveredIsUnsound(model: Model, policies: seq<Policy>, caller: Caller)
    requires WellFormed(model, policies, caller) && Meaningful(ReadFilter(model, policies, caller))
    requires !Covered(policies, caller)
    requires forall p | p in policies && Unfiltered(model, p, caller, OwnSubject(model, caller)) ::
               !Gives(model, p, caller, OwnSubject(model, caller))
    ensures !FilterIsSound(model, policies, caller)
  {
    var row, subject := OwnRow(model, caller), OwnSubject(model, caller);
    ActionsHaveRead(model, policies, caller, subject);
    DefaultsHaveRead(policies, PrivacyDefault(caller, subject));
    FilterKeeps(policies, caller, 'r', InitialConditions(model), row);
    forall p | p in policies ensures !Gives(model, p, caller, subject) {
      if Gives(model, p, caller, subject) {
        GivenHasEffect(model, p, caller, subject);
      }
    }
    forall p | p in policies && p.principal.Anyone? ensures 'r' !in p.actions {
      assert !EffectOf(p, caller, 'r').Opens?;
    }
    assert RowOf(model, row, caller, subject);
  }

  /** Under a table scoped as in example/rbac.yaml: every row that the filter keeps may be read if and only
      if own records are covered. */
  lemma SoundExactlyWhenCovered(model: Model, policies: seq<Policy>, caller: Caller)
    requires WellFormed(model, policies, caller) && Meaningful(ReadFilter(model, policies, caller))
    requires FromSession(caller) && PlainResource(model) && CustomaryTable(policies, caller)
    ensures FilterIsSound(model, policies, caller) <==> Covered(policies, caller)
  {
    if Covered(policies, caller) {
      forall subject, row | RowOf(model, row, caller, subject) && Kept(ReadFilter(model, policies, caller), caller, row)
        ensures 'r' in Permissions(model, policies, caller, subject)
      {
        KeptIsReadable(model, policies, caller, subject, row);
      }
    } else {
      var subject := OwnSubject(model, caller);
      forall p | p in policies && Unfiltered(model, p, caller, subject) ensures !Gives(model, p, caller, subject) {
        if !p.principal.Anyone? {
          CustomaryGivesNothing(model, p, caller, subject);
        }
      }
      UncoveredIsUnsound(model, policies, caller);
    }
  }

  /** For instance: under a single `list-*` policy, a member of a list gets own records listed
      without being able to read any of them. */
  lemma StarPolicyListsUnreadable(model: Model, membership: string, role: string, uid: string)
    requires !model.hasPrivacy && Simple(membership) && Simple(role) && membership + "-" <= role && uid != "None"
    ensures var policies, caller := [Policy(AnyLevel(membership), OfUser, {'r'})], Caller([role], Some(uid));
            !Covered(policies, caller) && !FilterIsSound(model, policies, caller)
  {
    var policy, caller := Policy(AnyLevel(membership), OfUser, {'r'}), Caller([role], Some(uid));
    KindOf(policy);
    assert role in caller.auth && policy.principal.Begins(role);
    assert EffectOf(policy, caller, 'r').Owned? && policy in [policy];
    AnyLevelGivesNothing(model, policy, caller, OwnSubject(model, caller));
    assert Meaningful(ReadFilter(model, [policy], caller)) by {
      var none: seq<Policy>, initial := [], InitialConditions(model);
      assert [policy][1..] == none;
      assert FilterOf(none, caller, 'r', initial + [IsOwn]) == AnyOf(initial + [IsOwn]);
    }
    UncoveredIsUnsound(model, [policy], caller);
  }
}
