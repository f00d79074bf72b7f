/** Membership roles: `SessionAuth.get_roles` writes them, `AccessControl` reads them back. */
module Roles {
  import opened Wrappers
  import opened Texts

  function RoleText(resource: string, id: string, level: string): string {
    resource + "-" + id + "-" + level
  }

  /** `AccessControl._parse_id`: the ID in a role of this resource, None for any other role. */
  function ParseId(role: string, resource: string): Option<string> {
    var x := Split(role, '-');
    if x[0] != resource then None
    else Some(if |x| == 1 then "" else Join(x[1..|x| - 1], "-"))
  }

  lemma RoleParts(resource: string, id: string, level: string)
    ensures Split(RoleText(resource, id, level), '-') == Split(resource, '-') + Split(id, '-') + Split(level, '-')
  {
    assert RoleText(resource, id, level) == resource + ['-'] + (id + ['-'] + level);
    SplitConcat(resource, '-', id + ['-'] + level);
    SplitConcat(id, '-', level);
    assert Split(resource, '-') + (Split(id, '-') + Split(level, '-'))
        == Split(resource, '-') + Split(id, '-') + Split(level, '-');
  }

  lemma MiddlePieces(x: seq<string>, resource: string, ids: seq<string>, levels: seq<string>)
    requires x == [resource] + ids + levels && ids != [] && levels != []
    ensures x[0] == resource && 2 < |x| && x[1..|x| - 1] == ids + levels[..|levels| - 1]
  {
  }

  lemma ParsePieces(role: string, resource: string, ids: seq<string>, levels: seq<string>)
    requires Split(role, '-') == [resource] + ids + levels && ids != [] && levels != []
    ensures ParseId(role, resource) == Some(Join(ids + levels[..|levels| - 1], "-"))
  {
    MiddlePieces(Split(role, '-'), resource, ids, levels);
  }

  lemma {:induction false} SplitMarked(text: string, mark: char)
    requires mark in text
    ensures |Split(text, mark)| >= 2
  {
    if text[0] != mark {
      SplitMarked(text[1..], mark);
    }
  }

  /** Reading a role gives the ID it was written with, dashes and all, exactly if neither the
      resource nor the level has a dash. */
  lemma ParseRole(resource: string, id: string, level: string)
    ensures ParseId(RoleText(resource, id, level), resource) == Some(id) <==> '-' !in resource && '-' !in level
  {
    var role, ids, levels := RoleText(resource, id, level), Split(id, '-'), Split(level, '-');
    RoleParts(resource, id, level);
    if '-' !in resource {
      SplitNoMark(resource, '-');
      ParsePieces(role, resource, ids, levels);
      JoinSplit(id, '-');
      if '-' !in level {
        SplitNoMark(level, '-');
        assert ids + levels[..0] == ids;
      } else {
        SplitMarked(level, '-');
        JoinConcat(ids, levels[..|levels| - 1], "-");
      }
    } else {
      assert Split(role, '-')[0] in Split(role, '-');
    }
  }

  // --- the ladder of levels ----------------------------------------------------------------------------

  /** A row of the membership table. */
  datatype Member = Member(uid: string, status: string, id: string, authorization: string)

  function Query(members: seq<Member>, uid: string, id: Option<string>): seq<Member> {
    if members == [] then []
    else
      var first := members[0];
      (if first.uid == uid && first.status == "active" && (id.None? || first.id == id.value) then [first] else [])
      + Query(members[1..], uid, id)
  }

  /** The rungs of a member: the levels up to the authorization, or all of them if it is not one. */
  function Rungs(levels: seq<string>, authorization: string): seq<string> {
    if levels == [] then []
    else if levels[0] == authorization then [authorization]
    else [levels[0]] + Rungs(levels[1..], authorization)
  }

  /** The first level is that of the public; nobody gets it as a role. */
  function Granted(levels: seq<string>): seq<string> {
    if levels == [] then [] else levels[1..]
  }

  function RolesFor(resource: string, id: string, rungs: seq<string>): (roles: seq<string>)
    ensures |roles| == |rungs|
  {
    seq(|rungs|, i requires 0 <= i < |rungs| => RoleText(resource, id, rungs[i]))
  }

  function RolesOf(resource: string, levels: seq<string>, members: seq<Member>): seq<string> {
    if members == [] then []
    else
      RolesFor(resource, members[0].id, Rungs(Granted(levels), members[0].authorization))
      + RolesOf(resource, levels, members[1..])
  }

  /** The roles for the levels from l on. */
  function RolesFrom(levels: seq<string>, l: nat, resource: string, record: Member): seq<string>
    requires l <= |levels|
  {
    RolesFor(resource, record.id, Rungs(levels[l..], record.authorization))
  }

  lemma ClimbOne(levels: seq<string>, l: nat, resource: string, record: Member)
    requires l < |levels|
    ensures RolesFrom(levels, l, resource, record) ==
            [RoleText(resource, record.id, levels[l])]
            + if levels[l] == record.authorization then [] else RolesFrom(levels, l + 1, resource, record)
  {
    assert levels[l..][1..] == levels[l + 1..];
  }

  /** The loop over the levels, which stops at the member's authorization. */
  method Climb(levels: seq<string>, resource: string, record: Member) returns (roles: seq<string>)
    ensures roles == RolesFor(resource, record.id, Rungs(levels, record.authorization))
  {
    roles := [];
    ghost var all := RolesFrom(levels, 0, resource, record);
    assert levels[0..] == levels;
    for l := 0 to |levels|
      invariant all == roles + RolesFrom(levels, l, resource, record)
    {
      var role := RoleText(resource, record.id, levels[l]);
      ClimbOne(levels, l, resource, record);
      roles := roles + [role];
      if levels[l] == record.authorization {
        return;
      }
    }
  }

  lemma RolesOfMore(resource: string, levels: seq<string>, records: seq<Member>, r: nat)
    requires r < |records|
    ensures RolesOf(resource, levels, records[r..]) ==
            RolesFor(resource, records[r].id, Rungs(Granted(levels), records[r].authorization))
            + RolesOf(resource, levels, records[r + 1..])
  {
    assert records[r..][1..] == records[r + 1..];
  }

  method GetRoles(members: seq<Member>, levels: seq<string>, resource: string, uid: string, id: Option<string>)
    returns (roles: seq<string>)
    ensures roles == RolesOf(resource, levels, Query(members, uid, id))
  {
    var records := Query(members, uid, id);
    roles := [];
    assert records[0..] == records;
    for r := 0 to |records|
      invariant roles + RolesOf(resource, levels, records[r..]) == RolesOf(resource, levels, records)
    {
      var more := Climb(Granted(levels), resource, records[r]);
      RolesOfMore(resource, levels, records, r);
      roles := roles + more;
    }
  }

  // --- what a member may read -----------------------------------------------------------------------------

  /** Levels as a policy file lists them, the public first. */
  ghost predicate Levels(levels: seq<string>) {
    && levels != [] && levels[0] == "public"
    && (forall i, j | 0 <= i < j < |levels| :: levels[i] != levels[j])
    && (forall i | 0 <= i < |levels| :: '-' !in levels[i])
  }

  lemma {:induction false} RungsArePrefix(levels: seq<string>, authorization: string)
    ensures Rungs(levels, authorization) <= levels
    ensures authorization in levels ==>
              var rungs := Rungs(levels, authorization); rungs != [] && rungs[|rungs| - 1] == authorization
    ensures authorization !in levels ==> Rungs(levels, authorization) == levels
  {
    if levels != [] && levels[0] != authorization {
      RungsArePrefix(levels[1..], authorization);
      assert levels == [levels[0]] + levels[1..];
    }
  }

  /** How far up a member's roles reach: to the authorization if it is a level above the public's,
      and otherwise to the very top. */
  function Reach(levels: seq<string>, authorization: string): (top: int)
    requires levels != []
    ensures 0 <= top < |levels|
    ensures Rungs(levels[1..], authorization) == levels[1..top + 1]
    ensures if authorization in levels[1..] then 0 < top && levels[top] == authorization else top == |levels| - 1
  {
    RungsArePrefix(levels[1..], authorization);
    |Rungs(levels[1..], authorization)|
  }

  lemma RoleInjective(resource: string, id: string, level: string, id': string, level': string)
    requires '-' !in resource && '-' !in level && '-' !in level'
    ensures RoleText(resource, id, level) == RoleText(resource, id', level') <==> id == id' && level == level'
  {
    ParseRole(resource, id, level);
    ParseRole(resource, id', level');
    var before := resource + "-" + id + "-";
    assert RoleText(resource, id, level)[|before|..] == level;
    if id == id' {
      assert RoleText(resource, id', level')[|before|..] == level';
    }
  }

  /** Whether a member holds the role of this list's level. */
  ghost predicate HoldsRung(levels: seq<string>, m: Member, id: string, rung: nat)
    requires levels != []
  {
    m.id == id && 0 < rung <= Reach(levels, m.authorization)
  }

  lemma OneMembersRoles(levels: seq<string>, resource: string, m: Member, id: string, rung: nat)
    requires Levels(levels) && '-' !in resource && rung < |levels|
    ensures RoleText(resource, id, levels[rung]) in RolesFor(resource, m.id, Rungs(levels[1..], m.authorization))
            <==> HoldsRung(levels, m, id, rung)
  {
    var rungs := Rungs(levels[1..], m.authorization);
    var roles, top := RolesFor(resource, m.id, rungs), Reach(levels, m.authorization);
    forall k | 0 <= k < |roles|
      ensures roles[k] == RoleText(resource, id, levels[rung]) <==> m.id == id && k + 1 == rung
    {
      assert rungs[k] == levels[k + 1];
      RoleInjective(resource, m.id, levels[k + 1], id, levels[rung]);
    }
    if HoldsRung(levels, m, id, rung) {
      assert roles[rung - 1] == RoleText(resource, id, levels[rung]);
    }
  }

  lemma {:induction false} AllMembersRoles(levels: seq<string>, resource: string, members: seq<Member>, id: string, rung: nat)
    requires Levels(levels) && '-' !in resource && rung < |levels|
    ensures RoleText(resource, id, levels[rung]) in RolesOf(resource, levels, members)
            <==> exists m :: m in members && HoldsRung(levels, m, id, rung)
  {
    if members != [] {
      OneMembersRoles(levels, resource, members[0], id, rung);
      AllMembersRoles(levels, resource, members[1..], id, rung);
      assert forall m :: m in members <==> m == members[0] || m in members[1..];
    }
  }

  lemma {:induction false} QueryFinds(members: seq<Member>, uid: string, id: Option<string>, m: Member)
    ensures m in Query(members, uid, id) <==>
            m in members && m.uid == uid && m.status == "active" && (id.Some? ==> m.id == id.value)
  {
    if members != [] {
      QueryFinds(members[1..], uid, id, m);
    }
  }

  lemma {:induction false} RolesOfExactly(resource: string, levels: seq<string>, members: seq<Member>, role: string)
    requires levels != []
    ensures role in RolesOf(resource, levels, members) <==>
            exists m, rung: nat :: m in members && 0 < rung <= Reach(levels, m.authorization) &&
                                   role == resource + "-" + m.id + "-" + levels[rung]
  {
    if members != [] {
      var m := members[0];
      RolesOfExactly(resource, levels, members[1..], role);
      assert forall n :: n in members <==> n == m || n in members[1..];
      var rungs := Rungs(levels[1..], m.authorization);
      var roles := RolesFor(resource, m.id, rungs);
      assert role in roles <==>
          exists rung: nat :: 0 < rung <= Reach(levels, m.authorization) && role == resource + "-" + m.id + "-" + levels[rung] by {
        assert rungs == levels[1..Reach(levels, m.authorization) + 1] && |roles| == Reach(levels, m.authorization);
        forall k | 0 <= k < |roles| ensures roles[k] == resource + "-" + m.id + "-" + levels[k + 1] {
          assert rungs[k] == levels[k + 1];
        }
        if rung: nat :| 0 < rung <= Reach(levels, m.authorization) && role == resource + "-" + m.id + "-" + levels[rung] {
          assert roles[rung - 1] == role;
        }
      }
    }
  }

  /** A user is given exactly the roles of the levels, after the first one, up to the authorization, of each active
      membership of that user: in any resource record, or only in the one asked for. */
  lemma RolesExactly(members: seq<Member>, levels: seq<string>, resource: string, uid: string, id: Option<string>, role: string)
    requires levels != []
    ensures role in RolesOf(resource, levels, Query(members, uid, id)) <==>
            exists m, rung: nat ::
              && m in members && m.uid == uid && m.status == "active" && (id.Some? ==> m.id == id.value)
              && 0 < rung <= Reach(levels, m.authorization) && role == resource + "-" + m.id + "-" + levels[rung]
  {
    RolesOfExactly(resource, levels, Query(members, uid, id), role);
    forall m ensures m in Query(members, uid, id) <==>
                     m in members && m.uid == uid && m.status == "active" && (id.Some? ==> m.id == id.value) {
      QueryFinds(members, uid, id, m);
    }
  }

  /** Whether the roles include that of a privacy level in one membership. */
  predicate SharedWith(auth: seq<string>, membership: string, id: string, privacy: string) {
    id != "" && RoleText(membership, id, privacy) in auth
  }

  /** The part of a record's default permissions that its privacy setting opens. */
  predicate PrivacyReads(auth: seq<string>, membership: string, id: string, privacy: string) {
    privacy == "public" || SharedWith(auth, membership, id, privacy)
  }

  /** A user's roles open a record of a list with privacy level number `rung` if and only if that
      level is the public's, or the user is an active member of that very list whose
      authorization reaches at least as far up. */
  lemma PrivacyLadder(members: seq<Member>, levels: seq<string>, resource: string, uid: string,
                      plain: seq<string>, id: string, rung: nat)
    requires Levels(levels) && '-' !in resource && rung < |levels| && id != ""
    requires forall role | role in plain :: '-' !in role
    ensures PrivacyReads(plain + RolesOf(resource, levels, Query(members, uid, None)), resource, id, levels[rung])
            <==> rung == 0 ||
                 exists m :: m in members && m.uid == uid && m.status == "active" && m.id == id &&
                             rung <= Reach(levels, m.authorization)
  {
    var records, role := Query(members, uid, None), RoleText(resource, id, levels[rung]);
    AllMembersRoles(levels, resource, records, id, rung);
    assert role[|resource|] == '-';
    assert role !in plain;
    forall m ensures m in records <==> m in members && m.uid == uid && m.status == "active" {
      QueryFinds(members, uid, None, m);
    }
    if 0 < rung {
      assert levels[rung] != levels[0];
      forall m | m in records && m.id == id && rung <= Reach(levels, m.authorization)
        ensures HoldsRung(levels, m, id, rung) {}
    }
  }

  /** The roles of a higher authorization include those of a lower one. */
  lemma HigherIncludesLower(levels: seq<string>, resource: string, id: string, lower: string, higher: string)
    requires levels != [] && Reach(levels, lower) <= Reach(levels, higher)
    ensures RolesFor(resource, id, Rungs(levels[1..], lower)) <= RolesFor(resource, id, Rungs(levels[1..], higher))
  {
    var few, many := Reach(levels, lower), Reach(levels, higher);
    assert levels[1..many + 1][..few] == levels[1..few + 1];
  }
}
