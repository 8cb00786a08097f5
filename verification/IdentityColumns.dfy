/** What the identity handlers write and answer, column by column. */
module IdentityColumns {
  import opened Prelude
  import opened Table
  import opened Registry
  import opened Identity

  // ---------- invitations ----------

  /** Somebody invites this address already. */
  predicate Waiting(t: Tables, organization: Str, email: Str) {
    exists i | 0 <= i < |t.invitations| ::
      && t.invitations[i].organization == organization && t.invitations[i].email == email
      && t.invitations[i].status == Lit("pending")
  }

  lemma WaitingExactly(t: Tables, organization: Str, email: Str)
    ensures Waiting(t, organization, email)
      <==> Where(Where(t.invitations, row => PendingIn(organization, row)), row => Emailed(email, row)) != []
  {
    var pending, emailed := row => PendingIn(organization, row), row => Emailed(email, row);
    var some := Where(t.invitations, pending);
    WhereSome(some, emailed);
    if i :| 0 <= i < |some| && emailed(some[i]) {
      WhereMember(t.invitations, pending, some[i]);
      var j :| 0 <= j < |t.invitations| && t.invitations[j] == some[i];
    }
    if i :| 0 <= i < |t.invitations| && t.invitations[i].organization == organization
            && t.invitations[i].email == email && t.invitations[i].status == Lit("pending") {
      WhereMember(t.invitations, pending, t.invitations[i]);
      var j :| 0 <= j < |some| && some[j] == t.invitations[i];
    }
  }

  /** An invitation: nothing while one waits, an error on an id in use, else one pending row for two days. */
  lemma InviteExactly(t: Tables, call: Call)
    requires call.operation.Invite?
    ensures var Invite(email, role, id) := call.operation;
      var (after, outcome) := Ran(t, call);
      if Waiting(t, call.organization, email) then after == t && outcome == Accepted
      else if exists i | 0 <= i < |t.invitations| :: t.invitations[i].id == id
      then after == t && outcome == Refused(Internal)
      else
        && outcome == Accepted && after == t.(invitations := after.invitations)
        && |after.invitations| == |t.invitations| + 1 && after.invitations[..|t.invitations|] == t.invitations
        && var row := after.invitations[|t.invitations|];
           && row.id == id && row.organization == call.organization && row.email == email
           && row.role == (if role.Owner? then Lit("owner") else if role.Admin? then Lit("admin") else Lit("member"))
           && row.status == Lit("pending") && row.inviter == call.user && row.expiresAt == call.now + 172_800_000
  {
    WaitingExactly(t, call.organization, call.operation.email);
  }

  lemma {:induction false} KeptRows<T>(rows: seq<T>, p: T -> bool, row: T)
    ensures multiset(Where(rows, p))[row] == if p(row) then multiset(rows)[row] else 0
  {
    WhereCounts(rows, p, row);
  }

  /** The owners that count: the organisation's, holding that role, and a known user. */
  lemma JoinedOwnersExactly(t: Tables, organization: Str, row: MemberRow)
    ensures multiset(JoinedOwners(t, organization))[row]
         == if row.organization == organization && row.user in t.users && NormalizeRole(row.role) == Owner
            then multiset(t.members)[row] else 0
  {
    KeptRows(t.members, r => Joined(t.users, organization, r), row);
    KeptRows(Where(t.members, r => Joined(t.users, organization, r)), r => IsOwner(r), row);
  }

  /** Taking an invitation back removes it from its organisation, and removes no other row. */
  lemma RevokeExactly(t: Tables, call: Call, row: InvitationRow)
    requires call.operation.Revoke?
    ensures var (after, outcome) := Ran(t, call);
      && after == t.(invitations := after.invitations)
      && multiset(after.invitations)[row]
         == (if row.organization == call.organization && row.id == call.operation.invitationId then 0
             else multiset(t.invitations)[row])
      && outcome == if exists i | 0 <= i < |t.invitations| :: t.invitations[i].organization == call.organization
                                                              && t.invitations[i].id == call.operation.invitationId
                    then RemovedId(call.operation.invitationId) else Refused(NotFound)
  {
    var at := r => InvitationAt(call.organization, call.operation.invitationId, r);
    WhereSome(t.invitations, at);
    WhereAll(t.invitations, at, r => !InvitationAt(call.organization, call.operation.invitationId, r));
    KeptRows(t.invitations, r => !InvitationAt(call.organization, call.operation.invitationId, r), row);
  }

  // ---------- members ----------

  /** Removing a member removes the rows the id addresses in the organisation, and no other. */
  lemma RemoveExactly(t: Tables, call: Call, row: MemberRow)
    requires call.operation.RemoveMember?
    ensures var (after, outcome) := Ran(t, call);
      && after == t.(members := after.members)
      && multiset(after.members)[row]
         == (if row.organization == call.organization && row.id == call.operation.memberId then 0
             else multiset(t.members)[row])
      && outcome == if exists i | 0 <= i < |t.members| :: t.members[i].organization == call.organization
                                                          && t.members[i].id == call.operation.memberId
                    then RemovedId(call.operation.memberId) else Refused(NotFound)
  {
    var at := r => MemberAt(call.organization, call.operation.memberId, r);
    WhereSome(t.members, at);
    WhereAll(t.members, at, r => !MemberAt(call.organization, call.operation.memberId, r));
    KeptRows(t.members, r => !MemberAt(call.organization, call.operation.memberId, r), row);
  }

  /** A change of role writes the role's name into the addressed rows where they stand, and nothing else. */
  lemma SetRoleExactly(t: Tables, call: Call)
    requires call.operation.SetRole? && ReachesWrite(t, call, call.operation.memberId, call.operation.newRole)
    ensures var SetRole(id, role) := call.operation;
      var after := Ran(t, call).0;
      && after == t.(members := after.members) && |after.members| == |t.members|
      && forall i | 0 <= i < |t.members| ::
           after.members[i]
           == if t.members[i].organization == call.organization && t.members[i].id == id
              then t.members[i].(role := if role.Owner? then Lit("owner") else if role.Admin? then Lit("admin")
                                         else Lit("member"))
              else t.members[i]
  {
    var SetRole(id, role) := call.operation;
    GrantCall(t, call);
    var at, granted := r => MemberAt(call.organization, id, r), r => Granted(r, role);
    var after := RoleSet(t, call.organization, id, role);
    assert after.members == UpdateWhere(t.members, at, granted);
    WhereSome(t.members, at);
    UpdateAt(t.members, at, granted, 0);
    forall i | 0 <= i < |t.members|
      ensures UpdateWhere(t.members, at, granted)[i] == if at(t.members[i]) then granted(t.members[i]) else t.members[i]
    {
      UpdateAt(t.members, at, granted, i);
    }
  }

  /** When the role is granted: within the caller's own, to somebody there, and not the last owner's away. */
  lemma GrantedExactly(t: Tables, call: Call)
    requires call.operation.SetRole? && Keyed(t)
    ensures var SetRole(id, role) := call.operation;
      ReachesWrite(t, call, id, role) <==>
        && (role.Member? || call.role.Owner? || (role.Admin? && call.role.Admin?))
        && exists i | 0 <= i < |t.members| ::
             && t.members[i].organization == call.organization && t.members[i].id == id
             && (NormalizeRole(t.members[i].role) == Owner && role != Owner ==>
                   |JoinedOwners(t, call.organization)| >= 2)
  {
    var SetRole(id, role) := call.operation;
    var at := r => MemberAt(call.organization, id, r);
    ClearsExactly(call.role, role);
    WhereSome(t.members, at);
    if Where(t.members, at) != [] {
      var i := WhereFirst(t.members, at);
      forall j | 0 <= j < |t.members| && t.members[j].id == id ensures t.members[j] == t.members[i] {
        SameIdSameMember(t, t.members[j], t.members[i]);
      }
    }
  }

  /** The caller's own row goes when there is one and it is not the last owner's; no other row does. */
  lemma LeaveExactly(t: Tables, call: Call, row: MemberRow)
    requires call.operation.Leave? && Keyed(t)
    requires forall a <- t.members, b <- t.members |
      a.organization == b.organization && a.user == b.user :: a == b
    ensures var (after, outcome) := Ran(t, call);
      && after == t.(members := after.members)
      && ((forall r <- t.members :: !(r.organization == call.organization && r.user == call.user)) ==>
            after == t && outcome == Refused(NotFound))
      && (row in t.members && row.organization == call.organization && row.user == call.user ==>
            if NormalizeRole(row.role) == Owner && |JoinedOwners(t, call.organization)| <= 1
            then after == t && outcome == Refused(Conflict)
            else outcome == RemovedId(row.id) && row !in after.members
                 && forall other <- t.members | other != row :: other in after.members)
  {
    LeaveCall(t, call);
    var mine := r => MembershipOf(call.organization, call.user, r);
    WhereSome(t.members, mine);
    if Where(t.members, mine) != [] {
      FirstHit(t.members, mine);
      var own := Where(t.members, mine)[0];
      LeftAt(t, call, own);
    }
  }

  lemma LeftAt(t: Tables, call: Call, own: MemberRow)
    requires Keyed(t) && own in t.members && own.organization == call.organization
    ensures var (after, outcome) := RanRemove(t, call.organization, own.id);
      && outcome == RemovedId(own.id) && after == t.(members := after.members) && own !in after.members
      && forall other <- t.members | other != own :: other in after.members
  {
    var at, stays := r => MemberAt(call.organization, own.id, r), r => !MemberAt(call.organization, own.id, r);
    WhereMember(t.members, at, own);
    WhereMember(t.members, stays, own);
    forall other | other in t.members && other != own ensures other in Where(t.members, stays) {
      if other.id == own.id {
        SameIdSameMember(t, other, own);
      }
      WhereMember(t.members, stays, other);
    }
  }

  /** Who is listed: the organisation's members with a user row, each with that row's name and address. */
  lemma {:induction false} ViewsExactly(users: map<Str, Person>, rows: seq<MemberRow>, view: MemberView)
    ensures view in Views(users, rows) <==>
      exists i | 0 <= i < |rows| ::
        && rows[i].user in users && view.id == rows[i].id && view.user == rows[i].user
        && view.name == users[rows[i].user].name && view.email == users[rows[i].user].email
        && view.role == NormalizeRole(rows[i].role) && view.createdAt == rows[i].createdAt
    decreases |rows|
  {
    if rows != [] {
      ViewsExactly(users, rows[1..], view);
      assert rows == [rows[0]] + rows[1..];
      if i :| 0 < i < |rows| && rows[i].user in users && view.id == rows[i].id && view.user == rows[i].user
              && view.name == users[rows[i].user].name && view.email == users[rows[i].user].email
              && view.role == NormalizeRole(rows[i].role) && view.createdAt == rows[i].createdAt {
        assert rows[1..][i - 1] == rows[i];
      }
      if i :| 0 <= i < |rows[1..]| && rows[1..][i].user in users && view.id == rows[1..][i].id
              && view.user == rows[1..][i].user && view.name == users[rows[1..][i].user].name
              && view.email == users[rows[1..][i].user].email && view.role == NormalizeRole(rows[1..][i].role)
              && view.createdAt == rows[1..][i].createdAt {
        assert rows[i + 1] == rows[1..][i];
      }
    }
  }

  /** What the three reads answer, and that they change nothing. */
  lemma ReadExactly(t: Tables, call: Call, view: MemberView, row: InvitationRow)
    ensures call.operation.ReadMembers? ==>
      && Ran(t, call).0 == t && Ran(t, call).1.MemberList?
      && (view in Ran(t, call).1.members <==> exists m | m in t.members ::
            && m.organization == call.organization && m.user in t.users
            && view.id == m.id && view.user == m.user && view.name == t.users[m.user].name
            && view.email == t.users[m.user].email && view.role == NormalizeRole(m.role)
            && view.createdAt == m.createdAt)
    ensures call.operation.ReadInvitations? ==>
      && Ran(t, call).0 == t && Ran(t, call).1.InvitationList?
      && multiset(Ran(t, call).1.invitations)[row]
         == if row.organization == call.organization && row.status == Lit("pending")
            then multiset(t.invitations)[row] else 0
    ensures call.operation.ReadOrganization? ==> Ran(t, call).0 == t
    ensures call.operation.ReadOrganization? && Ran(t, call).1.Found? ==>
      && Ran(t, call).1.organization in t.organizations && Ran(t, call).1.organization.id == call.organization
      && Ran(t, call).1.memberCount == |Where(t.members, (m: MemberRow) => m.organization == call.organization)|
    ensures call.operation.ReadOrganization? && !Ran(t, call).1.Found? ==>
      Ran(t, call).1 == Refused(NotFound) && forall o <- t.organizations :: o.id != call.organization
  {
    if call.operation.ReadMembers? {
      MembersRead(t, call.organization, view);
    } else if call.operation.ReadInvitations? {
      KeptRows(t.invitations, r => PendingIn(call.organization, r), row);
    } else if call.operation.ReadOrganization? {
      OrganizationRead(t, call.organization);
    }
  }

  lemma MembersRead(t: Tables, organization: Str, view: MemberView)
    ensures view in Views(t.users, Where(t.members, m => Joined(t.users, organization, m)))
      <==> exists m | m in t.members ::
             && m.organization == organization && m.user in t.users
             && view.id == m.id && view.user == m.user && view.name == t.users[m.user].name
             && view.email == t.users[m.user].email && view.role == NormalizeRole(m.role)
             && view.createdAt == m.createdAt
  {
    var joined := m => Joined(t.users, organization, m);
    var rows := Where(t.members, joined);
    ViewsExactly(t.users, rows, view);
    forall m: MemberRow ensures m in rows <==> m in t.members && joined(m) { WhereMember(t.members, joined, m); }
    if m :| m in t.members && m.organization == organization && m.user in t.users
            && view.id == m.id && view.user == m.user && view.name == t.users[m.user].name
            && view.email == t.users[m.user].email && view.role == NormalizeRole(m.role)
            && view.createdAt == m.createdAt {
      assert m in rows;
      var i :| 0 <= i < |rows| && rows[i] == m;
    }
    if i :| 0 <= i < |rows| && rows[i].user in t.users && view.id == rows[i].id && view.user == rows[i].user
            && view.name == t.users[rows[i].user].name && view.email == t.users[rows[i].user].email
            && view.role == NormalizeRole(rows[i].role) && view.createdAt == rows[i].createdAt {
      assert rows[i] in rows;
    }
  }

  lemma OrganizationRead(t: Tables, organization: Str)
    ensures RanRead(t, organization).Found? ==>
      && RanRead(t, organization).organization in t.organizations
      && RanRead(t, organization).organization.id == organization
      && RanRead(t, organization).memberCount == |Where(t.members, (m: MemberRow) => m.organization == organization)|
    ensures !RanRead(t, organization).Found? ==>
      RanRead(t, organization) == Refused(NotFound) && forall o <- t.organizations :: o.id != organization
  {
    var mine := o => IsOrganization(organization, o);
    WhereSome(t.organizations, mine);
    SameWhere(t.members, m => MemberOf(organization, m), (m: MemberRow) => m.organization == organization);
    if Where(t.organizations, mine) != [] {
      FirstHit(t.organizations, mine);
    }
  }

  // ---------- organisations ----------

  predicate SlugHeld(t: Tables, slug: Str) { exists i | 0 <= i < |t.organizations| :: t.organizations[i].slug == slug }

  /** A new organisation: a conflict on any slug in use, an error on an id in use, else its row and its owner's. */
  lemma CreateExactly(t: Tables, call: Call)
    requires call.operation.CreateOrganization?
    ensures var CreateOrganization(name, slug, id, ownerId) := call.operation;
      var (after, outcome) := Ran(t, call);
      if SlugHeld(t, slug) then after == t && outcome == Refused(Conflict)
      else if (exists row <- t.organizations :: row.id == id) || (exists row <- t.members :: row.id == ownerId)
      then after == t && outcome == Refused(Internal)
      else
        && after.users == t.users && after.invitations == t.invitations
        && after.organizations == t.organizations + [OrganizationRow(id, name, slug)]
        && after.members == t.members + [MemberRow(ownerId, id, call.user, Lit("owner"), call.now)]
        && outcome == Found(OrganizationRow(id, name, slug), 1)
  {
    CreateCall(t, call);
    WhereSome(t.organizations, row => SlugIs(call.operation.slug, row));
  }

  /** A renaming writes the name and the slug it is given into the organisation's row, and nothing else. */
  lemma RenameExactly(t: Tables, call: Call)
    requires call.operation.UpdateOrganization? && Ran(t, call).1.Found?
    ensures var UpdateOrganization(name, slug) := call.operation;
      var (after, outcome) := Ran(t, call);
      && after == t.(organizations := after.organizations) && |after.organizations| == |t.organizations|
      && (slug.Some? ==> !SlugHeld(t, slug.value))
      && outcome.memberCount == |Where(t.members, row => MemberOf(call.organization, row))|
      && (exists i | 0 <= i < |t.organizations| :: after.organizations[i] == outcome.organization
                                                   && t.organizations[i].id == call.organization)
      && forall i | 0 <= i < |t.organizations| ::
           var before, row := t.organizations[i], after.organizations[i];
           if before.id == call.organization
           then row.id == before.id
                && row.name == (match name case None => before.name case Some(new_name) => new_name)
                && row.slug == (match slug case None => before.slug case Some(new_slug) => new_slug)
           else row == before
  {
    var UpdateOrganization(name, slug) := call.operation;
    var mine, named := row => IsOrganization(call.organization, row), row => WithName(row, name, slug);
    if slug.Some? {
      WhereSome(t.organizations, row => SlugIs(slug.value, row));
    }
    var first := WhereFirst(t.organizations, mine);
    UpdateAt(t.organizations, mine, named, first);
    forall i | 0 <= i < |t.organizations|
      ensures UpdateWhere(t.organizations, mine, named)[i]
           == if mine(t.organizations[i]) then named(t.organizations[i]) else t.organizations[i]
    {
      UpdateAt(t.organizations, mine, named, i);
    }
  }

  /** A deletion takes the organisation's rows out of all three tables, and no other row out of any. */
  lemma DeleteExactly(t: Tables, call: Call, o: OrganizationRow, m: MemberRow, i: InvitationRow)
    requires call.operation.DeleteOrganization?
    ensures var (after, outcome) := Ran(t, call);
      && after.users == t.users
      && multiset(after.organizations)[o] == (if o.id == call.organization then 0 else multiset(t.organizations)[o])
      && multiset(after.members)[m] == (if m.organization == call.organization then 0 else multiset(t.members)[m])
      && multiset(after.invitations)[i]
         == (if i.organization == call.organization then 0 else multiset(t.invitations)[i])
      && outcome == if exists k | 0 <= k < |t.organizations| :: t.organizations[k].id == call.organization
                    then RemovedId(call.organization) else Refused(NotFound)
  {
    DeletionCall(t, call);
    WhereSome(t.organizations, row => IsOrganization(call.organization, row));
    KeptRows(t.organizations, row => !IsOrganization(call.organization, row), o);
    KeptRows(t.members, row => !MemberOf(call.organization, row), m);
    KeptRows(t.invitations, row => !InvitedTo(call.organization, row), i);
  }

  // ---------- reading a role column ----------

  /** The parts between commas, put together again. */
  function Rejoined(parts: seq<Str>): Str {
    if parts == [] then [] else if |parts| == 1 then parts[0] else parts[0] + Lit(",") + Rejoined(parts[1..])
  }

  lemma JoinFirst(c: CodeUnit, parts: seq<Str>)
    requires parts != []
    ensures Rejoined([[c] + parts[0]] + parts[1..]) == [c] + Rejoined(parts)
  {
    var more := [[c] + parts[0]] + parts[1..];
    assert more[1..] == parts[1..];
    if |parts| > 1 {
      var comma, rest := Lit(","), Rejoined(parts[1..]);
      assert Rejoined(more) == ([c] + parts[0]) + comma + rest;
      Assoc([c], parts[0], comma);
      Assoc([c], parts[0] + comma, rest);
    }
  }

  /** A column is read as the parts between its commas. */
  lemma {:induction false} SplitExactly(s: Str)
    ensures Rejoined(Split(s)) == s && forall part <- Split(s) :: 44 !in part
    decreases |s|
  {
    if s != [] {
      SplitExactly(s[1..]);
      var rest := Split(s[1..]);
      assert s == [s[0]] + s[1..];
      if s[0] == 44 {
        assert Lit(",") == [44];
        assert ([[]] + rest)[1..] == rest;
        assert Rejoined([[]] + rest) == [] + Lit(",") + Rejoined(rest);
      } else {
        JoinFirst(s[0], rest);
      }
    }
  }

  lemma {:induction false} TrimmedStart<T>(s: seq<T>, blank: T -> bool) returns (n: nat)
    ensures n <= |s| && TrimStart(s, blank) == s[n..] && forall i | 0 <= i < n :: blank(s[i])
    ensures n < |s| ==> !blank(s[n])
    decreases |s|
  {
    n := 0;
    if s != [] && blank(s[0]) {
      n := TrimmedStart(s[1..], blank);
      assert s[n + 1..] == s[1..][n..];
      forall i | 1 <= i < n + 1 ensures blank(s[i]) {
        assert s[i] == s[1..][i - 1];
      }
      n := n + 1;
    }
  }

  lemma {:induction false} TrimmedEnd<T>(s: seq<T>, blank: T -> bool) returns (n: nat)
    ensures n <= |s| && TrimEnd(s, blank) == s[..n] && forall i | n <= i < |s| :: blank(s[i])
    ensures n > 0 ==> !blank(s[n - 1])
    decreases |s|
  {
    n := |s|;
    if s != [] && blank(s[|s| - 1]) {
      var front := s[..|s| - 1];
      n := TrimmedEnd(front, blank);
      assert s[..n] == front[..n];
    }
  }

  /** A part is read without the white space around it, and no other character is dropped. */
  lemma TrimExactly<T>(s: seq<T>, blank: T -> bool) returns (m: nat, n: nat)
    ensures m <= n <= |s| && Trim(s, blank) == s[m..n]
    ensures forall i | 0 <= i < m || n <= i < |s| :: blank(s[i])
    ensures m < n ==> !blank(s[m]) && !blank(s[n - 1])
  {
    m := TrimmedStart(s, blank);
    var r := s[m..];
    var k := TrimmedEnd(r, blank);
    n := m + k;
    assert s[m..n] == r[..k];
    forall i | n <= i < |s| ensures blank(s[i]) {
      assert s[i] == r[i - m];
    }
  }
}
