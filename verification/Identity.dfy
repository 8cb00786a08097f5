/** Members, invitations and organisations: who owns what, and what one tenant can reach. */
module Identity {
  import opened Prelude
  import opened Table
  import opened Registry

  // ---------- reading a role column ----------

  /** `value.split(",")`. */
  function Split(s: Str): (r: seq<Str>)
    ensures r != []
  {
    if s == [] then [[]]
    else
      var rest := Split(s[1..]);
      if s[0] == 44 then [[]] + rest else [[s[0]] + rest[0]] + rest[1..]
  }

  function Claimed(claim: Str): Option<Role> { RoleNamed(Trim(claim, u => IsBlank(u))) }

  function Better(best: Role, claim: Str): Role {
    match Claimed(claim)
    case Some(known) => if Rank(known) > Rank(best) then known else best
    case None => best
  }

  function Best(best: Role, claims: seq<Str>): Role
    decreases |claims|
  {
    if claims == [] then best else Best(Better(best, claims[0]), claims[1..])
  }

  function NormalizeRole(value: Str): Role { Best(Member, Split(value)) }

  lemma {:induction false} BestIsHighest(best: Role, claims: seq<Str>)
    ensures Rank(best) <= Rank(Best(best, claims))
    ensures forall c <- claims :: Claimed(c).Some? ==> Rank(Claimed(c).value) <= Rank(Best(best, claims))
    ensures Best(best, claims) == best || exists c <- claims :: Claimed(c) == Some(Best(best, claims))
    decreases |claims|
  {
    if claims != [] {
      BestIsHighest(Better(best, claims[0]), claims[1..]);
      assert claims == [claims[0]] + claims[1..];
    }
  }

  /** The highest role claimed, the lowest when none is: unknown names never raise anybody. */
  lemma NormalizedIsHighest(value: Str)
    ensures forall c <- Split(value) :: Claimed(c).Some? ==> Rank(Claimed(c).value) <= Rank(NormalizeRole(value))
    ensures NormalizeRole(value) == Member || exists c <- Split(value) :: Claimed(c) == Some(NormalizeRole(value))
  {
    BestIsHighest(Member, Split(value));
  }

  lemma {:induction false} SplitWhole(s: Str)
    requires 44 !in s
    ensures Split(s) == [s]
    decreases |s|
  {
    if s != [] {
      assert s == [s[0]] + s[1..];
      SplitWhole(s[1..]);
    }
  }

  lemma NothingToTrim(s: Str)
    requires s != [] && !IsBlank(s[0]) && !IsBlank(s[|s| - 1])
    ensures Trim(s, u => IsBlank(u)) == s
  {
  }

  lemma NamePlain(r: Role)
    ensures var s := RoleName(r); s != [] && !IsBlank(s[0]) && !IsBlank(s[|s| - 1]) && 44 !in s
  {
  }

  /** A role's own name reads back as that role. */
  lemma NormalizedName(r: Role)
    ensures NormalizeRole(RoleName(r)) == r
  {
    var name := RoleName(r);
    RoleNamesDistinct(r, r);
    NamePlain(r);
    SplitWhole(name);
    NothingToTrim(name);
    assert Claimed(name) == Some(r);
    assert Best(Member, [name]) == Best(Better(Member, name), []);
  }

  // ---------- tables ----------

  datatype OrganizationRow = OrganizationRow(id: Str, name: Str, slug: Str)

  datatype Person = Person(name: Str, email: Str)

  datatype MemberRow = MemberRow(id: Str, organization: Str, user: Str, role: Str, createdAt: int)

  datatype InvitationRow = InvitationRow(
    id: Str, organization: Str, email: Str, role: Str, status: Str, expiresAt: int, inviter: Str)

  datatype Tables = Tables(
    organizations: seq<OrganizationRow>, users: map<Str, Person>, members: seq<MemberRow>,
    invitations: seq<InvitationRow>)

  // ---------- calls ----------

  datatype Operation =
    | ReadMembers
    | Invite(email: Str, role: Role, id: Str)
    | RemoveMember(memberId: Str)
    | ReadInvitations
    | Revoke(invitationId: Str)
    | SetRole(memberId: Str, newRole: Role)
    | ReadOrganization
    | CreateOrganization(name: Str, slug: Str, id: Str, ownerId: Str)
    | UpdateOrganization(newName: Option<Str>, newSlug: Option<Str>)
    | DeleteOrganization
    | Leave

  /** Organisation, user and role come from the verified context; new ids are drawn by the service. */
  datatype Call = Call(organization: Str, user: Str, role: Role, operation: Operation, now: int)

  datatype Error = Conflict | NotFound | PermissionDenied | Internal

  datatype MemberView = MemberView(id: Str, user: Str, name: Str, email: Str, role: Role, createdAt: int)

  datatype Outcome =
    | MemberList(members: seq<MemberView>)
    | Accepted
    | RemovedId(removed: Str)
    | InvitationList(invitations: seq<InvitationRow>)
    | Changed(member: MemberView)
    | Found(organization: OrganizationRow, memberCount: nat)
    | Refused(error: Error)

  // ---------- which rows ----------

  predicate MemberOf(organization: Str, row: MemberRow) { row.organization == organization }

  predicate MemberAt(organization: Str, id: Str, row: MemberRow) { row.organization == organization && row.id == id }

  predicate MembershipOf(organization: Str, user: Str, row: MemberRow) {
    row.organization == organization && row.user == user
  }

  predicate InvitedTo(organization: Str, row: InvitationRow) { row.organization == organization }

  predicate InvitationAt(organization: Str, id: Str, row: InvitationRow) {
    row.organization == organization && row.id == id
  }

  function Pending(): Str { Lit("pending") }

  predicate PendingIn(organization: Str, row: InvitationRow) {
    row.organization == organization && row.status == Pending()
  }

  predicate PendingFor(organization: Str, email: Str, row: InvitationRow) {
    PendingIn(organization, row) && Emailed(email, row)
  }

  predicate Emailed(email: Str, row: InvitationRow) { row.email == email }

  predicate IsOrganization(id: Str, row: OrganizationRow) { row.id == id }

  predicate SlugIs(slug: Str, row: OrganizationRow) { row.slug == slug }

  predicate IsOwner(row: MemberRow) { NormalizeRole(row.role) == Owner }

  predicate OwnerIn(organization: Str, row: MemberRow) { MemberOf(organization, row) && IsOwner(row) }

  /** The inner join with the user table: a member without a user row is not counted. */
  predicate Joined(users: map<Str, Person>, organization: Str, row: MemberRow) {
    MemberOf(organization, row) && row.user in users
  }

  function JoinedOwners(t: Tables, organization: Str): seq<MemberRow> {
    Where(Where(t.members, row => Joined(t.users, organization, row)), row => IsOwner(row))
  }

  predicate SlugTaken(t: Tables, slug: Str) { Where(t.organizations, row => SlugIs(slug, row)) != [] }

  function Seats(t: Tables, organization: Str): nat { |Where(t.members, row => MemberOf(organization, row))| }

  function Viewed(users: map<Str, Person>, row: MemberRow): MemberView
    requires row.user in users
  {
    MemberView(row.id, row.user, users[row.user].name, users[row.user].email, NormalizeRole(row.role), row.createdAt)
  }

  function Views(users: map<Str, Person>, rows: seq<MemberRow>): seq<MemberView> {
    if rows == [] then []
    else (if rows[0].user in users then [Viewed(users, rows[0])] else []) + Views(users, rows[1..])
  }

  function Granted(row: MemberRow, role: Role): MemberRow { row.(role := RoleName(role)) }

  function WithName(row: OrganizationRow, name: Option<Str>, slug: Option<Str>): OrganizationRow {
    row.(name := if name.Some? then name.value else row.name, slug := if slug.Some? then slug.value else row.slug)
  }

  function NewInvitation(call: Call, email: Str, role: Role, id: Str): InvitationRow {
    InvitationRow(id, call.organization, email, RoleName(role), Pending(), call.now + 48 * 60 * 60 * 1000, call.user)
  }

  // ---------- what a call does ----------

  function RanInvite(t: Tables, call: Call): (Tables, Outcome)
    requires call.operation.Invite?
  {
    var Invite(email, role, id) := call.operation;
    if Where(Where(t.invitations, row => PendingIn(call.organization, row)), row => Emailed(email, row)) != []
    then (t, Accepted)
    else if exists row <- t.invitations :: row.id == id then (t, Refused(Internal))
    else (t.(invitations := t.invitations + [NewInvitation(call, email, role, id)]), Accepted)
  }

  function RanRemove(t: Tables, organization: Str, id: Str): (Tables, Outcome) {
    if Where(t.members, row => MemberAt(organization, id, row)) == [] then (t, Refused(NotFound))
    else (t.(members := Where(t.members, row => !MemberAt(organization, id, row))), RemovedId(id))
  }

  function RanRevoke(t: Tables, organization: Str, id: Str): (Tables, Outcome) {
    if Where(t.invitations, row => InvitationAt(organization, id, row)) == [] then (t, Refused(NotFound))
    else (t.(invitations := Where(t.invitations, row => !InvitationAt(organization, id, row))), RemovedId(id))
  }

  function RoleSet(t: Tables, organization: Str, id: Str, role: Role): Tables {
    t.(members := UpdateWhere(t.members, row => MemberAt(organization, id, row), row => Granted(row, role)))
  }

  /** The role is written before the person is looked up: without one the answer is an error all the same. */
  function RanSetRole(t: Tables, call: Call, id: Str, role: Role): (Tables, Outcome) {
    var hit := Where(t.members, row => MemberAt(call.organization, id, row));
    if !RoleAtLeast(call.role, role) then (t, Refused(PermissionDenied))
    else if hit == [] then (t, Refused(NotFound))
    else if IsOwner(hit[0]) && role != Owner && |JoinedOwners(t, call.organization)| <= 1 then (t, Refused(Conflict))
    else
      var row := Granted(hit[0], role);
      (RoleSet(t, call.organization, id, role),
       if row.user in t.users then Changed(Viewed(t.users, row)) else Refused(Internal))
  }

  function RanLeave(t: Tables, call: Call): (Tables, Outcome) {
    var own := Where(t.members, row => MembershipOf(call.organization, call.user, row));
    if own == [] then (t, Refused(NotFound))
    else if IsOwner(own[0]) && |JoinedOwners(t, call.organization)| <= 1 then (t, Refused(Conflict))
    else
      var (after, outcome) := RanRemove(t, call.organization, own[0].id);
      (after, if outcome.Refused? then Refused(Internal) else outcome)
  }

  function RanRead(t: Tables, organization: Str): Outcome {
    var hit := Where(t.organizations, row => IsOrganization(organization, row));
    if hit == [] then Refused(NotFound) else Found(hit[0], Seats(t, organization))
  }

  function RanCreate(t: Tables, call: Call): (Tables, Outcome)
    requires call.operation.CreateOrganization?
  {
    var CreateOrganization(name, slug, id, ownerId) := call.operation;
    if SlugTaken(t, slug) then (t, Refused(Conflict))
    else if (exists row <- t.organizations :: row.id == id) || (exists row <- t.members :: row.id == ownerId)
    then (t, Refused(Internal))
    else
      var row := OrganizationRow(id, name, slug);
      (t.(organizations := t.organizations + [row],
          members := t.members + [MemberRow(ownerId, id, call.user, RoleName(Owner), call.now)]),
       Found(row, 1))
  }

  /** A slug that is taken is refused even when it is the organisation's own. */
  function RanUpdate(t: Tables, organization: Str, name: Option<Str>, slug: Option<Str>): (Tables, Outcome) {
    var hit := Where(t.organizations, row => IsOrganization(organization, row));
    if slug.Some? && SlugTaken(t, slug.value) then (t, Refused(Conflict))
    else if name.None? && slug.None? then (t, Refused(Internal))
    else if hit == [] then (t, Refused(NotFound))
    else
      (t.(organizations := UpdateWhere(t.organizations, row => IsOrganization(organization, row),
                                       row => WithName(row, name, slug))),
       Found(WithName(hit[0], name, slug), Seats(t, organization)))
  }

  /** Members and invitations go even when there is no organisation row to delete. */
  function RanDelete(t: Tables, organization: Str): (Tables, Outcome) {
    (t.(invitations := Where(t.invitations, row => !InvitedTo(organization, row)),
        members := Where(t.members, row => !MemberOf(organization, row)),
        organizations := Where(t.organizations, row => !IsOrganization(organization, row))),
     if Where(t.organizations, row => IsOrganization(organization, row)) == [] then Refused(NotFound)
     else RemovedId(organization))
  }

  /** The tables and the answer after one call. */
  function Ran(t: Tables, call: Call): (Tables, Outcome) {
    match call.operation
    case ReadMembers =>
      (t, MemberList(Views(t.users, Where(t.members, row => Joined(t.users, call.organization, row)))))
    case Invite(_, _, _) => RanInvite(t, call)
    case RemoveMember(id) => RanRemove(t, call.organization, id)
    case ReadInvitations => (t, InvitationList(Where(t.invitations, row => PendingIn(call.organization, row))))
    case Revoke(id) => RanRevoke(t, call.organization, id)
    case SetRole(id, role) => RanSetRole(t, call, id, role)
    case ReadOrganization => (t, RanRead(t, call.organization))
    case CreateOrganization(_, _, _, _) => RanCreate(t, call)
    case UpdateOrganization(name, slug) => RanUpdate(t, call.organization, name, slug)
    case DeleteOrganization => RanDelete(t, call.organization)
    case Leave => RanLeave(t, call)
  }

  function RanAll(t: Tables, calls: seq<Call>): Tables
    decreases |calls|
  {
    if calls == [] then t else RanAll(Ran(t, calls[0]).0, calls[1..])
  }

  // ---------- what every run keeps ----------

  function MemberId(row: MemberRow): Str { row.id }

  function InvitationId(row: InvitationRow): Str { row.id }

  function OrganizationId(row: OrganizationRow): Str { row.id }

  /** Primary keys: no two rows of a table have one id. */
  ghost predicate Keyed(t: Tables) {
    && DistinctBy(t.members, MemberId)
    && DistinctBy(t.invitations, InvitationId)
    && DistinctBy(t.organizations, OrganizationId)
  }

  ghost predicate HasOwner(t: Tables, organization: Str, joined: bool) {
    exists row :: Owns(t, organization, joined, row)
  }

  lemma SameIdSameMember(t: Tables, a: MemberRow, b: MemberRow)
    requires Keyed(t) && a in t.members && b in t.members && a.id == b.id
    ensures a == b
  {
    var i :| 0 <= i < |t.members| && t.members[i] == a;
    var j :| 0 <= j < |t.members| && t.members[j] == b;
    assert MemberId(a) == MemberId(b);
  }

  lemma FirstHit<T>(rows: seq<T>, p: T -> bool)
    requires Where(rows, p) != []
    ensures Where(rows, p)[0] in rows && p(Where(rows, p)[0])
  {
    WhereMember(rows, p, Where(rows, p)[0]);
  }

  /** Two joined owners: one of them is somebody else. */
  lemma AnotherOwner(t: Tables, organization: Str, id: Str) returns (other: MemberRow)
    requires Keyed(t) && |JoinedOwners(t, organization)| > 1
    ensures Owns(t, organization, true, other) && other.id != id
  {
    var owners := JoinedOwners(t, organization);
    var a, b := owners[0], owners[1];
    JoinedOwner(t, organization, a);
    JoinedOwner(t, organization, b);
    OwnersOnce(t, organization, a);
    FirstTwoDiffer(owners);
    other := if a.id != id then a else b;
    if a.id == b.id {
      SameIdSameMember(t, a, b);
    }
  }

  lemma FirstTwoDiffer<T>(s: seq<T>)
    requires |s| > 1 && multiset(s)[s[0]] <= 1
    ensures s[0] != s[1]
  {
    assert s == [s[0], s[1]] + s[2..];
  }

  lemma JoinedOwner(t: Tables, organization: Str, row: MemberRow)
    requires row in JoinedOwners(t, organization)
    ensures Owns(t, organization, true, row)
  {
    var joined := row => Joined(t.users, organization, row);
    WhereMember(Where(t.members, joined), row => IsOwner(row), row);
    WhereMember(t.members, joined, row);
  }

  lemma OwnersOnce(t: Tables, organization: Str, row: MemberRow)
    requires Keyed(t)
    ensures multiset(JoinedOwners(t, organization))[row] <= 1
  {
    var joined := row => Joined(t.users, organization, row);
    WhereCounts(Where(t.members, joined), row => IsOwner(row), row);
    WhereCounts(t.members, joined, row);
    OnceEach(t.members, row);
  }

  lemma {:induction false} OnceEach(rows: seq<MemberRow>, row: MemberRow)
    requires DistinctBy(rows, MemberId)
    ensures multiset(rows)[row] <= 1
    decreases |rows|
  {
    if rows != [] {
      assert rows == [rows[0]] + rows[1..];
      assert forall i | 0 <= i < |rows[1..]| ::
        rows[1..][i] == rows[i + 1] && MemberId(rows[i + 1]) != MemberId(rows[0]);
      OnceEach(rows[1..], row);
    }
  }

  lemma RemovalKeyed(t: Tables, organization: Str, id: Str)
    requires Keyed(t)
    ensures Keyed(RanRemove(t, organization, id).0)
  {
    WhereDistinct(t.members, row => !MemberAt(organization, id, row), MemberId);
  }

  lemma GrantKeyed(t: Tables, organization: Str, id: Str, role: Role)
    requires Keyed(t)
    ensures Keyed(RoleSet(t, organization, id, role))
  {
    UpdateKeys(t.members, row => MemberAt(organization, id, row), row => Granted(row, role), MemberId);
  }

  lemma DeletionKeyed(t: Tables, organization: Str)
    requires Keyed(t)
    ensures Keyed(RanDelete(t, organization).0)
  {
    WhereDistinct(t.invitations, row => !InvitedTo(organization, row), InvitationId);
    WhereDistinct(t.members, row => !MemberOf(organization, row), MemberId);
    WhereDistinct(t.organizations, row => !IsOrganization(organization, row), OrganizationId);
  }

  lemma InviteKeyed(t: Tables, call: Call)
    requires Keyed(t) && call.operation.Invite?
    ensures Keyed(RanInvite(t, call).0)
  {
    var Invite(email, role, id) := call.operation;
    if forall row <- t.invitations :: row.id != id {
      AppendDistinct(t.invitations, NewInvitation(call, email, role, id), InvitationId);
    }
  }

  lemma CreateKeyed(t: Tables, call: Call)
    requires Keyed(t) && call.operation.CreateOrganization?
    ensures Keyed(RanCreate(t, call).0)
  {
    var CreateOrganization(name, slug, id, ownerId) := call.operation;
    if (forall row <- t.organizations :: row.id != id) && (forall row <- t.members :: row.id != ownerId) {
      AppendDistinct(t.organizations, OrganizationRow(id, name, slug), OrganizationId);
      AppendDistinct(t.members, MemberRow(ownerId, id, call.user, RoleName(Owner), call.now), MemberId);
    }
  }

  lemma KeyedKept(t: Tables, call: Call)
    requires Keyed(t)
    ensures Keyed(Ran(t, call).0)
  {
    match call.operation
    case Invite(email, role, id) => InviteKeyed(t, call);
    case RemoveMember(id) => RemovalKeyed(t, call.organization, id);
    case Revoke(id) => WhereDistinct(t.invitations, row => !InvitationAt(call.organization, id, row), InvitationId);
    case SetRole(id, role) => GrantKeyed(t, call.organization, id, role);
    case CreateOrganization(name, slug, id, ownerId) => CreateKeyed(t, call);
    case UpdateOrganization(name, slug) =>
      UpdateKeys(t.organizations, row => IsOrganization(call.organization, row), row => WithName(row, name, slug),
                 OrganizationId);
    case DeleteOrganization => DeletionKeyed(t, call.organization);
    case Leave =>
      var own := Where(t.members, row => MembershipOf(call.organization, call.user, row));
      if own != [] {
        RemovalKeyed(t, call.organization, own[0].id);
      }
    case _ =>
  }

  // ---------- the last owner ----------

  /** Everything but the two operations that may empty their own organisation of owners. */
  predicate Guarded(call: Call, organization: Str) {
    call.organization == organization ==> !call.operation.RemoveMember? && !call.operation.DeleteOrganization?
  }

  /** An owner's row; with `joined`, of somebody the user table knows, who can sign in and act on it. */
  ghost predicate Owns(t: Tables, organization: Str, joined: bool, owner: MemberRow) {
    owner in t.members && OwnerIn(organization, owner) && (joined ==> owner.user in t.users)
  }

  lemma OwnerOutlivesRemoval(t: Tables, organization: Str, at: Str, id: Str, joined: bool, owner: MemberRow)
    requires Owns(t, organization, joined, owner) && !MemberAt(at, id, owner)
    ensures Owns(RanRemove(t, at, id).0, organization, joined, owner)
  {
    WhereMember(t.members, row => !MemberAt(at, id, row), owner);
  }

  lemma GrantedOwner(row: MemberRow, organization: Str)
    requires MemberOf(organization, row)
    ensures OwnerIn(organization, Granted(row, Owner))
  {
    NormalizedName(Owner);
  }

  lemma OwnerOutlivesGrant(t: Tables, organization: Str, at: Str, id: Str, role: Role, joined: bool, owner: MemberRow)
    returns (after: MemberRow)
    requires Owns(t, organization, joined, owner) && (MemberAt(at, id, owner) ==> role == Owner)
    ensures Owns(RoleSet(t, at, id, role), organization, joined, after)
  {
    UpdateMember(t.members, row => MemberAt(at, id, row), row => Granted(row, role), owner);
    after := if MemberAt(at, id, owner) then Granted(owner, role) else owner;
    if MemberAt(at, id, owner) {
      GrantedOwner(owner, organization);
    }
  }

  /** An owner other than the row, if the row is no owner's or the join counts two owners. */
  lemma OwnerElse(t: Tables, organization: Str, row: MemberRow, joined: bool, owner: MemberRow)
    returns (other: MemberRow)
    requires Keyed(t) && Owns(t, organization, joined, owner) && row in t.members
    requires OwnerIn(organization, row) ==> |JoinedOwners(t, organization)| > 1
    ensures Owns(t, organization, joined, other) && other.id != row.id
  {
    if owner.id == row.id {
      SameIdSameMember(t, owner, row);
      other := AnotherOwner(t, organization, row.id);
    } else {
      other := owner;
    }
  }

  lemma OwnerAfterLeave(t: Tables, call: Call, organization: Str, joined: bool, owner: MemberRow)
    returns (after: MemberRow)
    requires Keyed(t) && Owns(t, organization, joined, owner)
    ensures Owns(RanLeave(t, call).0, organization, joined, after)
  {
    after := owner;
    var own := Where(t.members, row => MembershipOf(call.organization, call.user, row));
    if own != [] && !(IsOwner(own[0]) && |JoinedOwners(t, call.organization)| <= 1) {
      FirstHit(t.members, row => MembershipOf(call.organization, call.user, row));
      after := OwnerElse(t, organization, own[0], joined, owner);
      OwnerOutlivesRemoval(t, organization, call.organization, own[0].id, joined, after);
    }
  }

  lemma OwnerAfterGrant(t: Tables, call: Call, id: Str, role: Role, organization: Str, joined: bool, owner: MemberRow)
    returns (after: MemberRow)
    requires Keyed(t) && Owns(t, organization, joined, owner)
    ensures Owns(RanSetRole(t, call, id, role).0, organization, joined, after)
  {
    after := owner;
    var hit := Where(t.members, row => MemberAt(call.organization, id, row));
    if hit != [] && !(IsOwner(hit[0]) && role != Owner && |JoinedOwners(t, call.organization)| <= 1) {
      FirstHit(t.members, row => MemberAt(call.organization, id, row));
      if role != Owner {
        after := OwnerElse(t, organization, hit[0], joined, owner);
      }
      if RoleAtLeast(call.role, role) {
        after := OwnerOutlivesGrant(t, organization, call.organization, id, role, joined, after);
      } else {
        after := owner;
      }
    }
  }

  /** The other operations leave the member table alone, or add to it. */
  lemma MembersOnlyGrow(t: Tables, call: Call, row: MemberRow)
    requires var o := call.operation; !o.RemoveMember? && !o.SetRole? && !o.DeleteOrganization? && !o.Leave?
    requires row in t.members
    ensures row in Ran(t, call).0.members && Ran(t, call).0.users == t.users
  {
  }

  lemma LeaveCall(t: Tables, call: Call)
    requires call.operation.Leave?
    ensures Ran(t, call) == RanLeave(t, call)
  {
  }

  lemma GrantCall(t: Tables, call: Call)
    requires call.operation.SetRole?
    ensures Ran(t, call) == RanSetRole(t, call, call.operation.memberId, call.operation.newRole)
  {
  }

  lemma OwnerAfterLeaveCall(t: Tables, call: Call, organization: Str, joined: bool, owner: MemberRow)
    returns (after: MemberRow)
    requires Keyed(t) && Owns(t, organization, joined, owner) && call.operation.Leave?
    ensures Owns(Ran(t, call).0, organization, joined, after)
  {
    LeaveCall(t, call);
    after := OwnerAfterLeave(t, call, organization, joined, owner);
  }

  lemma OwnerAfterGrantCall(t: Tables, call: Call, organization: Str, joined: bool, owner: MemberRow)
    returns (after: MemberRow)
    requires Keyed(t) && Owns(t, organization, joined, owner) && call.operation.SetRole?
    ensures Owns(Ran(t, call).0, organization, joined, after)
  {
    GrantCall(t, call);
    after := OwnerAfterGrant(t, call, call.operation.memberId, call.operation.newRole, organization, joined, owner);
  }

  lemma OwnerAfterRemovalCall(t: Tables, call: Call, organization: Str, joined: bool, owner: MemberRow)
    requires Owns(t, organization, joined, owner) && call.operation.RemoveMember? && call.organization != organization
    ensures Owns(Ran(t, call).0, organization, joined, owner)
  {
    OwnerOutlivesRemoval(t, organization, call.organization, call.operation.memberId, joined, owner);
  }

  lemma DeletionCall(t: Tables, call: Call)
    requires call.operation.DeleteOrganization?
    ensures Ran(t, call) == RanDelete(t, call.organization)
  {
  }

  lemma OwnerOutlivesDeletion(t: Tables, organization: Str, at: Str, joined: bool, owner: MemberRow)
    requires Owns(t, organization, joined, owner) && at != organization
    ensures Owns(RanDelete(t, at).0, organization, joined, owner)
  {
    WhereMember(t.members, row => !MemberOf(at, row), owner);
  }

  lemma OwnerAfterDeletionCall(t: Tables, call: Call, organization: Str, joined: bool, owner: MemberRow)
    requires Owns(t, organization, joined, owner) && call.operation.DeleteOrganization?
      && call.organization != organization
    ensures Owns(Ran(t, call).0, organization, joined, owner)
  {
    DeletionCall(t, call);
    OwnerOutlivesDeletion(t, organization, call.organization, joined, owner);
  }

  lemma OwnerAfter(t: Tables, call: Call, organization: Str, joined: bool, owner: MemberRow) returns (after: MemberRow)
    requires Keyed(t) && Owns(t, organization, joined, owner) && Guarded(call, organization)
    ensures Owns(Ran(t, call).0, organization, joined, after)
  {
    after := owner;
    if call.operation.RemoveMember? {
      OwnerAfterRemovalCall(t, call, organization, joined, owner);
    } else if call.operation.DeleteOrganization? {
      OwnerAfterDeletionCall(t, call, organization, joined, owner);
    } else if call.operation.SetRole? {
      after := OwnerAfterGrantCall(t, call, organization, joined, owner);
    } else if call.operation.Leave? {
      after := OwnerAfterLeaveCall(t, call, organization, joined, owner);
    } else {
      MembersOnlyGrow(t, call, owner);
    }
  }

  lemma OwnerKept(t: Tables, call: Call, organization: Str, joined: bool)
    requires Keyed(t) && HasOwner(t, organization, joined) && Guarded(call, organization)
    ensures HasOwner(Ran(t, call).0, organization, joined)
  {
    var owner :| Owns(t, organization, joined, owner);
    var after := OwnerAfter(t, call, organization, joined, owner);
  }

  /**
   * However members change roles, leave, are invited, or organisations come and change, an owner stays;
   * and with `joined`, one who has a user row, so that somebody can still administer the organisation.
   */
  lemma {:induction false} LastOwnerStays(t: Tables, calls: seq<Call>, organization: Str, joined: bool)
    requires Keyed(t) && HasOwner(t, organization, joined) && forall call <- calls :: Guarded(call, organization)
    ensures HasOwner(RanAll(t, calls), organization, joined)
    decreases |calls|
  {
    if calls != [] {
      KeyedKept(t, calls[0]);
      OwnerKept(t, calls[0], organization, joined);
      LastOwnerStays(Ran(t, calls[0]).0, calls[1..], organization, joined);
    }
  }

  lemma CreateOwned(t: Tables, call: Call)
    requires call.operation.CreateOrganization? && RanCreate(t, call).1.Found?
    ensures HasOwner(RanCreate(t, call).0, call.operation.id, call.user in t.users)
  {
    var CreateOrganization(name, slug, id, ownerId) := call.operation;
    var row := MemberRow(ownerId, id, call.user, RoleName(Owner), call.now);
    NormalizedName(Owner);
    assert RanCreate(t, call).0.members == t.members + [row];
    assert Owns(RanCreate(t, call).0, id, call.user in t.users, row);
  }

  lemma CreateCall(t: Tables, call: Call)
    requires call.operation.CreateOrganization?
    ensures Ran(t, call) == RanCreate(t, call)
  {
  }

  /** An organisation is born with an owner: its creator. */
  lemma CreatedOwned(t: Tables, call: Call)
    requires call.operation.CreateOrganization? && Ran(t, call).1.Found?
    ensures HasOwner(Ran(t, call).0, call.operation.id, call.user in t.users)
  {
    CreateCall(t, call);
    CreateOwned(t, call);
  }

  /** Removing a member by id carries no guard: an owner is left exactly when another row is one. */
  lemma RemovalExactly(t: Tables, call: Call, joined: bool)
    requires Keyed(t) && call.operation.RemoveMember?
    ensures HasOwner(Ran(t, call).0, call.organization, joined)
      <==> exists row :: Owns(t, call.organization, joined, row) && row.id != call.operation.memberId
  {
    var id := call.operation.memberId;
    var stays := row => !MemberAt(call.organization, id, row);
    var after := Ran(t, call).0.members;
    WhereAll(t.members, row => MemberAt(call.organization, id, row), stays);
    forall row: MemberRow ensures row in after <==> row in t.members && stays(row) {
      WhereMember(t.members, stays, row);
    }
    if row :| Owns(t, call.organization, joined, row) && row.id != id {
      assert stays(row) && Owns(Ran(t, call).0, call.organization, joined, row);
    }
    if row :| Owns(Ran(t, call).0, call.organization, joined, row) {
      assert Owns(t, call.organization, joined, row) && row.id != id;
    }
  }

  /** An owner can be removed by id though nobody else owns the organisation. */
  lemma RemovalOrphans() returns (t: Tables, call: Call)
    ensures Keyed(t) && HasOwner(t, call.organization, true) && Ran(t, call).1.RemovedId?
    ensures !HasOwner(Ran(t, call).0, call.organization, false)
  {
    var row := MemberRow(Lit("m"), Lit("o"), Lit("u"), RoleName(Owner), 0);
    t := Tables([], map[Lit("u") := Person(Lit("U"), Lit("e"))], [row], []);
    call := Call(Lit("o"), Lit("a"), Admin, RemoveMember(Lit("m")), 0);
    NormalizedName(Owner);
    assert Owns(t, Lit("o"), true, row);
    WhereMember(t.members, r => MemberAt(Lit("o"), Lit("m"), r), row);
    RemovalExactly(t, call, false);
  }

  // ---------- what an error answer leaves behind ----------

  /** The role passes every check in front of the write. */
  predicate ReachesWrite(t: Tables, call: Call, id: Str, role: Role) {
    var hit := Where(t.members, row => MemberAt(call.organization, id, row));
    && RoleAtLeast(call.role, role) && hit != []
    && !(IsOwner(hit[0]) && role != Owner && |JoinedOwners(t, call.organization)| <= 1)
  }

  /** The role is written to some row that had another, and nobody is found to show it with. */
  ghost predicate WritesUnseen(t: Tables, call: Call, id: Str, role: Role) {
    && ReachesWrite(t, call, id, role)
    && Where(t.members, row => MemberAt(call.organization, id, row))[0].user !in t.users
    && exists row <- t.members :: MemberAt(call.organization, id, row) && row.role != RoleName(role)
  }

  /** There is no organisation to delete, but something of it. */
  ghost predicate DeletesUnfound(t: Tables, organization: Str) {
    && Where(t.organizations, row => IsOrganization(organization, row)) == []
    && ((exists row <- t.members :: MemberOf(organization, row))
        || exists row <- t.invitations :: InvitedTo(organization, row))
  }

  lemma SetRoleLeaves(t: Tables, call: Call, id: Str, role: Role)
    ensures RanSetRole(t, call, id, role).1.Refused? && RanSetRole(t, call, id, role).0 != t
      <==> WritesUnseen(t, call, id, role)
  {
    UpdateSame(t.members, row => MemberAt(call.organization, id, row), row => Granted(row, role));
    if ReachesWrite(t, call, id, role) {
      assert RanSetRole(t, call, id, role).0 == RoleSet(t, call.organization, id, role);
    }
  }

  lemma DeletionLeaves(t: Tables, organization: Str)
    ensures RanDelete(t, organization).1.Refused? && RanDelete(t, organization).0 != t
      <==> DeletesUnfound(t, organization)
  {
    WhereRest(t.members, row => MemberOf(organization, row), row => !MemberOf(organization, row));
    WhereRest(t.invitations, row => InvitedTo(organization, row), row => !InvitedTo(organization, row));
    WhereAll(t.organizations, row => IsOrganization(organization, row), row => !IsOrganization(organization, row));
  }

  lemma OtherRefusals(t: Tables, call: Call)
    requires !call.operation.SetRole? && !call.operation.DeleteOrganization? && Ran(t, call).1.Refused?
    ensures Ran(t, call).0 == t
  {
  }

  /**
   * A call is refused and changes the tables all the same in exactly two cases: a role written before
   * nobody is found to show it with, and the members and invitations of an organisation without a row.
   */
  lemma RefusalLeaves(t: Tables, call: Call)
    ensures Ran(t, call).1.Refused? && Ran(t, call).0 != t <==>
      match call.operation
      case SetRole(id, role) => WritesUnseen(t, call, id, role)
      case DeleteOrganization => DeletesUnfound(t, call.organization)
      case _ => false
  {
    if call.operation.SetRole? {
      GrantCall(t, call);
      SetRoleLeaves(t, call, call.operation.memberId, call.operation.newRole);
    } else if call.operation.DeleteOrganization? {
      DeletionCall(t, call);
      DeletionLeaves(t, call.organization);
    } else if Ran(t, call).1.Refused? {
      OtherRefusals(t, call);
    }
  }

  /** A member without a user row: the owner's change of role is refused as an error, and made. */
  lemma RoleWrittenUnseen() returns (t: Tables, call: Call)
    ensures call.operation.SetRole? && Ran(t, call).1 == Refused(Internal) && Ran(t, call).0 != t
  {
    var row := MemberRow(Lit("m"), Lit("o"), Lit("u"), RoleName(Member), 0);
    t := Tables([], map[], [row], []);
    call := Call(Lit("o"), Lit("a"), Owner, SetRole(Lit("m"), Admin), 0);
    NormalizedName(Member);
    RoleNamesDistinct(Member, Admin);
    WhereMember(t.members, r => MemberAt(Lit("o"), Lit("m"), r), row);
    FirstHit(t.members, r => MemberAt(Lit("o"), Lit("m"), r));
    assert MemberAt(Lit("o"), Lit("m"), row) && row in t.members;
    RefusalLeaves(t, call);
  }

  /** No organisation row: the answer is that there is none, and its member is gone. */
  lemma DeletedUnfound() returns (t: Tables, call: Call)
    ensures call.operation.DeleteOrganization? && Ran(t, call).1 == Refused(NotFound) && Ran(t, call).0 != t
  {
    var row := MemberRow(Lit("m"), Lit("o"), Lit("u"), RoleName(Member), 0);
    t := Tables([], map[], [row], []);
    call := Call(Lit("o"), Lit("a"), Owner, DeleteOrganization, 0);
    assert MemberOf(Lit("o"), row) && row in t.members;
    RefusalLeaves(t, call);
  }

  /** A slug no other organisation holds is accepted, unless it is already the organisation's own. */
  lemma OwnSlugRefused(t: Tables, call: Call, slug: Str)
    requires call.operation.UpdateOrganization? && call.operation.newSlug == Some(slug)
    requires exists row <- t.organizations :: row.id == call.organization
    requires forall row <- t.organizations | row.slug == slug :: row.id == call.organization
    ensures Ran(t, call).1.Found? <==> forall row <- t.organizations | row.id == call.organization :: row.slug != slug
    ensures !Ran(t, call).1.Found? ==> Ran(t, call) == (t, Refused(Conflict))
  {
    var taken, mine := row => SlugIs(slug, row), row => IsOrganization(call.organization, row);
    forall row | row in t.organizations
      ensures row in Where(t.organizations, taken) <==> row.slug == slug
      ensures row in Where(t.organizations, mine) <==> row.id == call.organization
    {
      WhereMember(t.organizations, taken, row);
      WhereMember(t.organizations, mine, row);
    }
    if SlugTaken(t, slug) {
      FirstHit(t.organizations, taken);
    }
  }

  // ---------- pending invitations ----------

  ghost predicate OnePending(t: Tables) {
    forall organization, email :: |PendingRows(t, organization, email)| <= 1
  }

  function PendingRows(t: Tables, organization: Str, email: Str): seq<InvitationRow> {
    Where(t.invitations, row => PendingFor(organization, email, row))
  }

  lemma PendingTwice(rows: seq<InvitationRow>, organization: Str, email: Str)
    ensures Where(Where(rows, row => PendingIn(organization, row)), row => Emailed(email, row))
         == Where(rows, row => PendingFor(organization, email, row))
  {
    var pending, emailed := row => PendingIn(organization, row), row => Emailed(email, row);
    WhereCommutes(rows, pending, emailed);
    WhereBoth(rows, pending, emailed, row => PendingFor(organization, email, row));
  }

  lemma InviteKeepsOne(t: Tables, call: Call)
    requires OnePending(t) && call.operation.Invite?
    ensures OnePending(RanInvite(t, call).0)
  {
    var Invite(email, role, id) := call.operation;
    var row := NewInvitation(call, email, role, id);
    PendingTwice(t.invitations, call.organization, email);
    forall o, e ensures |PendingRows(RanInvite(t, call).0, o, e)| <= 1 {
      assert |PendingRows(t, o, e)| <= 1;
      WhereAppend(t.invitations, row, r => PendingFor(o, e, r));
    }
  }

  lemma FewerKeepOne(t: Tables, after: Tables, keep: InvitationRow -> bool)
    requires OnePending(t) && after.invitations == Where(t.invitations, keep)
    ensures OnePending(after)
  {
    forall o, e ensures |PendingRows(after, o, e)| <= 1 {
      assert |PendingRows(t, o, e)| <= 1;
      WhereCommutes(t.invitations, keep, r => PendingFor(o, e, r));
      WhereShrinks(PendingRows(t, o, e), keep);
    }
  }

  lemma OnePendingKept(t: Tables, call: Call)
    requires OnePending(t)
    ensures OnePending(Ran(t, call).0)
  {
    var after := Ran(t, call).0;
    if call.operation.Invite? {
      InviteKeepsOne(t, call);
    } else if call.operation.Revoke? {
      if after != t {
        FewerKeepOne(t, after, row => !InvitationAt(call.organization, call.operation.invitationId, row));
      }
    } else if call.operation.DeleteOrganization? {
      FewerKeepOne(t, after, row => !InvitedTo(call.organization, row));
    } else {
      assert after.invitations == t.invitations;
      SamePending(t, after);
    }
  }

  lemma SamePending(t: Tables, after: Tables)
    requires OnePending(t) && after.invitations == t.invitations
    ensures OnePending(after)
  {
    forall o, e ensures |PendingRows(after, o, e)| <= 1 { assert |PendingRows(t, o, e)| <= 1; }
  }

  /** Through any run, redelivered commands included, an address has at most one pending invitation. */
  lemma {:induction false} NeverTwoPending(t: Tables, calls: seq<Call>)
    requires OnePending(t)
    ensures OnePending(RanAll(t, calls))
    decreases |calls|
  {
    if calls != [] {
      OnePendingKept(t, calls[0]);
      NeverTwoPending(Ran(t, calls[0]).0, calls[1..]);
    }
  }

  /** A redelivered invitation is accepted and changes nothing, whatever id the second delivery draws. */
  lemma InvitedOnce(t: Tables, call: Call, again: Call)
    requires call.operation.Invite? && again.operation.Invite? && Ran(t, call).1 == Accepted
    requires again.organization == call.organization && again.operation.email == call.operation.email
    ensures Ran(Ran(t, call).0, again) == (Ran(t, call).0, Accepted)
  {
    var email := call.operation.email;
    var row := NewInvitation(call, email, call.operation.role, call.operation.id);
    PendingTwice(t.invitations, call.organization, email);
    PendingTwice(t.invitations + [row], call.organization, email);
    WhereAppend(t.invitations, row, r => PendingFor(call.organization, email, r));
  }
}
