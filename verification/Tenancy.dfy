/** One organisation cannot see or touch another through the identity handlers, but for the slug. */
module Tenancy {
  import opened Prelude
  import opened Table
  import opened Registry
  import opened Identity

  /** What belongs to one organisation, with the user table everybody shares. */
  function Own(t: Tables, organization: Str): Tables {
    Tables(Where(t.organizations, row => IsOrganization(organization, row)), t.users,
           Where(t.members, row => MemberOf(organization, row)),
           Where(t.invitations, row => InvitedTo(organization, row)))
  }

  // ---------- others ----------

  /** Creating an organisation is the one call that writes rows of another: the new one. */
  predicate Spares(call: Call, other: Str) {
    other != call.organization && (call.operation.CreateOrganization? ==> call.operation.id != other)
  }

  lemma RemovalSpares(t: Tables, organization: Str, id: Str, other: Str)
    requires other != organization
    ensures Own(RanRemove(t, organization, id).0, other) == Own(t, other)
  {
    WhereImplied(t.members, row => MemberOf(other, row), row => !MemberAt(organization, id, row));
  }

  lemma RevocationSpares(t: Tables, organization: Str, id: Str, other: Str)
    requires other != organization
    ensures Own(RanRevoke(t, organization, id).0, other) == Own(t, other)
  {
    WhereImplied(t.invitations, row => InvitedTo(other, row), row => !InvitationAt(organization, id, row));
  }

  lemma GrantSpares(t: Tables, organization: Str, id: Str, role: Role, other: Str)
    requires other != organization
    ensures Own(RoleSet(t, organization, id, role), other) == Own(t, other)
  {
    UpdateApart(t.members, row => MemberAt(organization, id, row), row => MemberOf(other, row),
                row => Granted(row, role));
  }

  lemma InviteSpares(t: Tables, call: Call, other: Str)
    requires call.operation.Invite? && other != call.organization
    ensures Own(RanInvite(t, call).0, other) == Own(t, other)
  {
    var Invite(email, role, id) := call.operation;
    WhereAppend(t.invitations, NewInvitation(call, email, role, id), row => InvitedTo(other, row));
  }

  lemma CreationSpares(t: Tables, call: Call, other: Str)
    requires call.operation.CreateOrganization? && call.operation.id != other
    ensures Own(RanCreate(t, call).0, other) == Own(t, other)
  {
    var CreateOrganization(name, slug, id, ownerId) := call.operation;
    WhereAppend(t.organizations, OrganizationRow(id, name, slug), row => IsOrganization(other, row));
    WhereAppend(t.members, MemberRow(ownerId, id, call.user, RoleName(Owner), call.now), row => MemberOf(other, row));
  }

  lemma UpdateSpares(t: Tables, organization: Str, name: Option<Str>, slug: Option<Str>, other: Str)
    requires other != organization
    ensures Own(RanUpdate(t, organization, name, slug).0, other) == Own(t, other)
  {
    UpdateApart(t.organizations, row => IsOrganization(organization, row), row => IsOrganization(other, row),
                row => WithName(row, name, slug));
  }

  lemma DeletionSpares(t: Tables, organization: Str, other: Str)
    requires other != organization
    ensures Own(RanDelete(t, organization).0, other) == Own(t, other)
  {
    WhereImplied(t.organizations, row => IsOrganization(other, row), row => !IsOrganization(organization, row));
    WhereImplied(t.members, row => MemberOf(other, row), row => !MemberOf(organization, row));
    WhereImplied(t.invitations, row => InvitedTo(other, row), row => !InvitedTo(organization, row));
  }

  lemma LeavingSpares(t: Tables, call: Call, other: Str)
    requires other != call.organization
    ensures Own(RanLeave(t, call).0, other) == Own(t, other)
  {
    var own := Where(t.members, row => MembershipOf(call.organization, call.user, row));
    if own != [] {
      RemovalSpares(t, call.organization, own[0].id, other);
    }
  }

  /** A handler run for one organisation leaves every other organisation's rows as they were. */
  lemma OthersUntouched(t: Tables, call: Call, other: Str)
    requires Spares(call, other)
    ensures Own(Ran(t, call).0, other) == Own(t, other)
  {
    match call.operation
    case Invite(_, _, _) => InviteSpares(t, call, other);
    case RemoveMember(id) => RemovalSpares(t, call.organization, id, other);
    case Revoke(id) => RevocationSpares(t, call.organization, id, other);
    case SetRole(id, role) => GrantSpares(t, call.organization, id, role, other);
    case CreateOrganization(_, _, _, _) => CreationSpares(t, call, other);
    case UpdateOrganization(name, slug) => UpdateSpares(t, call.organization, name, slug, other);
    case DeleteOrganization => DeletionSpares(t, call.organization, other);
    case Leave => LeavingSpares(t, call, other);
    case _ =>
  }

  // ---------- oneself ----------

  /** Two ways of running a call that nobody in the organisation can tell apart. */
  ghost predicate Alike(a: (Tables, Outcome), b: (Tables, Outcome), organization: Str) {
    a.1 == b.1 && Own(a.0, organization) == Own(b.0, organization)
  }

  lemma OwnTwice(t: Tables, organization: Str)
    ensures Own(Own(t, organization), organization) == Own(t, organization)
  {
    WhereTwice(t.organizations, row => IsOrganization(organization, row));
    WhereTwice(t.members, row => MemberOf(organization, row));
    WhereTwice(t.invitations, row => InvitedTo(organization, row));
  }

  lemma SameMemberAt(t: Tables, organization: Str, id: Str)
    ensures Where(Own(t, organization).members, row => MemberAt(organization, id, row))
         == Where(t.members, row => MemberAt(organization, id, row))
  {
    WhereImplied(t.members, row => MemberAt(organization, id, row), row => MemberOf(organization, row));
  }

  lemma SameOwners(t: Tables, organization: Str)
    ensures JoinedOwners(Own(t, organization), organization) == JoinedOwners(t, organization)
  {
    WhereImplied(t.members, row => Joined(t.users, organization, row), row => MemberOf(organization, row));
  }

  lemma SameSeats(t: Tables, organization: Str)
    ensures Seats(Own(t, organization), organization) == Seats(t, organization)
  {
    WhereTwice(t.members, row => MemberOf(organization, row));
  }

  lemma SameOrganization(t: Tables, organization: Str)
    ensures Where(Own(t, organization).organizations, row => IsOrganization(organization, row))
         == Where(t.organizations, row => IsOrganization(organization, row))
  {
    WhereTwice(t.organizations, row => IsOrganization(organization, row));
  }

  lemma RemovalAlike(t: Tables, organization: Str, id: Str)
    ensures Alike(RanRemove(Own(t, organization), organization, id), RanRemove(t, organization, id), organization)
  {
    OwnTwice(t, organization);
    SameMemberAt(t, organization, id);
    WhereCommutes(t.members, row => MemberOf(organization, row), row => !MemberAt(organization, id, row));
    WhereTwice(Where(t.members, row => !MemberAt(organization, id, row)), row => MemberOf(organization, row));
  }

  lemma RevocationAlike(t: Tables, organization: Str, id: Str)
    ensures Alike(RanRevoke(Own(t, organization), organization, id), RanRevoke(t, organization, id), organization)
  {
    OwnTwice(t, organization);
    WhereImplied(t.invitations, row => InvitationAt(organization, id, row), row => InvitedTo(organization, row));
    WhereCommutes(t.invitations, row => InvitedTo(organization, row), row => !InvitationAt(organization, id, row));
    WhereTwice(Where(t.invitations, row => !InvitationAt(organization, id, row)), row => InvitedTo(organization, row));
  }

  lemma GrantAlike(t: Tables, organization: Str, id: Str, role: Role)
    ensures Own(RoleSet(Own(t, organization), organization, id, role), organization)
         == Own(RoleSet(t, organization, id, role), organization)
  {
    OwnTwice(t, organization);
    UpdateWithin(t.members, row => MemberAt(organization, id, row), row => MemberOf(organization, row),
                 row => Granted(row, role));
    UpdateWithin(Own(t, organization).members, row => MemberAt(organization, id, row),
                 row => MemberOf(organization, row),
                 row => Granted(row, role));
  }

  lemma SetRoleAlike(t: Tables, call: Call, id: Str, role: Role)
    ensures Alike(RanSetRole(Own(t, call.organization), call, id, role), RanSetRole(t, call, id, role),
                  call.organization)
  {
    OwnTwice(t, call.organization);
    SameMemberAt(t, call.organization, id);
    SameOwners(t, call.organization);
    GrantAlike(t, call.organization, id, role);
  }

  lemma LeavingAlike(t: Tables, call: Call)
    ensures Alike(RanLeave(Own(t, call.organization), call), RanLeave(t, call), call.organization)
  {
    OwnTwice(t, call.organization);
    SameOwners(t, call.organization);
    WhereImplied(t.members, row => MembershipOf(call.organization, call.user, row),
                 row => MemberOf(call.organization, row));
    var own := Where(t.members, row => MembershipOf(call.organization, call.user, row));
    if own != [] {
      RemovalAlike(t, call.organization, own[0].id);
    }
  }

  lemma DeletionAlike(t: Tables, organization: Str)
    ensures Alike(RanDelete(Own(t, organization), organization), RanDelete(t, organization), organization)
  {
    SameOrganization(t, organization);
    WhereCommutes(t.organizations, row => IsOrganization(organization, row), row => !IsOrganization(organization, row));
    WhereCommutes(t.members, row => MemberOf(organization, row), row => !MemberOf(organization, row));
    WhereCommutes(t.invitations, row => InvitedTo(organization, row), row => !InvitedTo(organization, row));
    WhereTwice(Where(t.organizations, row => !IsOrganization(organization, row)),
               row => IsOrganization(organization, row));
    WhereTwice(Where(t.members, row => !MemberOf(organization, row)), row => MemberOf(organization, row));
    WhereTwice(Where(t.invitations, row => !InvitedTo(organization, row)), row => InvitedTo(organization, row));
  }

  /** The ids a call brings are new: they are random UUIDs. */
  predicate NewIds(t: Tables, call: Call) {
    match call.operation
    case Invite(_, _, id) => forall row <- t.invitations :: row.id != id
    case CreateOrganization(_, _, id, ownerId) =>
      (forall row <- t.organizations :: row.id != id) && (forall row <- t.members :: row.id != ownerId)
    case _ => true
  }

  function AskedSlug(call: Call): Option<Str> {
    match call.operation
    case CreateOrganization(_, slug, _, _) => Some(slug)
    case UpdateOrganization(_, slug) => slug
    case _ => None
  }

  /** The slug asked for belongs to somebody else: the one thing a tenant learns about the others. */
  predicate SlugElsewhere(t: Tables, call: Call) {
    AskedSlug(call).Some? && exists row <- t.organizations ::
      row.slug == AskedSlug(call).value && row.id != call.organization
  }

  lemma TakenMeans(t: Tables, slug: Str)
    ensures SlugTaken(t, slug) <==> exists row <- t.organizations :: row.slug == slug
  {
    var hit := Where(t.organizations, row => SlugIs(slug, row));
    if hit != [] {
      WhereMember(t.organizations, row => SlugIs(slug, row), hit[0]);
    }
    if row :| row in t.organizations && row.slug == slug {
      WhereMember(t.organizations, r => SlugIs(slug, r), row);
    }
  }

  lemma OwnOrganization(t: Tables, organization: Str, row: OrganizationRow)
    ensures row in Own(t, organization).organizations <==> row in t.organizations && row.id == organization
  {
    WhereMember(t.organizations, r => IsOrganization(organization, r), row);
  }

  lemma SameSlugTaken(t: Tables, call: Call)
    requires AskedSlug(call).Some? && !SlugElsewhere(t, call)
    ensures SlugTaken(Own(t, call.organization), AskedSlug(call).value) == SlugTaken(t, AskedSlug(call).value)
  {
    var slug, own := AskedSlug(call).value, Own(t, call.organization);
    TakenMeans(t, slug);
    TakenMeans(own, slug);
    forall row ensures row in own.organizations <==> row in t.organizations && row.id == call.organization {
      OwnOrganization(t, call.organization, row);
    }
    if row :| row in t.organizations && row.slug == slug {
      assert row in own.organizations;
    }
  }

  lemma SlugElsewhereConflicts(t: Tables, call: Call)
    requires SlugElsewhere(t, call)
    ensures Ran(t, call) == (t, Refused(Conflict))
  {
    TakenMeans(t, AskedSlug(call).value);
  }

  lemma InviteAlike(t: Tables, call: Call)
    requires call.operation.Invite? && NewIds(t, call)
    ensures Alike(RanInvite(Own(t, call.organization), call), RanInvite(t, call), call.organization)
  {
    var Invite(email, role, id) := call.operation;
    var row, own := NewInvitation(call, email, role, id), Own(t, call.organization);
    OwnTwice(t, call.organization);
    WhereImplied(t.invitations, r => PendingIn(call.organization, r), r => InvitedTo(call.organization, r));
    forall r | r in own.invitations ensures r in t.invitations {
      WhereMember(t.invitations, x => InvitedTo(call.organization, x), r);
    }
    WhereAppend(t.invitations, row, r => InvitedTo(call.organization, r));
    WhereAppend(own.invitations, row, r => InvitedTo(call.organization, r));
  }

  lemma OwnNewIds(t: Tables, call: Call)
    requires NewIds(t, call)
    ensures NewIds(Own(t, call.organization), call)
  {
    var own := Own(t, call.organization);
    forall r | r in own.invitations ensures r in t.invitations {
      WhereMember(t.invitations, x => InvitedTo(call.organization, x), r);
    }
    forall r | r in own.members ensures r in t.members {
      WhereMember(t.members, x => MemberOf(call.organization, x), r);
    }
    forall r | r in own.organizations ensures r in t.organizations { OwnOrganization(t, call.organization, r); }
  }

  lemma CreationOwn(t: Tables, call: Call)
    requires call.operation.CreateOrganization? && call.operation.id != call.organization
    ensures Own(RanCreate(t, call).0, call.organization) == Own(t, call.organization)
  {
    CreationSpares(t, call, call.organization);
  }

  lemma CreationAlike(t: Tables, call: Call)
    requires call.operation.CreateOrganization? && NewIds(t, call) && !SlugElsewhere(t, call)
    requires call.operation.id != call.organization
    ensures Alike(RanCreate(Own(t, call.organization), call), RanCreate(t, call), call.organization)
  {
    OwnTwice(t, call.organization);
    SameSlugTaken(t, call);
    OwnNewIds(t, call);
    CreationOwn(t, call);
    CreationOwn(Own(t, call.organization), call);
  }

  lemma UpdateAlike(t: Tables, call: Call)
    requires call.operation.UpdateOrganization? && !SlugElsewhere(t, call)
    ensures var UpdateOrganization(name, slug) := call.operation;
      Alike(RanUpdate(Own(t, call.organization), call.organization, name, slug),
            RanUpdate(t, call.organization, name, slug), call.organization)
  {
    var UpdateOrganization(name, slug) := call.operation;
    var mine: OrganizationRow -> bool := row => IsOrganization(call.organization, row);
    OwnTwice(t, call.organization);
    SameOrganization(t, call.organization);
    SameSeats(t, call.organization);
    if slug.Some? {
      SameSlugTaken(t, call);
    }
    UpdateWithin(t.organizations, mine, mine, row => WithName(row, name, slug));
    UpdateWithin(Own(t, call.organization).organizations, mine, mine, row => WithName(row, name, slug));
  }

  lemma ReadsAlike(t: Tables, call: Call)
    requires call.operation.ReadMembers? || call.operation.ReadInvitations? || call.operation.ReadOrganization?
    ensures Alike(Ran(Own(t, call.organization), call), Ran(t, call), call.organization)
  {
    OwnTwice(t, call.organization);
    WhereImplied(t.members, row => Joined(t.users, call.organization, row), row => MemberOf(call.organization, row));
    WhereImplied(t.invitations, row => PendingIn(call.organization, row), row => InvitedTo(call.organization, row));
    SameOrganization(t, call.organization);
    SameSeats(t, call.organization);
  }

  /**
   * What a handler does to its organisation and answers is decided by that organisation's own rows and
   * the user table, unless it asks for a slug somebody else holds: then the answer is a conflict.
   */
  lemma TenantRuns(t: Tables, call: Call)
    requires NewIds(t, call) && Settles(call)
    ensures !SlugElsewhere(t, call) ==> Alike(Ran(Own(t, call.organization), call), Ran(t, call), call.organization)
    ensures SlugElsewhere(t, call) ==> Ran(t, call) == (t, Refused(Conflict))
  {
    if SlugElsewhere(t, call) {
      SlugElsewhereConflicts(t, call);
    } else {
      match call.operation
      case Invite(_, _, _) => InviteAlike(t, call);
      case RemoveMember(id) => RemovalAlike(t, call.organization, id);
      case Revoke(id) => RevocationAlike(t, call.organization, id);
      case SetRole(id, role) => SetRoleAlike(t, call, id, role);
      case CreateOrganization(_, _, _, _) => CreationAlike(t, call);
      case UpdateOrganization(_, _) => UpdateAlike(t, call);
      case DeleteOrganization => DeletionAlike(t, call.organization);
      case Leave => LeavingAlike(t, call);
      case ReadMembers => ReadsAlike(t, call);
      case ReadInvitations => ReadsAlike(t, call);
      case ReadOrganization => ReadsAlike(t, call);
    }
  }

  /** A new organisation's id is not the caller's own. */
  predicate Settles(call: Call) { call.operation.CreateOrganization? ==> call.operation.id != call.organization }

  /** The same call in two databases that agree on the organisation's rows and the users. */
  lemma TwoRuns(t: Tables, u: Tables, call: Call)
    requires Own(t, call.organization) == Own(u, call.organization) && Settles(call)
    requires NewIds(t, call) && NewIds(u, call) && !SlugElsewhere(t, call) && !SlugElsewhere(u, call)
    ensures Alike(Ran(t, call), Ran(u, call), call.organization)
  {
    TenantRuns(t, call);
    TenantRuns(u, call);
  }

  // ---------- whole histories ----------

  /** The answers to one organisation's calls in a run. */
  function Answered(t: Tables, calls: seq<Call>, organization: Str): seq<Outcome>
    decreases |calls|
  {
    if calls == [] then []
    else if calls[0].organization == organization
    then [Ran(t, calls[0]).1] + Answered(Ran(t, calls[0]).0, calls[1..], organization)
    else Answered(Ran(t, calls[0]).0, calls[1..], organization)
  }

  function Only(calls: seq<Call>, organization: Str): seq<Call> {
    if calls == [] then []
    else if calls[0].organization == organization then [calls[0]] + Only(calls[1..], organization)
    else Only(calls[1..], organization)
  }

  /** Ids are new when they are drawn, and nobody asks for a slug another organisation holds. */
  predicate Undisturbed(t: Tables, calls: seq<Call>, organization: Str)
    decreases |calls|
  {
    calls == [] || (
      && (if calls[0].organization == organization
          then NewIds(t, calls[0]) && Settles(calls[0]) && !SlugElsewhere(t, calls[0])
          else Spares(calls[0], organization))
      && Undisturbed(Ran(t, calls[0]).0, calls[1..], organization))
  }

  /** Through any history an organisation gets the answers, and keeps the rows, of a history without the others. */
  lemma {:induction false} TenantsApart(t: Tables, u: Tables, calls: seq<Call>, organization: Str)
    requires Own(t, organization) == Own(u, organization)
    requires Undisturbed(t, calls, organization) && Undisturbed(u, Only(calls, organization), organization)
    ensures Answered(t, calls, organization) == Answered(u, Only(calls, organization), organization)
    ensures Own(RanAll(t, calls), organization) == Own(RanAll(u, Only(calls, organization)), organization)
    decreases |calls|
  {
    if calls != [] {
      if calls[0].organization == organization {
        var only := Only(calls, organization);
        assert only[0] == calls[0] && only[1..] == Only(calls[1..], organization);
        TwoRuns(t, u, calls[0]);
        TenantsApart(Ran(t, calls[0]).0, Ran(u, calls[0]).0, calls[1..], organization);
      } else {
        OthersUntouched(t, calls[0], organization);
        TenantsApart(Ran(t, calls[0]).0, u, calls[1..], organization);
      }
    }
  }
}
