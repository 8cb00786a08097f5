/** The identity service's storage and handlers, changing the tables step by step. */
module IdentityService {
  import opened Prelude
  import opened Table
  import opened Registry
  import opened Identity

  class Database {
    var organizations: seq<OrganizationRow>
    var users: map<Str, Person>
    var members: seq<MemberRow>
    var invitations: seq<InvitationRow>

    constructor (users: map<Str, Person>)
      ensures Snapshot() == Tables([], users, [], [])
    {
      organizations, members, invitations := [], [], [];
      this.users := users;
    }

    function Snapshot(): Tables
      reads this
    {
      Tables(organizations, users, members, invitations)
    }

    // ---------- storage ----------

    method RemoveRow(organization: Str, id: Str) returns (removed: Option<Str>)
      modifies this`members
      ensures RanRemove(old(Snapshot()), organization, id)
        == (Snapshot(), if removed.Some? then RemovedId(removed.value) else Refused(NotFound))
    {
      var hit := Where(members, row => MemberAt(organization, id, row));
      if hit == [] {
        return None;
      }
      members := Where(members, row => !MemberAt(organization, id, row));
      removed := Some(id);
    }

    method CreateInvitation(row: InvitationRow) returns (created: bool)
      modifies this`invitations
      ensures created == forall r <- old(invitations) :: r.id != row.id
      ensures invitations == if created then old(invitations) + [row] else old(invitations)
    {
      created := forall r <- invitations :: r.id != row.id;
      if created {
        invitations := invitations + [row];
      }
    }

    method RevokeInvitation(organization: Str, id: Str) returns (removed: Option<Str>)
      modifies this`invitations
      ensures RanRevoke(old(Snapshot()), organization, id)
        == (Snapshot(), if removed.Some? then RemovedId(removed.value) else Refused(NotFound))
    {
      var hit := Where(invitations, row => InvitationAt(organization, id, row));
      if hit == [] {
        return None;
      }
      invitations := Where(invitations, row => !InvitationAt(organization, id, row));
      removed := Some(id);
    }

    /** The row is written first; None when there is no row, or nobody to show it with. */
    method SetMemberRole(organization: Str, id: Str, role: Role) returns (changed: Option<MemberView>)
      modifies this`members
      ensures Snapshot() == RoleSet(old(Snapshot()), organization, id, role)
      ensures var hit := Where(old(members), row => MemberAt(organization, id, row));
        changed == if hit == [] || Granted(hit[0], role).user !in users then None
                   else Some(Viewed(users, Granted(hit[0], role)))
    {
      var hit := Where(members, row => MemberAt(organization, id, row));
      members := UpdateWhere(members, row => MemberAt(organization, id, row), row => Granted(row, role));
      if hit == [] {
        return None;
      }
      var row := Granted(hit[0], role);
      changed := if row.user in users then Some(Viewed(users, row)) else None;
    }

    /** Both rows or neither. */
    method InsertOrganization(row: OrganizationRow, owner: MemberRow) returns (created: bool)
      modifies this`organizations, this`members
      ensures created == ((forall r <- old(organizations) :: r.id != row.id)
                          && forall r <- old(members) :: r.id != owner.id)
      ensures organizations == if created then old(organizations) + [row] else old(organizations)
      ensures members == if created then old(members) + [owner] else old(members)
    {
      created := false;
      if exists r <- organizations :: r.id == row.id {
        return;
      }
      if exists r <- members :: r.id == owner.id {
        return;
      }
      organizations := organizations + [row];
      members := members + [owner];
      created := true;
    }

    method DeleteEverything(organization: Str) returns (removed: Option<Str>)
      modifies this`organizations, this`members, this`invitations
      ensures RanDelete(old(Snapshot()), organization)
        == (Snapshot(), if removed.Some? then RemovedId(removed.value) else Refused(NotFound))
    {
      invitations := Where(invitations, row => !InvitedTo(organization, row));
      members := Where(members, row => !MemberOf(organization, row));
      var hit := Where(organizations, row => IsOrganization(organization, row));
      organizations := Where(organizations, row => !IsOrganization(organization, row));
      removed := if hit == [] then None else Some(organization);
    }

    // ---------- handlers ----------

    /** `assertNotTheLastOwner`: false where it throws. */
    method NotTheLastOwner(organization: Str) returns (ok: bool)
      ensures ok == (|JoinedOwners(Snapshot(), organization)| > 1)
    {
      var people := users;
      var rows := Where(members, row => Joined(people, organization, row));
      var owners := Where(rows, row => IsOwner(row));
      ok := !(|owners| <= 1);
    }

    method Invited(call: Call, email: Str, role: Role, id: Str) returns (outcome: Outcome)
      requires call.operation == Invite(email, role, id)
      modifies this`invitations
      ensures (Snapshot(), outcome) == RanInvite(old(Snapshot()), call)
    {
      var existing := Where(invitations, row => PendingIn(call.organization, row));
      if Where(existing, row => Emailed(email, row)) != [] {
        return Accepted;
      }
      var created := CreateInvitation(NewInvitation(call, email, role, id));
      outcome := if created then Accepted else Refused(Internal);
    }

    method RoleChanged(call: Call, id: Str, role: Role) returns (outcome: Outcome)
      modifies this`members
      ensures (Snapshot(), outcome) == RanSetRole(old(Snapshot()), call, id, role)
    {
      if !RoleAtLeast(call.role, role) {
        return Refused(PermissionDenied);
      }
      var target := Where(members, row => MemberAt(call.organization, id, row));
      if target == [] {
        return Refused(NotFound);
      }
      if IsOwner(target[0]) && role != Owner {
        var ok := NotTheLastOwner(call.organization);
        if !ok {
          return Refused(Conflict);
        }
      }
      var updated := SetMemberRole(call.organization, id, role);
      outcome := if updated.Some? then Changed(updated.value) else Refused(Internal);
    }

    method Left(call: Call) returns (outcome: Outcome)
      modifies this`members
      ensures (Snapshot(), outcome) == RanLeave(old(Snapshot()), call)
    {
      var own := Where(members, row => MembershipOf(call.organization, call.user, row));
      if own == [] {
        return Refused(NotFound);
      }
      if IsOwner(own[0]) {
        var ok := NotTheLastOwner(call.organization);
        if !ok {
          return Refused(Conflict);
        }
      }
      var removed := RemoveRow(call.organization, own[0].id);
      outcome := if removed.Some? then RemovedId(removed.value) else Refused(Internal);
    }

    method OrganizationCreated(call: Call, name: Str, slug: Str, id: Str, ownerId: Str) returns (outcome: Outcome)
      requires call.operation == CreateOrganization(name, slug, id, ownerId)
      modifies this`organizations, this`members
      ensures (Snapshot(), outcome) == RanCreate(old(Snapshot()), call)
    {
      if Where(organizations, row => SlugIs(slug, row)) != [] {
        return Refused(Conflict);
      }
      var row := OrganizationRow(id, name, slug);
      var created := InsertOrganization(row, MemberRow(ownerId, id, call.user, RoleName(Owner), call.now));
      outcome := if created then Found(row, 1) else Refused(Internal);
    }

    method OrganizationUpdated(organization: Str, name: Option<Str>, slug: Option<Str>) returns (outcome: Outcome)
      modifies this`organizations
      ensures (Snapshot(), outcome) == RanUpdate(old(Snapshot()), organization, name, slug)
    {
      if slug.Some? {
        if Where(organizations, row => SlugIs(slug.value, row)) != [] {
          return Refused(Conflict);
        }
      }
      if name.None? && slug.None? {
        return Refused(Internal);
      }
      var hit := Where(organizations, row => IsOrganization(organization, row));
      if hit == [] {
        return Refused(NotFound);
      }
      organizations := UpdateWhere(organizations, row => IsOrganization(organization, row),
                                   row => WithName(row, name, slug));
      outcome := Found(WithName(hit[0], name, slug), |Where(members, row => MemberOf(organization, row))|);
    }

    /** Every handler, dispatched by operation, does to the tables what its specification says. */
    method Handle(call: Call) returns (outcome: Outcome)
      modifies this
      ensures (Snapshot(), outcome) == Ran(old(Snapshot()), call)
    {
      match call.operation {
        case ReadMembers =>
          var people := users;
          outcome := MemberList(Views(people, Where(members, row => Joined(people, call.organization, row))));
        case Invite(email, role, id) =>
          outcome := Invited(call, email, role, id);
        case RemoveMember(id) =>
          var removed := RemoveRow(call.organization, id);
          outcome := if removed.Some? then RemovedId(removed.value) else Refused(NotFound);
        case ReadInvitations =>
          outcome := InvitationList(Where(invitations, row => PendingIn(call.organization, row)));
        case Revoke(id) =>
          var removed := RevokeInvitation(call.organization, id);
          outcome := if removed.Some? then RemovedId(removed.value) else Refused(NotFound);
        case SetRole(id, role) =>
          outcome := RoleChanged(call, id, role);
        case ReadOrganization =>
          outcome := RanRead(Snapshot(), call.organization);
        case CreateOrganization(name, slug, id, ownerId) =>
          outcome := OrganizationCreated(call, name, slug, id, ownerId);
        case UpdateOrganization(name, slug) =>
          outcome := OrganizationUpdated(call.organization, name, slug);
        case DeleteOrganization =>
          var removed := DeleteEverything(call.organization);
          outcome := if removed.Some? then RemovedId(removed.value) else Refused(NotFound);
        case Leave =>
          outcome := Left(call);
      }
    }
  }
}
