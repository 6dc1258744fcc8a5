/** The role handlers of backend/src/controllers/role.controller.ts: validators, create,
    the paged listing with a fixed page size of 10, and the by-id operations. Role names are
    unique (backend/src/models/role.model.ts); permissions are references that no handler
    checks. */
module RoleController {
  import opened Common
  import opened Models
  import opened Paging

  const RoleNameRequired := "Nom du rôle requis"
  const PermissionsNotArray := "Permissions doit être un tableau"

  /** getRoles' page size. */
  const RolePageSize := 10

  datatype RolesPage = RolesPage(roles: seq<Role>, page: int, totalPages: int, totalCount: nat)

  /** validateCreateRole: a non-empty string name, and permissions a list when present. */
  function CreateRoleErrors(name: Input<string>, permissions: Input<seq<Id>>): (errors: seq<string>)
    ensures errors == [] <==> name.Value? && name.v != "" && !permissions.WrongType?
    ensures PermissionsNotArray in errors <==> permissions.WrongType?
  {
    StringNotEmptyErrors(name, RoleNameRequired, false) + (if permissions.WrongType? then [PermissionsNotArray] else [])
  }

  /** validateUpdateRole: the same checks, each skipped when the field is absent. */
  function UpdateRoleErrors(name: Input<string>, permissions: Input<seq<Id>>): (errors: seq<string>)
    ensures errors == [] <==> (name.Missing? || (name.Value? && name.v != "")) && !permissions.WrongType?
    ensures PermissionsNotArray in errors <==> permissions.WrongType?
  {
    StringNotEmptyErrors(name, RoleNameRequired, true) + (if permissions.WrongType? then [PermissionsNotArray] else [])
  }

  /** A body that passes the create validator passes the update validator. */
  lemma CreateValidImpliesUpdateValid(name: Input<string>, permissions: Input<seq<Id>>)
    requires CreateRoleErrors(name, permissions) == []
    ensures UpdateRoleErrors(name, permissions) == []
  {
  }

  /** The role holding a name, if any (the unique index on names). */
  function FindRoleByName(roles: map<Id, Role>, nextId: nat, name: string): (r: Option<Id>)
    requires forall id :: id in roles ==> id < nextId
    ensures r.Some? ==> r.value in roles && roles[r.value].name == name
    ensures r.None? <==> forall id :: id in roles ==> roles[id].name != name
  {
    FindFrom(roles, (role: Role) => role.name == name, 0, nextId)
  }

  /** createRole (after its validator): `Role.create`; an empty name fails `required` and a
      taken name the unique index, both answered 400. */
  method CreateRole(db: Database, name: string, permissions: Option<seq<Id>>) returns (status: int)
    requires db.Valid()
    modifies db
    ensures db.Valid()
    ensures db.users == old(db.users) && db.permissions == old(db.permissions) && db.tokens == old(db.tokens)
    ensures status == Created <==> name != "" && old(FindRoleByName(db.roles, db.nextId, name)).None?
    ensures status == Created || status == BadRequest
    ensures status == BadRequest ==> unchanged(db)
    ensures status == Created ==>
      && old(db.nextId) !in old(db.roles)
      && db.nextId == old(db.nextId) + 1
      && db.roles == old(db.roles)[old(db.nextId) := Role(name, permissions.GetOr([]))]
  {
    if name == "" || FindRoleByName(db.roles, db.nextId, name).Some? {
      return BadRequest;
    }
    db.roles := db.roles[db.nextId := Role(name, permissions.GetOr([]))];
    db.nextId := db.nextId + 1;
    status := Created;
  }

  /** A role as `populate('permissions')` answers it: its permissions that still exist, in
      the stored order (each represented here by its id); references to deleted permissions
      are dropped from the answer but stay in the stored role. */
  function Populated(role: Role, permissions: map<Id, Permission>): (r: Role)
    ensures r.name == role.name
    ensures forall p :: p in r.permissions <==> p in role.permissions && p in permissions
    ensures forall p :: p in role.permissions && p !in permissions ==> p !in r.permissions
  {
    Role(role.name, PresentIds(role.permissions, permissions))
  }

  /** getRoles: page is `parseInt(page) || 1`, the page size is 10; a negative page gives a
      negative skip, which the database refuses (None). Each listed role is populated. */
  function GetRoles(roles: map<Id, Role>, permissions: map<Id, Permission>, nextId: nat, pageQuery: Option<int>)
    : (r: Option<RolesPage>)
    ensures var page := OrDefault(pageQuery, 1);
      var listing := Listing(roles, nextId);
      && (r.Some? <==> page >= 1)
      && (r.Some? ==>
            var ids := Page(listing, page, RolePageSize);
            && r.value.page == page
            && r.value.totalCount == |listing|
            && r.value.totalPages == CeilDiv(|listing|, RolePageSize)
            && |r.value.roles| == |ids|
            && forall k :: 0 <= k < |ids| ==> ids[k] in roles && r.value.roles[k] == Populated(roles[ids[k]], permissions))
  {
    var page := OrDefault(pageQuery, 1);
    var listing := Listing(roles, nextId);
    match Window(listing, (page - 1) * RolePageSize, RolePageSize)
    case None => None
    case Some(ids) =>
      assert forall k :: 0 <= k < |ids| ==> ids[k] in listing;
      var rows := seq(|ids|, k requires 0 <= k < |ids| => Populated(roles[ids[k]], permissions));
      Some(RolesPage(rows, page, CeilDiv(|listing|, RolePageSize), |listing|))
  }

  /** What getRoles reports agrees with the collection: totalCount is the number of roles,
      the pages up to totalPages list every role once, in creation order, and each holds at
      most 10. */
  lemma GetRolesReportsCollection(roles: map<Id, Role>, permissions: map<Id, Permission>, nextId: nat, pageQuery: Option<int>,
                                   r: RolesPage)
    requires forall id :: id in roles ==> id < nextId
    requires GetRoles(roles, permissions, nextId, pageQuery) == Some(r)
    ensures r.totalCount == |roles|
    ensures |r.roles| <= RolePageSize
    ensures FirstPages(Listing(roles, nextId), r.totalPages, RolePageSize) == Listing(roles, nextId)
  {
    ListingCount(roles, nextId);
    PagesCoverListing(Listing(roles, nextId), RolePageSize);
  }

  /** getRole: the role, populated, or 404. */
  method GetRole(db: Database, id: Id) returns (status: int, role: Option<Role>)
    ensures status == (if id in db.roles then Ok else NotFound)
    ensures role == if id in db.roles then Some(Populated(db.roles[id], db.permissions)) else None
  {
    if id !in db.roles {
      return NotFound, None;
    }
    return Ok, Some(Populated(db.roles[id], db.permissions));
  }

  /** updateRole: 404 for an unknown id; 400 when the new name belongs to another role;
      otherwise the fields given replace the stored ones (no validator runs here, so an
      empty name is stored as it is). */
  method UpdateRole(db: Database, id: Id, name: Option<string>, permissions: Option<seq<Id>>) returns (status: int)
    requires db.Valid()
    modifies db
    ensures db.Valid()
    ensures db.users == old(db.users) && db.permissions == old(db.permissions) && db.tokens == old(db.tokens)
    ensures db.nextId == old(db.nextId)
    ensures status == NotFound <==> id !in old(db.roles)
    ensures status == BadRequest <==>
      && id in old(db.roles) && name.Some? && old(FindRoleByName(db.roles, db.nextId, name.value)).Some?
      && old(FindRoleByName(db.roles, db.nextId, name.value)).value != id
    ensures status == Ok || status == NotFound || status == BadRequest
    ensures status != Ok ==> db.roles == old(db.roles)
    ensures status == Ok ==>
      db.roles == old(db.roles)[id := Role(name.GetOr(old(db.roles)[id].name), permissions.GetOr(old(db.roles)[id].permissions))]
  {
    if id !in db.roles {
      return NotFound;
    }
    if name.Some? {
      var holder := FindRoleByName(db.roles, db.nextId, name.value);
      if holder.Some? && holder.value != id {
        return BadRequest;
      }
    }
    var current := db.roles[id];
    db.roles := db.roles[id := Role(name.GetOr(current.name), permissions.GetOr(current.permissions))];
    status := Ok;
  }

  /** deleteRole: the role goes; users that refer to it keep the reference. */
  method DeleteRole(db: Database, id: Id) returns (status: int)
    requires db.Valid()
    modifies db
    ensures db.Valid()
    ensures db.users == old(db.users) && db.permissions == old(db.permissions) && db.tokens == old(db.tokens)
    ensures db.nextId == old(db.nextId)
    ensures status == (if id in old(db.roles) then Ok else NotFound)
    ensures db.roles == old(db.roles) - {id}
  {
    if id !in db.roles {
      return NotFound;
    }
    db.roles := db.roles - {id};
    status := Ok;
  }
}
