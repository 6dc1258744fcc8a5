/** The permission handlers of backend/src/controllers/permission.controller.ts:
    validators, create, the paged listing whose page and page size both come from the query,
    and the by-id operations. Permission names are unique
    (backend/src/models/permission.model.ts). */
module PermissionController {
  import opened Common
  import opened Models
  import opened Paging

  const PermissionNameRequired := "Nom de la permission requis"

  datatype PermissionsPage = PermissionsPage(permissions: seq<Permission>, page: int, totalPages: int, totalCount: nat)

  /** validateCreatePermission: a non-empty string name. */
  function CreatePermissionErrors(name: Input<string>): (errors: seq<string>)
    ensures errors == [] <==> name.Value? && name.v != ""
  {
    StringNotEmptyErrors(name, PermissionNameRequired, false)
  }

  /** validateUpdatePermission: the same check, skipped when the name is absent. */
  function UpdatePermissionErrors(name: Input<string>): (errors: seq<string>)
    ensures errors == [] <==> name.Missing? || (name.Value? && name.v != "")
  {
    StringNotEmptyErrors(name, PermissionNameRequired, true)
  }

  /** The permission holding a name, if any (the unique index on names). */
  function FindPermissionByName(permissions: map<Id, Permission>, nextId: nat, name: string): (r: Option<Id>)
    requires forall id :: id in permissions ==> id < nextId
    ensures r.Some? ==> r.value in permissions && permissions[r.value].name == name
    ensures r.None? <==> forall id :: id in permissions ==> permissions[id].name != name
  {
    FindFrom(permissions, (p: Permission) => p.name == name, 0, nextId)
  }

  /** createPermission (after its validator): an empty or taken name makes `create` fail,
      answered 400. */
  method CreatePermission(db: Database, name: string) returns (status: int)
    requires db.Valid()
    modifies db
    ensures db.Valid()
    ensures db.users == old(db.users) && db.roles == old(db.roles) && db.tokens == old(db.tokens)
    ensures status == Created <==> name != "" && old(FindPermissionByName(db.permissions, db.nextId, name)).None?
    ensures status == Created || status == BadRequest
    ensures status == BadRequest ==> unchanged(db)
    ensures status == Created ==>
      && old(db.nextId) !in old(db.permissions)
      && db.nextId == old(db.nextId) + 1
      && db.permissions == old(db.permissions)[old(db.nextId) := Permission(name)]
  {
    if name == "" || FindPermissionByName(db.permissions, db.nextId, name).Some? {
      return BadRequest;
    }
    db.permissions := db.permissions[db.nextId := Permission(name)];
    db.nextId := db.nextId + 1;
    status := Created;
  }

  /** getPermissions: page is `parseInt(page) || 1` and the page size `parseInt(limit) || 10`,
      so neither is ever 0. A negative skip is refused by the database (None); a negative
      page size lists its absolute value and makes totalPages negative or zero. */
  function GetPermissions(permissions: map<Id, Permission>, nextId: nat, pageQuery: Option<int>, limitQuery: Option<int>)
    : (r: Option<PermissionsPage>)
    ensures var page, limit := OrDefault(pageQuery, 1), OrDefault(limitQuery, 10);
      var listing := Listing(permissions, nextId);
      && (r.Some? <==> (page - 1) * limit >= 0)
      && (r.Some? ==>
            && r.value.page == page
            && r.value.totalCount == |listing|
            && r.value.totalPages == CeilDiv(|listing|, limit)
            && |r.value.permissions| <= Abs(limit)
            && ((page - 1) * limit + |r.value.permissions| >= |listing| || |r.value.permissions| == Abs(limit))
            && (forall k :: 0 <= k < |r.value.permissions| ==>
                  (page - 1) * limit + k < |listing| && r.value.permissions[k] == permissions[listing[(page - 1) * limit + k]]))
  {
    var page, limit := OrDefault(pageQuery, 1), OrDefault(limitQuery, 10);
    var listing := Listing(permissions, nextId);
    match Window(listing, (page - 1) * limit, limit)
    case None => None
    case Some(ids) =>
      assert forall k :: 0 <= k < |ids| ==> ids[k] in listing;
      Some(PermissionsPage(Rows(permissions, ids), page, CeilDiv(|listing|, limit), |listing|))
  }

  /** With a positive page size, what getPermissions reports agrees with the collection:
      totalCount is the number of permissions and the pages up to totalPages list each of
      them once, in creation order. */
  lemma GetPermissionsReportsCollection(permissions: map<Id, Permission>, nextId: nat, pageQuery: Option<int>, limit: nat,
                                        r: PermissionsPage)
    requires forall id :: id in permissions ==> id < nextId
    requires limit > 0 && GetPermissions(permissions, nextId, pageQuery, Some(limit)) == Some(r)
    ensures r.totalCount == |permissions|
    ensures FirstPages(Listing(permissions, nextId), r.totalPages, limit) == Listing(permissions, nextId)
  {
    assert OrDefault(Some(limit), 10) == limit;
    ListingCount(permissions, nextId);
    PagesCoverListing(Listing(permissions, nextId), limit);
  }

  /** A page size of 0 in the query is not "no limit": it falls back to 10. */
  lemma ZeroLimitMeansTen(permissions: map<Id, Permission>, nextId: nat)
    ensures GetPermissions(permissions, nextId, None, Some(0)) == GetPermissions(permissions, nextId, None, None)
    ensures |GetPermissions(permissions, nextId, None, Some(0)).value.permissions| <= 10
  {
  }

  /** GET /permissions/:id. */
  method GetPermission(db: Database, id: Id) returns (status: int, permission: Option<Permission>)
    ensures status == (if id in db.permissions then Ok else NotFound)
    ensures permission == if id in db.permissions then Some(db.permissions[id]) else None
  {
    if id !in db.permissions {
      return NotFound, None;
    }
    return Ok, Some(db.permissions[id]);
  }

  /** updatePermission: 404 for an unknown id; 400 when the name belongs to another
      permission; otherwise the name given replaces the stored one (an absent name changes
      nothing). */
  method UpdatePermission(db: Database, id: Id, name: Option<string>) returns (status: int)
    requires db.Valid()
    modifies db
    ensures db.Valid()
    ensures db.users == old(db.users) && db.roles == old(db.roles) && db.tokens == old(db.tokens)
    ensures db.nextId == old(db.nextId)
    ensures status == NotFound <==> id !in old(db.permissions)
    ensures status == BadRequest <==>
      && id in old(db.permissions) && name.Some? && old(FindPermissionByName(db.permissions, db.nextId, name.value)).Some?
      && old(FindPermissionByName(db.permissions, db.nextId, name.value)).value != id
    ensures status == Ok || status == NotFound || status == BadRequest
    ensures status != Ok ==> db.permissions == old(db.permissions)
    ensures status == Ok ==> db.permissions == old(db.permissions)[id := Permission(name.GetOr(old(db.permissions)[id].name))]
  {
    if id !in db.permissions {
      return NotFound;
    }
    if name.Some? {
      var holder := FindPermissionByName(db.permissions, db.nextId, name.value);
      if holder.Some? && holder.value != id {
        return BadRequest;
      }
    }
    db.permissions := db.permissions[id := Permission(name.GetOr(db.permissions[id].name))];
    status := Ok;
  }

  /** deletePermission: the permission goes; roles that refer to it keep the reference. */
  method DeletePermission(db: Database, id: Id) returns (status: int)
    requires db.Valid()
    modifies db
    ensures db.Valid()
    ensures db.users == old(db.users) && db.roles == old(db.roles) && db.tokens == old(db.tokens)
    ensures db.nextId == old(db.nextId)
    ensures status == (if id in old(db.permissions) then Ok else NotFound)
    ensures db.permissions == old(db.permissions) - {id}
  {
    if id !in db.permissions {
      return NotFound;
    }
    db.permissions := db.permissions - {id};
    status := Ok;
  }
}
