/** GET /me (backend/src/controllers/me.controller.ts): the caller's email, the names of
    their roles and the names of the permissions those roles grant. The references are
    resolved the way a nested `populate` resolves them: in stored order, dangling ones
    dropped, and nothing deduplicated. */
module MeController {
  import opened Common
  import opened UserModel
  import opened Models

  datatype MeResult =
    | Unauthenticated
    | UserNotFound
    | Me(email: string, roles: seq<string>, permissions: seq<string>)

  /** `roles.map(r => r.name)`. */
  function RoleNames(rs: seq<Role>): (r: seq<string>)
    ensures |r| == |rs| && forall k :: 0 <= k < |rs| ==> r[k] == rs[k].name
  {
    seq(|rs|, k requires 0 <= k < |rs| => rs[k].name)
  }

  /** The names of the permissions one role grants, in its stored order. */
  function Grants(role: Role, permissions: map<Id, Permission>): (r: seq<string>)
    ensures |r| == |PresentIds(role.permissions, permissions)|
    ensures forall k :: 0 <= k < |r| ==> r[k] == permissions[PresentIds(role.permissions, permissions)[k]].name
    ensures forall name :: name in r <==>
      exists p :: p in role.permissions && p in permissions && permissions[p].name == name
  {
    var granted := Populate(role.permissions, permissions);
    var r := seq(|granted|, k requires 0 <= k < |granted| => granted[k].name);
    assert forall name :: name in r ==>
      exists p :: p in role.permissions && p in permissions && permissions[p].name == name by {
      forall name | name in r
        ensures exists p :: p in role.permissions && p in permissions && permissions[p].name == name
      {
        var k :| 0 <= k < |r| && r[k] == name;
        var p := PresentIds(role.permissions, permissions)[k];
        assert p in PresentIds(role.permissions, permissions);
      }
    }
    assert forall name :: (exists p :: p in role.permissions && p in permissions && permissions[p].name == name) ==> name in r by {
      forall name, p | p in role.permissions && p in permissions && permissions[p].name == name
        ensures name in r
      {
        var present := PresentIds(role.permissions, permissions);
        assert p in present;
        var k :| 0 <= k < |present| && present[k] == p;
        assert r[k] == name;
      }
    }
    r
  }

  /** `roles.flatMap(r => r.permissions.map(p => p.name))`: nothing for no role, one role's
      grants for one role; PermissionNamesAppend below gives the rest. */
  function PermissionNames(rs: seq<Role>, permissions: map<Id, Permission>): (r: seq<string>)
    ensures rs == [] ==> r == []
    ensures |rs| == 1 ==> r == Grants(rs[0], permissions)
  {
    if rs == [] then [] else Grants(rs[0], permissions) + PermissionNames(rs[1..], permissions)
  }

  /** flatMap is a concatenation: the names for a list of roles are the names for its first
      part followed by those for the rest. */
  lemma {:induction false} PermissionNamesAppend(a: seq<Role>, b: seq<Role>, permissions: map<Id, Permission>)
    ensures PermissionNames(a + b, permissions) == PermissionNames(a, permissions) + PermissionNames(b, permissions)
  {
    if a == [] {
      assert a + b == b;
    } else {
      assert (a + b)[1..] == a[1..] + b;
      PermissionNamesAppend(a[1..], b, permissions);
    }
  }

  /** Nothing is deduplicated: the number of names is the sum, role by role, of the
      permissions each one grants. */
  lemma {:induction false} PermissionNamesLength(rs: seq<Role>, permissions: map<Id, Permission>)
    ensures |PermissionNames(rs, permissions)| == GrantCount(rs, permissions)
  {
    if rs != [] {
      PermissionNamesLength(rs[1..], permissions);
    }
  }

  /** The number of permissions each role grants, added up over the roles. */
  function GrantCount(rs: seq<Role>, permissions: map<Id, Permission>): nat {
    if rs == [] then 0 else |PresentIds(rs[0].permissions, permissions)| + GrantCount(rs[1..], permissions)
  }

  /** A name is listed exactly when some role holds a resolvable permission with that name. */
  lemma {:induction false} PermissionNamesMember(rs: seq<Role>, permissions: map<Id, Permission>, name: string)
    ensures name in PermissionNames(rs, permissions) <==>
      exists r, p :: r in rs && p in r.permissions && p in permissions && permissions[p].name == name
  {
    if rs != [] {
      PermissionNamesMember(rs[1..], permissions, name);
      assert forall r :: r in rs <==> r == rs[0] || r in rs[1..];
    }
  }

  /** Membership depends only on which roles are held, not on their order or on repeats. */
  lemma PermissionMembershipOrderFree(rs1: seq<Role>, rs2: seq<Role>, permissions: map<Id, Permission>, name: string)
    requires forall r :: r in rs1 <==> r in rs2
    ensures name in PermissionNames(rs1, permissions) <==> name in PermissionNames(rs2, permissions)
  {
    PermissionNamesMember(rs1, permissions, name);
    PermissionNamesMember(rs2, permissions, name);
  }

  /** The sequence, unlike membership, does depend on the order of the roles, and a
      permission held by two roles is listed twice. */
  lemma PermissionSequenceKeepsOrderAndDuplicates()
    ensures var perms := map[1 := Permission("users:read"), 2 := Permission("users:write")];
      var reader := Role("reader", [1]);
      var admin := Role("admin", [1, 2]);
      && PermissionNames([reader, admin], perms) == ["users:read", "users:read", "users:write"]
      && PermissionNames([admin, reader], perms) == ["users:read", "users:write", "users:read"]
  {
    var perms := map[1 := Permission("users:read"), 2 := Permission("users:write")];
    var reader := Role("reader", [1]);
    var admin := Role("admin", [1, 2]);
    assert PresentIds(reader.permissions, perms) == [1] by {
      assert reader.permissions[1..] == [];
    }
    assert PresentIds(admin.permissions, perms) == [1, 2] by {
      assert admin.permissions[1..] == [2];
      assert admin.permissions[1..][1..] == [];
    }
    assert Grants(reader, perms) == ["users:read"];
    assert Grants(admin, perms) == ["users:read", "users:write"];
    assert [reader, admin][1..] == [admin] && [admin][1..] == [];
    assert [admin, reader][1..] == [reader] && [reader][1..] == [];
    assert PermissionNames([admin], perms) == ["users:read", "users:write"];
    assert PermissionNames([reader], perms) == ["users:read"];
  }

  /** getMe for the user id the gate put on the request (None when there is none). */
  function GetMe(users: map<Id, User>, roles: map<Id, Role>, permissions: map<Id, Permission>, requester: Option<Id>): (r: MeResult)
    ensures requester.None? <==> r == Unauthenticated
    ensures r == UserNotFound <==> requester.Some? && requester.value !in users
    ensures r.Me? ==>
      var u := users[requester.value];
      var held := Populate(u.roles, roles);
      && r.email == u.email
      && r.roles == RoleNames(held)
      && r.permissions == PermissionNames(held, permissions)
      && |r.roles| == |PresentIds(u.roles, roles)|
      && (forall k :: 0 <= k < |r.roles| ==> r.roles[k] == roles[PresentIds(u.roles, roles)[k]].name)
      && |r.permissions| == GrantCount(held, permissions)
      && (forall name :: name in r.permissions <==>
            exists role, p :: role in held && p in role.permissions && p in permissions && permissions[p].name == name)
  {
    match requester
    case None => Unauthenticated
    case Some(id) =>
      if id !in users then UserNotFound
      else
        var u := users[id];
        var held := Populate(u.roles, roles);
        PermissionNamesLength(held, permissions);
        assert forall name :: name in PermissionNames(held, permissions) <==>
            exists role, p :: role in held && p in role.permissions && p in permissions && permissions[p].name == name by {
          forall name { PermissionNamesMember(held, permissions, name); }
        }
        Me(u.email, RoleNames(held), PermissionNames(held, permissions))
  }
}
