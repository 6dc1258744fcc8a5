/** The selection logic of frontend/src/pages/RolePermissions.tsx: the page starts from the
    ids of the role's populated permissions, a checkbox toggles one id, and saving sends the
    selection as the role's new permission list. */
module RolePermissionsPage {
  import opened Common
  import opened Models
  import RoleController

  /** `sel.filter(x => x !== id)`: every occurrence of id goes, the rest keep their order. */
  function RemoveAll(sel: seq<Id>, id: Id): (r: seq<Id>)
    ensures id !in r
    ensures forall x :: x != id ==> (x in r <==> x in sel)
    ensures |r| <= |sel|
  {
    if sel == [] then []
    else (if sel[0] == id then [] else [sel[0]]) + RemoveAll(sel[1..], id)
  }

  /** handleToggle's updater: remove the id when selected, append it at the end otherwise. */
  function Toggle(sel: seq<Id>, id: Id): (r: seq<Id>)
    ensures id in r <==> id !in sel
    ensures forall x :: x != id ==> (x in r <==> x in sel)
    ensures id !in sel ==> |r| == |sel| + 1 && r[..|sel|] == sel && r[|sel|] == id
    ensures id in sel ==> r == RemoveAll(sel, id)
  {
    if id in sel then RemoveAll(sel, id) else sel + [id]
  }

  /** Removing an id that is not selected changes nothing. */
  lemma {:induction false} RemoveAbsent(sel: seq<Id>, id: Id)
    requires id !in sel
    ensures RemoveAll(sel, id) == sel
  {
    if sel != [] {
      RemoveAbsent(sel[1..], id);
      assert sel == [sel[0]] + sel[1..];
    }
  }

  /** Filtering distributes over concatenation. */
  lemma {:induction false} RemoveAllAppend(a: seq<Id>, b: seq<Id>, id: Id)
    ensures RemoveAll(a + b, id) == RemoveAll(a, id) + RemoveAll(b, id)
  {
    if a == [] {
      assert a + b == b;
    } else {
      assert (a + b)[0] == a[0] && (a + b)[1..] == a[1..] + b;
      RemoveAllAppend(a[1..], b, id);
      var head := if a[0] == id then [] else [a[0]];
      assert RemoveAll(a + b, id) == head + RemoveAll(a[1..] + b, id);
      assert RemoveAll(a, id) == head + RemoveAll(a[1..], id);
    }
  }

  /** Toggling the same box twice restores the selection when the id was not selected. When
      it was, the second toggle appends it: the id moves to the end and any duplicates of
      it the role carried are merged into one. */
  lemma ToggleTwice(sel: seq<Id>, id: Id)
    ensures id !in sel ==> Toggle(Toggle(sel, id), id) == sel
    ensures id in sel ==> Toggle(Toggle(sel, id), id) == RemoveAll(sel, id) + [id]
  {
    if id !in sel {
      RemoveAllAppend(sel, [id], id);
      RemoveAbsent(sel, id);
      assert RemoveAll([id], id) == [] by { assert [id][1..] == []; }
    }
  }

  /** Deselecting an id that appears once removes exactly that entry. */
  lemma {:induction false} RemoveSingle(sel: seq<Id>, i: nat)
    requires i < |sel| && sel[i] !in sel[..i] && sel[i] !in sel[i + 1..]
    ensures RemoveAll(sel, sel[i]) == sel[..i] + sel[i + 1..]
  {
    var id := sel[i];
    if i == 0 {
      RemoveAbsent(sel[1..], id);
    } else {
      var tail := sel[1..];
      assert tail[i - 1] == id && tail[..i - 1] == sel[1..i] && tail[i..] == sel[i + 1..];
      assert sel[0] in sel[..i];
      RemoveSingle(tail, i - 1);
      assert sel[..i] == [sel[0]] + sel[1..i];
    }
  }

  /** Populating twice is populating once. */
  lemma PresentIdsIdempotent<T>(ids: seq<Id>, table: map<Id, T>)
    ensures PresentIds(PresentIds(ids, table), table) == PresentIds(ids, table)
  {
    PresentIdsAll(PresentIds(ids, table), table);
  }

  /** handleSave: PUT /roles/:id with only `permissions`, so the name is kept and the list is
      replaced by the selection. */
  method Save(db: Database, roleId: Id, selection: seq<Id>) returns (status: int)
    requires db.Valid()
    modifies db
    ensures db.Valid()
    ensures db.users == old(db.users) && db.permissions == old(db.permissions) && db.tokens == old(db.tokens)
    ensures db.nextId == old(db.nextId)
    ensures status == (if roleId in old(db.roles) then Ok else NotFound)
    ensures roleId in old(db.roles) ==> db.roles == old(db.roles)[roleId := Role(old(db.roles)[roleId].name, selection)]
    ensures roleId !in old(db.roles) ==> db.roles == old(db.roles)
  {
    status := RoleController.UpdateRole(db, roleId, None, Some(selection));
  }

  /** Opening the page and saving without touching a box: the selection starts as the ids
      of the permissions GET /roles/:id answers with, so saving rewrites the role with its
      dangling references dropped. Every permission it then holds resolves, and what the
      role grants is the same as before. */
  method SaveUntouched(db: Database, roleId: Id) returns (status: int)
    requires db.Valid() && roleId in db.roles
    modifies db
    ensures db.Valid()
    ensures status == Ok && roleId in db.roles
    ensures db.roles[roleId].name == old(db.roles[roleId].name)
    ensures forall p :: p in db.roles[roleId].permissions ==> p in db.permissions
    ensures PresentIds(db.roles[roleId].permissions, db.permissions) == PresentIds(old(db.roles[roleId].permissions), db.permissions)
  {
    var fetched, role := RoleController.GetRole(db, roleId);
    var selection := role.value.permissions;
    PresentIdsIdempotent(db.roles[roleId].permissions, db.permissions);
    status := Save(db, roleId, selection);
  }
}
