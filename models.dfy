/** The stored collections and the queries the handlers run on them.

    Records follow backend/src/models: a token (token.model.ts) belongs to a user and has a
    type, an opaque value and an absolute expiry; a role (role.model.ts) has a unique name
    and permission references; a permission (permission.model.ts) has a unique name. The
    class Database holds the four collections that the handlers update in place; the token
    collection is a sequence in insertion order, which is the order `findOne` and
    `deleteOne` scan it in. */
module Models {
  import opened Common
  import opened UserModel
  import Jwt

  datatype TokenKind = RefreshKind | ResetKind | VerifyKind

  datatype TokenRecord = TokenRecord(userId: Id, value: string, kind: TokenKind, expires: int)

  datatype Role = Role(name: string, permissions: seq<Id>)

  datatype Permission = Permission(name: string)

  /** The lifetime given to each kind of token, in milliseconds: verify 24h, reset 1h,
      refresh 7 days (auth.service.ts lines 19, 85, 39 and 69). A refresh record expires
      together with the `7d` JWT it stores; the one-off tokens live between an hour and a
      day. */
  function Ttl(kind: TokenKind): (r: nat)
    ensures kind == RefreshKind ==> r == Jwt.RefreshLifetime * 1000
    ensures kind != RefreshKind ==> 3600 * 1000 <= r <= 24 * 3600 * 1000
  {
    match kind
    case VerifyKind => 24 * 3600 * 1000
    case ResetKind => 3600 * 1000
    case RefreshKind => 7 * 24 * 60 * 60 * 1000
  }

  /** The unique index on users' email. */
  ghost predicate UniqueEmails(users: map<Id, User>) {
    forall a, b :: a in users && b in users && a != b ==> users[a].email != users[b].email
  }

  ghost predicate UniqueRoleNames(roles: map<Id, Role>) {
    forall a, b :: a in roles && b in roles && a != b ==> roles[a].name != roles[b].name
  }

  ghost predicate UniquePermissionNames(permissions: map<Id, Permission>) {
    forall a, b :: a in permissions && b in permissions && a != b ==> permissions[a].name != permissions[b].name
  }

  /** What every stored user satisfies: a lower-case email and a present password. */
  ghost predicate WellFormedUsers(users: map<Id, User>) {
    forall id :: id in users ==> IsLower(users[id].email) && HasPassword(users[id].password)
  }

  /** The collections. Ids come from `nextId`, which is above every id in use. */
  class Database {
    var users: map<Id, User>
    var roles: map<Id, Role>
    var permissions: map<Id, Permission>
    var tokens: seq<TokenRecord>
    var nextId: nat

    ghost predicate Valid()
      reads this
    {
      && (forall id :: id in users ==> id < nextId)
      && (forall id :: id in roles ==> id < nextId)
      && (forall id :: id in permissions ==> id < nextId)
      && UniqueEmails(users)
      && WellFormedUsers(users)
      && UniqueRoleNames(roles)
      && UniquePermissionNames(permissions)
    }

    constructor ()
      ensures Valid()
      ensures users == map[] && roles == map[] && permissions == map[] && tokens == []
    {
      users, roles, permissions, tokens, nextId := map[], map[], map[], [], 0;
    }
  }

  /** The first id in [from, bound) whose document satisfies `p`: `findOne` over a
      collection scanned in insertion order. */
  function FindFrom<T>(table: map<Id, T>, p: T -> bool, from: nat, bound: nat): (r: Option<Id>)
    decreases bound - from
    ensures r.Some? ==> from <= r.value < bound && r.value in table && p(table[r.value])
    ensures r.None? ==> forall id :: from <= id < bound && id in table ==> !p(table[id])
  {
    if from >= bound then None
    else if from in table && p(table[from]) then Some(from)
    else FindFrom(table, p, from + 1, bound)
  }

  /** `User.findOne({ email })`: the query value goes through the schema's `lowercase`
      setter, so the lookup is by the lower-cased email. */
  function FindByEmail(users: map<Id, User>, nextId: nat, email: string): (r: Option<Id>)
    requires forall id :: id in users ==> id < nextId
    ensures r.Some? ==> r.value in users && users[r.value].email == Lower(email)
    ensures r.None? <==> forall id :: id in users ==> users[id].email != Lower(email)
  {
    FindFrom(users, (u: User) => u.email == Lower(email), 0, nextId)
  }

  /** Under the unique index, the lookup by email finds the one user holding the
      lower-cased email. */
  lemma FindByEmailFinds(users: map<Id, User>, nextId: nat, id: Id, email: string)
    requires forall i :: i in users ==> i < nextId
    requires UniqueEmails(users) && id in users && users[id].email == Lower(email)
    ensures FindByEmail(users, nextId, email) == Some(id)
  {
  }

  /** The index of the first record of the ledger satisfying `p`. */
  function FirstWhere(ledger: seq<TokenRecord>, p: TokenRecord -> bool): (r: Option<nat>)
    ensures r.Some? ==> r.value < |ledger| && p(ledger[r.value])
    ensures r.Some? ==> forall j :: 0 <= j < r.value ==> !p(ledger[j])
    ensures r.None? <==> forall j :: 0 <= j < |ledger| ==> !p(ledger[j])
  {
    if ledger == [] then None
    else if p(ledger[0]) then Some(0)
    else
      match FirstWhere(ledger[1..], p)
      case None => None
      case Some(i) => Some(i + 1)
  }

  /** A record that `Token.findOne({ token, type, expires: { $gt: now } })` accepts. */
  predicate Live(t: TokenRecord, value: string, kind: TokenKind, now: int) {
    t.value == value && t.kind == kind && t.expires > now
  }

  /** `Token.findOne({ token, type, expires: { $gt: now } })`. */
  function FindLive(ledger: seq<TokenRecord>, value: string, kind: TokenKind, now: int): (r: Option<nat>)
    ensures r.Some? ==> r.value < |ledger| && Live(ledger[r.value], value, kind, now)
    ensures r.None? <==> forall j :: 0 <= j < |ledger| ==> !Live(ledger[j], value, kind, now)
  {
    FirstWhere(ledger, t => Live(t, value, kind, now))
  }

  /** Removing the record at position i (`Token.deleteOne({ _id })`). */
  function RemoveAt(ledger: seq<TokenRecord>, i: nat): (r: seq<TokenRecord>)
    requires i < |ledger|
    ensures |r| == |ledger| - 1
    ensures multiset(r) + multiset{ledger[i]} == multiset(ledger)
  {
    assert ledger == ledger[..i] + [ledger[i]] + ledger[i + 1..];
    ledger[..i] + ledger[i + 1..]
  }

  /** `Token.deleteOne({ token: value })`: removes the first record holding that value,
      whatever its type or expiry; the ledger is unchanged when there is none. */
  function DeleteOne(ledger: seq<TokenRecord>, value: string): (r: seq<TokenRecord>)
    ensures multiset(r) <= multiset(ledger) && |ledger| - 1 <= |r|
  {
    match FirstWhere(ledger, (t: TokenRecord) => t.value == value)
    case None => ledger
    case Some(i) => RemoveAt(ledger, i)
  }

  /** The record deleteOne removes is the first one holding the value. */
  lemma DeleteOneRemovesFirst(ledger: seq<TokenRecord>, value: string, i: nat)
    requires i < |ledger| && ledger[i].value == value
    requires forall j :: 0 <= j < i ==> ledger[j].value != value
    ensures DeleteOne(ledger, value) == ledger[..i] + ledger[i + 1..]
  {
    var first := FirstWhere(ledger, (t: TokenRecord) => t.value == value);
    assert first.Some? && first.value <= i;
  }

  /** How many records hold a value. */
  function CountValue(ledger: seq<TokenRecord>, value: string): nat {
    if ledger == [] then 0
    else (if ledger[0].value == value then 1 else 0) + CountValue(ledger[1..], value)
  }

  lemma {:induction false} CountValueAppend(a: seq<TokenRecord>, b: seq<TokenRecord>, value: string)
    ensures CountValue(a + b, value) == CountValue(a, value) + CountValue(b, value)
  {
    if a == [] {
      assert a + b == b;
    } else {
      assert (a + b)[1..] == a[1..] + b;
      CountValueAppend(a[1..], b, value);
    }
  }

  lemma {:induction false} CountValueZero(ledger: seq<TokenRecord>, value: string)
    ensures CountValue(ledger, value) == 0 <==> forall j :: 0 <= j < |ledger| ==> ledger[j].value != value
  {
    if ledger != [] {
      CountValueZero(ledger[1..], value);
      assert forall j :: 1 <= j < |ledger| ==> ledger[j] == ledger[1..][j - 1];
    }
  }

  /** Removing a record holding `value` lowers the number of records holding it by one and
      leaves every other value's count alone. */
  lemma RemoveAtCount(ledger: seq<TokenRecord>, i: nat, value: string)
    requires i < |ledger|
    ensures CountValue(RemoveAt(ledger, i), value)
         == CountValue(ledger, value) - (if ledger[i].value == value then 1 else 0)
  {
    assert ledger == ledger[..i] + ([ledger[i]] + ledger[i + 1..]);
    CountValueAppend(ledger[..i], [ledger[i]] + ledger[i + 1..], value);
    CountValueAppend([ledger[i]], ledger[i + 1..], value);
    CountValueAppend(ledger[..i], ledger[i + 1..], value);
    assert CountValue([ledger[i]], value) == if ledger[i].value == value then 1 else 0 by {
      assert [ledger[i]][1..] == [];
    }
  }

  /** deleteOne by value removes exactly one record holding the value when there is one, and
      nothing else: the ledger loses that record and keeps all others. */
  lemma DeleteOneRemovesOne(ledger: seq<TokenRecord>, value: string)
    ensures CountValue(ledger, value) == 0 ==> DeleteOne(ledger, value) == ledger
    ensures CountValue(ledger, value) > 0 ==>
      && CountValue(DeleteOne(ledger, value), value) == CountValue(ledger, value) - 1
      && |DeleteOne(ledger, value)| == |ledger| - 1
      && exists t: TokenRecord :: t.value == value && multiset(DeleteOne(ledger, value)) + multiset{t} == multiset(ledger)
  {
    CountValueZero(ledger, value);
    match FirstWhere(ledger, (t: TokenRecord) => t.value == value)
    case None =>
    case Some(i) =>
      RemoveAtCount(ledger, i, value);
      assert multiset(RemoveAt(ledger, i)) + multiset{ledger[i]} == multiset(ledger);
  }

  /** Single use: when one record holds a value, consuming it leaves no record with that
      value, so no later lookup by that value can succeed. */
  lemma ConsumedIsGone(ledger: seq<TokenRecord>, i: nat, kind: TokenKind, now: int, later: int)
    requires i < |ledger| && CountValue(ledger, ledger[i].value) == 1
    ensures FindLive(RemoveAt(ledger, i), ledger[i].value, kind, later).None?
  {
    RemoveAtCount(ledger, i, ledger[i].value);
    CountValueZero(RemoveAt(ledger, i), ledger[i].value);
  }

  /** The ids of `ids` that `keep` accepts, in their order. */
  function FilterIds(ids: seq<Id>, keep: Id -> bool): (r: seq<Id>)
    ensures |r| <= |ids|
    ensures forall id :: id in r <==> id in ids && keep(id)
    ensures |ids| == 1 ==> r == (if keep(ids[0]) then ids else [])
  {
    if ids == [] then []
    else (if keep(ids[0]) then [ids[0]] else []) + FilterIds(ids[1..], keep)
  }

  /** Filtering distributes over concatenation: each kept id stays where it was relative
      to the others. */
  lemma {:induction false} FilterIdsAppend(a: seq<Id>, b: seq<Id>, keep: Id -> bool)
    ensures FilterIds(a + b, keep) == FilterIds(a, keep) + FilterIds(b, keep)
  {
    if a == [] {
      assert a + b == b;
    } else {
      assert (a + b)[0] == a[0] && (a + b)[1..] == a[1..] + b;
      FilterIdsAppend(a[1..], b, keep);
    }
  }

  /** A filtered increasing list is still increasing. */
  lemma {:induction false} FilterIdsKeepsOrder(ids: seq<Id>, keep: Id -> bool)
    requires StrictlyIncreasing(ids)
    ensures StrictlyIncreasing(FilterIds(ids, keep))
  {
    if ids != [] {
      var tail := ids[1..];
      assert StrictlyIncreasing(tail);
      FilterIdsKeepsOrder(tail, keep);
      if keep(ids[0]) {
        assert forall x :: x in tail ==> ids[0] < x;
        FirstBelowAll(ids[0], FilterIds(tail, keep));
      }
    }
  }

  /** Putting an id below every element in front of an increasing list keeps it increasing. */
  lemma FirstBelowAll(first: Id, rest: seq<Id>)
    requires StrictlyIncreasing(rest) && forall x :: x in rest ==> first < x
    ensures StrictlyIncreasing([first] + rest)
  {
    var r := [first] + rest;
    forall i, j | 0 <= i < j < |r| ensures r[i] < r[j] {
      assert r[j] == rest[j - 1] && rest[j - 1] in rest;
    }
  }

  /** A filter that every id passes keeps the list as it is. */
  lemma {:induction false} FilterKeepsAll(ids: seq<Id>, keep: Id -> bool)
    requires forall k :: 0 <= k < |ids| ==> keep(ids[k])
    ensures FilterIds(ids, keep) == ids
  {
    if ids != [] {
      FilterKeepsAll(ids[1..], keep);
    }
  }

  /** Ids from `ids` that resolve in `table`, in their stored order: the ids that Mongoose's
      `populate` keeps (a reference that no longer resolves is dropped). */
  function PresentIds<T>(ids: seq<Id>, table: map<Id, T>): (r: seq<Id>)
    ensures |r| <= |ids|
    ensures forall k :: 0 <= k < |r| ==> r[k] in table
    ensures forall id :: id in r <==> id in ids && id in table
    ensures |ids| == 1 ==> r == (if ids[0] in table then ids else [])
  {
    var r := FilterIds(ids, (id: Id) => id in table);
    assert forall k :: 0 <= k < |r| ==> r[k] in r;
    r
  }

  /** Populating a concatenation populates each part: references keep their relative
      order. With the one-reference case above this fixes the result entirely. */
  lemma PresentIdsAppend<T>(a: seq<Id>, b: seq<Id>, table: map<Id, T>)
    ensures PresentIds(a + b, table) == PresentIds(a, table) + PresentIds(b, table)
  {
    FilterIdsAppend(a, b, (id: Id) => id in table);
  }

  /** Populating increasing references gives increasing ids. */
  lemma PresentIdsKeepsOrder<T>(ids: seq<Id>, table: map<Id, T>)
    requires StrictlyIncreasing(ids)
    ensures StrictlyIncreasing(PresentIds(ids, table))
  {
    FilterIdsKeepsOrder(ids, (id: Id) => id in table);
  }

  /** `populate`: the referenced documents, in the order of the references, missing ones
      left out. */
  function Populate<T>(ids: seq<Id>, table: map<Id, T>): (r: seq<T>)
    ensures |r| == |PresentIds(ids, table)|
    ensures forall k :: 0 <= k < |r| ==> r[k] == table[PresentIds(ids, table)[k]]
  {
    var present := PresentIds(ids, table);
    seq(|present|, k requires 0 <= k < |present| => table[present[k]])
  }

  /** When every reference resolves, populate keeps them all, in order. */
  lemma PresentIdsAll<T>(ids: seq<Id>, table: map<Id, T>)
    requires forall id :: id in ids ==> id in table
    ensures PresentIds(ids, table) == ids
  {
    FilterKeepsAll(ids, (id: Id) => id in table);
  }
}
