/** The user administration handlers of backend/src/controllers/user.controller.ts: the
    paged, searchable listing, the two request validators, and the by-id operations on the
    stored users. Updates go through `findByIdAndUpdate`, which runs no validators and no
    save hook: the email still passes the `lowercase` setter, the password is stored as
    given. */
module UserController {
  import opened Common
  import opened UserModel
  import opened Models
  import opened Paging

  const RolesNotArray := "Roles doit être un tableau"
  const VerifiedNotBoolean := "isVerified doit être booléen"

  datatype UsersPage = UsersPage(users: seq<User>, total: nat)

  function Reverse(ids: seq<Id>): (r: seq<Id>)
    ensures |r| == |ids| && forall k :: 0 <= k < |ids| ==> r[k] == ids[|ids| - 1 - k]
  {
    seq(|ids|, k requires 0 <= k < |ids| => ids[|ids| - 1 - k])
  }

  /** The users a listing request selects, in `createdAt` order (ids are handed out in
      creation order): descending unless `order=asc`. A non-empty search keeps the users
      whose email the case-insensitive regular expression matches; `matches` stands for
      that regular expression test. */
  predicate Chosen(users: map<Id, User>, search: string, matches: (string, string) -> bool, id: Id) {
    id in users && (search == "" || matches(search, users[id].email))
  }

  function Selected(users: map<Id, User>, nextId: nat, search: string, matches: (string, string) -> bool, ascending: bool): (r: seq<Id>)
    ensures forall id :: id in r <==> id in users && id < nextId && (search == "" || matches(search, users[id].email))
    ensures ascending ==> StrictlyIncreasing(r)
    ensures !ascending ==> StrictlyDecreasing(r)
  {
    var listing := Listing(users, nextId);
    var chosen := FilterIds(listing, (id: Id) => Chosen(users, search, matches, id));
    ListingIncreasing(users, nextId);
    FilterIdsKeepsOrder(listing, (id: Id) => Chosen(users, search, matches, id));
    if ascending then chosen
    else
      ReverseOfIncreasing(chosen);
      Reverse(chosen)
  }

  /** Reversing an ascending listing keeps its members and makes it descending. */
  lemma ReverseOfIncreasing(ids: seq<Id>)
    requires StrictlyIncreasing(ids)
    ensures forall id :: id in Reverse(ids) <==> id in ids
    ensures StrictlyDecreasing(Reverse(ids))
  {
    var r := Reverse(ids);
    forall id | id in ids ensures id in r {
      var k :| 0 <= k < |ids| && ids[k] == id;
      assert r[|ids| - 1 - k] == id;
    }
  }

  /** getUsers. page and limit default to 1 and 10 only when absent; the page skips
      (page - 1) * limit users, and a negative skip makes the query fail (500). `total`
      counts every selected user, not only those on the page. */
  function GetUsers(users: map<Id, User>, nextId: nat, page: Option<int>, limit: Option<int>, search: string,
                    matches: (string, string) -> bool, ascending: bool): (r: Option<UsersPage>)
    ensures var skip := (page.GetOr(1) - 1) * limit.GetOr(10);
      && (r.Some? <==> skip >= 0)
      && (r.Some? ==>
            var chosen := Selected(users, nextId, search, matches, ascending);
            && r.value.total == |chosen|
            && (limit.GetOr(10) != 0 ==> |r.value.users| <= Abs(limit.GetOr(10)))
            && (skip + |r.value.users| >= |chosen| || (limit.GetOr(10) != 0 && |r.value.users| == Abs(limit.GetOr(10))))
            && (forall k :: 0 <= k < |r.value.users| ==> skip + k < |chosen| && r.value.users[k] == users[chosen[skip + k]]))
  {
    var chosen := Selected(users, nextId, search, matches, ascending);
    var skip := (page.GetOr(1) - 1) * limit.GetOr(10);
    match Window(chosen, skip, limit.GetOr(10))
    case None => None
    case Some(ids) =>
      assert forall k :: 0 <= k < |ids| ==> ids[k] in chosen;
      Some(UsersPage(Rows(users, ids), |chosen|))
  }

  /** Without a search, `total` is the number of stored users. */
  lemma TotalWithoutSearch(users: map<Id, User>, nextId: nat, page: Option<int>, limit: Option<int>,
                           matches: (string, string) -> bool, ascending: bool)
    requires forall id :: id in users ==> id < nextId
    requires GetUsers(users, nextId, page, limit, "", matches, ascending).Some?
    ensures GetUsers(users, nextId, page, limit, "", matches, ascending).value.total == |users|
  {
    var listing := Listing(users, nextId);
    ListingCount(users, nextId);
    var keep := (id: Id) => Chosen(users, "", matches, id);
    FilterKeepsAll(listing, keep);
    assert |FilterIds(listing, keep)| == |users|;
    assert |Selected(users, nextId, "", matches, ascending)| == |users|;
  }

  /** The messages validateCreateUser reports, in field order; the request is answered 400
      exactly when there is one. `isEmail` stands for the validator library's email test. */
  function CreateUserErrors(email: Option<string>, password: Option<string>, roles: Input<seq<Id>>, isEmail: string -> bool): (errors: seq<string>)
    ensures InvalidEmail in errors <==> email.None? || !isEmail(email.value)
    ensures PasswordTooShort in errors <==> password.None? || |password.value| < MinPasswordLength
    ensures RolesNotArray in errors <==> roles.WrongType?
    ensures forall m :: m in errors ==> m in [InvalidEmail, PasswordTooShort, RolesNotArray]
  {
    (if email.None? || !isEmail(email.value) then [InvalidEmail] else [])
    + (if password.None? || |password.value| < MinPasswordLength then [PasswordTooShort] else [])
    + (if roles.WrongType? then [RolesNotArray] else [])
  }

  /** validateUpdateUser: the same checks, each applied only to a field that is present, and
      a boolean check on isVerified. */
  function UpdateUserErrors(email: Option<string>, password: Option<string>, roles: Input<seq<Id>>, isVerified: Input<bool>,
                            isEmail: string -> bool): (errors: seq<string>)
    ensures InvalidEmail in errors <==> email.Some? && !isEmail(email.value)
    ensures PasswordTooShort in errors <==> password.Some? && |password.value| < MinPasswordLength
    ensures RolesNotArray in errors <==> roles.WrongType?
    ensures VerifiedNotBoolean in errors <==> isVerified.WrongType?
    ensures forall m :: m in errors ==> m in [InvalidEmail, PasswordTooShort, RolesNotArray, VerifiedNotBoolean]
  {
    (if email.Some? && !isEmail(email.value) then [InvalidEmail] else [])
    + (if password.Some? && |password.value| < MinPasswordLength then [PasswordTooShort] else [])
    + (if roles.WrongType? then [RolesNotArray] else [])
    + (if isVerified.WrongType? then [VerifiedNotBoolean] else [])
  }

  /** Every field an update validator lets through is a field the create validator would
      let through, when present: the update checks are the create checks made optional. */
  lemma UpdateChecksAreOptionalCreateChecks(email: string, password: string, roles: Input<seq<Id>>, isEmail: string -> bool)
    ensures CreateUserErrors(Some(email), Some(password), roles, isEmail)
         == UpdateUserErrors(Some(email), Some(password), roles, Missing, isEmail)
    ensures UpdateUserErrors(None, None, roles, Missing, isEmail) == (if roles.WrongType? then [RolesNotArray] else [])
  {
  }

  /** The record `findByIdAndUpdate` leaves: fields that are present replace the stored
      ones, the email through the lowercase setter; the password only when non-empty, and
      stored as given since no save hook runs. */
  function Updated(u: User, email: Option<string>, password: Option<string>, roles: Option<seq<Id>>, isVerified: Option<bool>): (r: User)
    ensures r.email == if email.Some? then Lower(email.value) else u.email
    ensures r.password == if password.Some? && password.value != "" then Raw(password.value) else u.password
    ensures r.roles == roles.GetOr(u.roles) && r.isVerified == isVerified.GetOr(u.isVerified)
  {
    User(if email.Some? then Lower(email.value) else u.email,
         if password.Some? && password.value != "" then Raw(password.value) else u.password,
         isVerified.GetOr(u.isVerified),
         roles.GetOr(u.roles))
  }

  /** Through the route, validateUpdateUser rejects an empty email (`isEmail` fails on
      it), so an accepted update keeps a non-empty email, and `Updated` never empties the
      password: the record still passes the schema's `required` checks. */
  lemma ValidatedUpdateKeepsRecordValid(u: User, email: Option<string>, password: Option<string>, roles: Input<seq<Id>>,
                                        isVerified: Input<bool>, isEmail: string -> bool)
    requires Validates(u) && !isEmail("")
    requires UpdateUserErrors(email, password, roles, isVerified, isEmail) == []
    ensures Validates(Updated(u, email, password, roles.ToOption(), isVerified.ToOption()))
  {
    assert InvalidEmail !in UpdateUserErrors(email, password, roles, isVerified, isEmail);
  }

  /** An update that sets a password leaves a record that no password opens: the stored
      value is not a bcrypt digest, so comparePassword, and hence login, always fails. */
  lemma UpdatedPasswordLocksOut(u: User, email: Option<string>, password: string, roles: Option<seq<Id>>, isVerified: Option<bool>, candidate: string)
    requires password != ""
    ensures !ComparePassword(Updated(u, email, Some(password), roles, isVerified), candidate)
  {
  }

  /** The update as evidently intended: a new password is hashed like one set through
      `save`, so the account opens with exactly that password. */
  function UpdatedWithHash(u: User, email: Option<string>, password: Option<string>, roles: Option<seq<Id>>, isVerified: Option<bool>, salt: nat): (r: User)
    ensures r.email == if email.Some? then Lower(email.value) else u.email
    ensures r.roles == roles.GetOr(u.roles) && r.isVerified == isVerified.GetOr(u.isVerified)
    ensures password.Some? && password.value != "" ==> forall candidate :: ComparePassword(r, candidate) <==> candidate == password.value
    ensures !(password.Some? && password.value != "") ==> r.password == u.password
  {
    var v := Updated(u, email, None, roles, isVerified);
    if password.Some? && password.value != "" then
      var w := PreSave(v.(password := Raw(password.value)), true, salt);
      w
    else v
  }

  /** GET /users/:id. */
  method GetUser(db: Database, id: Id) returns (status: int, user: Option<User>)
    ensures status == Ok <==> id in db.users
    ensures status == Ok || status == NotFound
    ensures user == if id in db.users then Some(db.users[id]) else None
  {
    if id !in db.users {
      return NotFound, None;
    }
    return Ok, Some(db.users[id]);
  }

  /** createUser (after its validator): `User.create`, so the schema rules apply; a
      missing field or a taken email makes the create fail, and the handler answers 400. */
  method CreateUser(db: Database, email: string, password: string, roles: Option<seq<Id>>, salt: nat) returns (status: int)
    requires db.Valid()
    modifies db
    ensures db.Valid()
    ensures db.roles == old(db.roles) && db.permissions == old(db.permissions) && db.tokens == old(db.tokens)
    ensures status == Created <==> email != "" && password != "" && old(FindByEmail(db.users, db.nextId, email)).None?
    ensures status == Created || status == BadRequest
    ensures status == BadRequest ==> unchanged(db)
    ensures status == Created ==>
      && old(db.nextId) !in old(db.users)
      && db.nextId == old(db.nextId) + 1
      && db.users == old(db.users)[old(db.nextId) := Create(email, password, roles, None, salt).value]
  {
    var user := Create(email, password, roles, None, salt);
    if user.None? || FindByEmail(db.users, db.nextId, email).Some? {
      return BadRequest;
    }
    db.users := db.users[db.nextId := user.value];
    db.nextId := db.nextId + 1;
    status := Created;
  }

  /** A request that passes validateCreateUser is created unless its email is taken
      (given that the email test refuses the empty string, as the library's does). */
  lemma ValidatedCreateNeedsOnlyFreeEmail(email: Option<string>, password: Option<string>, roles: Input<seq<Id>>, isEmail: string -> bool)
    requires !isEmail("")
    requires CreateUserErrors(email, password, roles, isEmail) == []
    ensures email.Some? && email.value != "" && password.Some? && password.value != ""
  {
    assert InvalidEmail !in CreateUserErrors(email, password, roles, isEmail);
    assert PasswordTooShort !in CreateUserErrors(email, password, roles, isEmail);
  }

  /** updateUser: 404 for an unknown id; 400 when the new email belongs to another user
      (the unique index refuses it); otherwise the fields given replace the stored ones. */
  method UpdateUser(db: Database, id: Id, email: Option<string>, password: Option<string>, roles: Option<seq<Id>>, isVerified: Option<bool>)
    returns (status: int)
    requires db.Valid()
    modifies db
    ensures db.Valid()
    ensures db.roles == old(db.roles) && db.permissions == old(db.permissions) && db.tokens == old(db.tokens)
    ensures db.nextId == old(db.nextId)
    ensures status == NotFound <==> id !in old(db.users)
    ensures status == BadRequest <==>
      && id in old(db.users) && email.Some? && old(FindByEmail(db.users, db.nextId, email.value)).Some?
      && old(FindByEmail(db.users, db.nextId, email.value)).value != id
    ensures status != Ok ==> db.users == old(db.users)
    ensures status == Ok ==> db.users == old(db.users)[id := Updated(old(db.users)[id], email, password, roles, isVerified)]
    ensures status == Ok || status == NotFound || status == BadRequest
  {
    if id !in db.users {
      return NotFound;
    }
    if email.Some? {
      var holder := FindByEmail(db.users, db.nextId, email.value);
      if holder.Some? && holder.value != id {
        return BadRequest;
      }
    }
    db.users := db.users[id := Updated(db.users[id], email, password, roles, isVerified)];
    status := Ok;
  }

  /** deleteUser: the record goes, and nothing that refers to it is touched (its tokens stay
      in the ledger). */
  method DeleteUser(db: Database, id: Id) returns (status: int)
    requires db.Valid()
    modifies db
    ensures db.Valid()
    ensures db.roles == old(db.roles) && db.permissions == old(db.permissions) && db.tokens == old(db.tokens)
    ensures db.nextId == old(db.nextId)
    ensures status == (if id in old(db.users) then Ok else NotFound)
    ensures db.users == old(db.users) - {id}
  {
    if id !in db.users {
      return NotFound;
    }
    db.users := db.users - {id};
    status := Ok;
  }

  /** activateUser: isVerified becomes true, nothing else changes. */
  method ActivateUser(db: Database, id: Id) returns (status: int)
    requires db.Valid()
    modifies db
    ensures db.Valid()
    ensures db.roles == old(db.roles) && db.permissions == old(db.permissions) && db.tokens == old(db.tokens)
    ensures db.nextId == old(db.nextId)
    ensures status == (if id in old(db.users) then Ok else NotFound)
    ensures id in old(db.users) ==> db.users == old(db.users)[id := old(db.users)[id].(isVerified := true)]
    ensures id !in old(db.users) ==> db.users == old(db.users)
  {
    if id !in db.users {
      return NotFound;
    }
    db.users := db.users[id := db.users[id].(isVerified := true)];
    status := Ok;
  }

  /** deactivateUser: isVerified becomes false, nothing else changes. Login does not look
      at the flag, so a deactivated user can still log in. */
  method DeactivateUser(db: Database, id: Id) returns (status: int)
    requires db.Valid()
    modifies db
    ensures db.Valid()
    ensures db.roles == old(db.roles) && db.permissions == old(db.permissions) && db.tokens == old(db.tokens)
    ensures db.nextId == old(db.nextId)
    ensures status == (if id in old(db.users) then Ok else NotFound)
    ensures id in old(db.users) ==> db.users == old(db.users)[id := old(db.users)[id].(isVerified := false)]
    ensures id !in old(db.users) ==> db.users == old(db.users)
  {
    if id !in db.users {
      return NotFound;
    }
    db.users := db.users[id := db.users[id].(isVerified := false)];
    status := Ok;
  }

  /** The `roles` field of a PATCH /users/:id/roles body, which no validator checks:
      absent, a list of ids, a single id, or a value that does not cast to ids. */
  datatype RolesValue = Absent | List(ids: seq<Id>) | One(id: Id) | Uncastable

  /** Mongoose's array cast (`castNonArrays`, on by default): a single castable value is
      wrapped into a one-element list, and a value that does not cast is a cast error. */
  function CastRoles(v: RolesValue): (r: Input<seq<Id>>)
    ensures r.WrongType? <==> v.Uncastable?
    ensures r.Missing? <==> v.Absent?
    ensures v.One? ==> r == Value([v.id])
    ensures v.List? ==> r == Value(v.ids)
  {
    match v
    case Absent => Missing
    case List(ids) => Value(ids)
    case One(id) => Value([id])
    case Uncastable => WrongType
  }

  /** updateUserRoles: the role list is replaced wholesale, with no check that the roles
      exist. A value that does not cast fails (400) before the lookup; a single id is
      stored as a one-element list; an absent field leaves an empty update, so the user
      comes back unchanged. */
  method UpdateUserRoles(db: Database, id: Id, roles: RolesValue) returns (status: int)
    requires db.Valid()
    modifies db
    ensures db.Valid()
    ensures db.roles == old(db.roles) && db.permissions == old(db.permissions) && db.tokens == old(db.tokens)
    ensures db.nextId == old(db.nextId)
    ensures roles.Uncastable? ==> status == BadRequest && db.users == old(db.users)
    ensures !roles.Uncastable? ==> status == (if id in old(db.users) then Ok else NotFound)
    ensures CastRoles(roles).Value? && id in old(db.users) ==>
      db.users == old(db.users)[id := old(db.users)[id].(roles := CastRoles(roles).v)]
    ensures roles.One? && id in old(db.users) ==> db.users[id].roles == [roles.id]
    ensures !(CastRoles(roles).Value? && id in old(db.users)) ==> db.users == old(db.users)
  {
    var cast := CastRoles(roles);
    if cast.WrongType? {
      return BadRequest;
    }
    if id !in db.users {
      return NotFound;
    }
    if cast.Value? {
      db.users := db.users[id := db.users[id].(roles := cast.v)];
    }
    status := Ok;
  }
}
