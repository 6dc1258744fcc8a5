/** The session and token lifecycle (backend/src/services/auth.service.ts).

    Each handler is a method over the Database: it answers with a status code and changes
    the users and the token ledger as the source does, step by step behind early returns.
    Request-body strings are "" when absent (the source tests them with `!x`). `now` is
    Date.now() in milliseconds; `random` is what crypto.randomBytes(32) returned; `salt` is
    the salt bcrypt drew. */
module AuthService {
  import opened Common
  import opened UserModel
  import opened Models
  import Hex
  import Jwt

  /** The one message login answers with for an unknown email and for a wrong password. */
  const InvalidCredentials := "Email ou mot de passe invalide."

  /** The user a login attempt authenticates: the account with that email, provided the
      password matches its stored digest. Whether the account is verified plays no part. */
  function LoginUser(users: map<Id, User>, nextId: nat, email: string, password: string): (r: Option<Id>)
    requires forall id :: id in users ==> id < nextId
    ensures r.Some? <==> FindByEmail(users, nextId, email).Some? && ComparePassword(users[FindByEmail(users, nextId, email).value], password)
    ensures r.Some? ==> r.value in users && users[r.value].email == Lower(email)
  {
    match FindByEmail(users, nextId, email)
    case None => None
    case Some(id) => if ComparePassword(users[id], password) then Some(id) else None
  }

  /** The user a refresh cookie stands for: a non-empty value that verifies under the
      refresh secret and names an existing user. The ledger is not consulted. */
  function RefreshUser(users: map<Id, User>, cookie: string, now: nat): (r: Option<Id>)
    ensures r.Some? <==> cookie != "" && Jwt.Verify(Jwt.RefreshSecret, cookie, now).Some?
                         && Jwt.Verify(Jwt.RefreshSecret, cookie, now).value.userId in users
    ensures r.Some? ==> r.value == Jwt.Verify(Jwt.RefreshSecret, cookie, now).value.userId
  {
    if cookie == "" then None
    else
      match Jwt.Verify(Jwt.RefreshSecret, cookie, now)
      case None => None
      case Some(c) => if c.userId in users then Some(c.userId) else None
  }

  /** `user.password = password; await user.save()`: the save hook hashes the password
      when the assignment changed the field. Assigning the text a record already holds raw
      (written by an update that skipped the hook) changes nothing, so such a record stays
      locked. */
  function WithNewPassword(u: User, password: string, salt: nat): (r: User)
    ensures r.email == u.email && r.isVerified == u.isVerified && r.roles == u.roles
    ensures password != "" ==> HasPassword(r.password)
    ensures u.password == Raw(password) ==> r == u
    ensures forall candidate :: ComparePassword(r, candidate) <==> candidate == password && u.password != Raw(password)
  {
    SetPasswordAndSave(u, password, salt);
    PreSave(u.(password := Raw(password)), u.password != Raw(password), salt)
  }

  /** POST /auth/signup. */
  method Signup(db: Database, email: string, password: string, now: nat, random: seq<Hex.Byte>, salt: nat)
    returns (status: int, verifyToken: string)
    requires db.Valid() && |random| == Hex.TokenBytes
    modifies db
    ensures db.Valid()
    ensures db.roles == old(db.roles) && db.permissions == old(db.permissions)
    ensures status == BadRequest <==> email == "" || password == ""
    ensures status == Conflict <==> email != "" && password != "" && old(FindByEmail(db.users, db.nextId, email)).Some?
    ensures status == BadRequest || status == Conflict || status == Created
    ensures status != Created ==> unchanged(db) && verifyToken == ""
    ensures status == Created ==>
      var id := old(db.nextId);
      && id !in old(db.users)
      && db.nextId == id + 1
      && db.users == old(db.users)[id := Create(email, password, None, None, salt).value]
      && verifyToken == Hex.HexOf(random)
      && db.tokens == old(db.tokens) + [TokenRecord(id, verifyToken, VerifyKind, now + Ttl(VerifyKind))]
  {
    if email == "" || password == "" {
      status, verifyToken := BadRequest, "";
      return;
    }
    var existing := FindByEmail(db.users, db.nextId, email);
    if existing.Some? {
      status, verifyToken := Conflict, "";
      return;
    }
    var user := Create(email, password, None, None, salt);
    var id := db.nextId;
    db.users := db.users[id := user.value];
    db.nextId := id + 1;
    verifyToken := Hex.HexOf(random);
    db.tokens := db.tokens + [TokenRecord(id, verifyToken, VerifyKind, now + Ttl(VerifyKind))];
    status := Created;
  }

  /** POST /auth/login. On success the body carries only the access token; the refresh
      token goes into the cookie and into the ledger. */
  method Login(db: Database, email: string, password: string, now: nat)
    returns (status: int, message: string, accessToken: string, cookie: string)
    requires db.Valid()
    modifies db
    ensures db.Valid()
    ensures db.users == old(db.users) && db.roles == old(db.roles)
    ensures db.permissions == old(db.permissions) && db.nextId == old(db.nextId)
    ensures status == Ok <==> LoginUser(db.users, db.nextId, email, password).Some?
    ensures status == Ok || status == Unauthorized
    ensures status == Unauthorized ==>
      && message == InvalidCredentials && accessToken == "" && cookie == ""
      && db.tokens == old(db.tokens)
    ensures status == Ok ==>
      var id := LoginUser(db.users, db.nextId, email, password).value;
      && accessToken == Jwt.Issue(Jwt.AccessSecret, id, now, Jwt.AccessLifetime)
      && cookie == Jwt.Issue(Jwt.RefreshSecret, id, now, Jwt.RefreshLifetime)
      && db.tokens == old(db.tokens) + [TokenRecord(id, cookie, RefreshKind, now + Ttl(RefreshKind))]
  {
    var found := FindByEmail(db.users, db.nextId, email);
    if found.None? || !ComparePassword(db.users[found.value], password) {
      status, message, accessToken, cookie := Unauthorized, InvalidCredentials, "", "";
      return;
    }
    var id := found.value;
    accessToken := Jwt.Issue(Jwt.AccessSecret, id, now, Jwt.AccessLifetime);
    cookie := Jwt.Issue(Jwt.RefreshSecret, id, now, Jwt.RefreshLifetime);
    db.tokens := db.tokens + [TokenRecord(id, cookie, RefreshKind, now + Ttl(RefreshKind))];
    status, message := Ok, "";
  }

  /** POST /auth/logout: always succeeds and clears the cookie; a present cookie value is
      deleted from the ledger (the first record holding it, of any type). */
  method Logout(db: Database, cookie: string) returns (status: int, clearCookie: bool)
    requires db.Valid()
    modifies db
    ensures db.Valid()
    ensures db.users == old(db.users) && db.roles == old(db.roles)
    ensures db.permissions == old(db.permissions) && db.nextId == old(db.nextId)
    ensures status == Ok && clearCookie
    ensures db.tokens == if cookie == "" then old(db.tokens) else DeleteOne(old(db.tokens), cookie)
  {
    if cookie != "" {
      db.tokens := DeleteOne(db.tokens, cookie);
    }
    status, clearCookie := Ok, true;
  }

  /** POST /auth/refresh: rotation. The old value's record is deleted and a new refresh
      record added; whether the old value was in the ledger is never checked. */
  method Refresh(db: Database, cookie: string, now: nat)
    returns (status: int, accessToken: string, newCookie: string)
    requires db.Valid()
    modifies db
    ensures db.Valid()
    ensures db.users == old(db.users) && db.roles == old(db.roles)
    ensures db.permissions == old(db.permissions) && db.nextId == old(db.nextId)
    ensures status == Ok <==> RefreshUser(db.users, cookie, now).Some?
    ensures status == Ok || status == Unauthorized
    ensures status == Unauthorized ==> db.tokens == old(db.tokens) && accessToken == "" && newCookie == ""
    ensures status == Ok ==>
      var id := RefreshUser(db.users, cookie, now).value;
      && accessToken == Jwt.Issue(Jwt.AccessSecret, id, now, Jwt.AccessLifetime)
      && newCookie == Jwt.Issue(Jwt.RefreshSecret, id, now, Jwt.RefreshLifetime)
      && db.tokens == DeleteOne(old(db.tokens), cookie) + [TokenRecord(id, newCookie, RefreshKind, now + Ttl(RefreshKind))]
  {
    if cookie == "" {
      status, accessToken, newCookie := Unauthorized, "", "";
      return;
    }
    var claims := Jwt.Verify(Jwt.RefreshSecret, cookie, now);
    if claims.None? {
      // jwt.verify throws; the catch answers 401
      status, accessToken, newCookie := Unauthorized, "", "";
      return;
    }
    var id := claims.value.userId;
    if id !in db.users {
      status, accessToken, newCookie := Unauthorized, "", "";
      return;
    }
    accessToken := Jwt.Issue(Jwt.AccessSecret, id, now, Jwt.AccessLifetime);
    newCookie := Jwt.Issue(Jwt.RefreshSecret, id, now, Jwt.RefreshLifetime);
    db.tokens := DeleteOne(db.tokens, cookie);
    db.tokens := db.tokens + [TokenRecord(id, newCookie, RefreshKind, now + Ttl(RefreshKind))];
    status := Ok;
  }

  /** POST /auth/reset-password: issues a one-hour reset token and returns it. */
  method ResetPassword(db: Database, email: string, now: nat, random: seq<Hex.Byte>)
    returns (status: int, resetToken: string)
    requires db.Valid() && |random| == Hex.TokenBytes
    modifies db
    ensures db.Valid()
    ensures db.users == old(db.users) && db.roles == old(db.roles)
    ensures db.permissions == old(db.permissions) && db.nextId == old(db.nextId)
    ensures status == BadRequest <==> email == ""
    ensures status == NotFound <==> email != "" && FindByEmail(db.users, db.nextId, email).None?
    ensures status == BadRequest || status == NotFound || status == Ok
    ensures status != Ok ==> db.tokens == old(db.tokens) && resetToken == ""
    ensures status == Ok ==>
      && resetToken == Hex.HexOf(random)
      && db.tokens == old(db.tokens)
           + [TokenRecord(FindByEmail(db.users, db.nextId, email).value, resetToken, ResetKind, now + Ttl(ResetKind))]
  {
    if email == "" {
      status, resetToken := BadRequest, "";
      return;
    }
    var found := FindByEmail(db.users, db.nextId, email);
    if found.None? {
      status, resetToken := NotFound, "";
      return;
    }
    resetToken := Hex.HexOf(random);
    db.tokens := db.tokens + [TokenRecord(found.value, resetToken, ResetKind, now + Ttl(ResetKind))];
    status := Ok;
  }

  /** POST /auth/reset-password/confirm. A token, when given, is used and the email is
      ignored: it must be a live reset token, and it is deleted before the user lookup. With
      no token the email alone selects the account. */
  method ResetPasswordConfirm(db: Database, token: string, email: string, password: string, now: nat, salt: nat)
    returns (status: int)
    requires db.Valid()
    modifies db
    ensures db.Valid()
    ensures db.roles == old(db.roles) && db.permissions == old(db.permissions) && db.nextId == old(db.nextId)
    ensures (token == "" && email == "") || password == "" ==> status == BadRequest && unchanged(db)
    ensures token != "" && password != "" ==>
      var found := FindLive(old(db.tokens), token, ResetKind, now);
      if found.None? then status == BadRequest && unchanged(db)
      else
        var id := old(db.tokens)[found.value].userId;
        && db.tokens == RemoveAt(old(db.tokens), found.value)
        && (id in old(db.users) ==>
              status == Ok && db.users == old(db.users)[id := WithNewPassword(old(db.users)[id], password, salt)])
        && (id !in old(db.users) ==> status == NotFound && db.users == old(db.users))
    ensures token == "" && email != "" && password != "" ==>
      var found := old(FindByEmail(db.users, db.nextId, email));
      && db.tokens == old(db.tokens)
      && (found.None? ==> status == NotFound && db.users == old(db.users))
      && (found.Some? ==>
            status == Ok && db.users == old(db.users)[found.value := WithNewPassword(old(db.users)[found.value], password, salt)])
  {
    if (token == "" && email == "") || password == "" {
      return BadRequest;
    }
    var id: Option<Id>;
    if token != "" {
      var found := FindLive(db.tokens, token, ResetKind, now);
      if found.None? {
        return BadRequest;
      }
      var owner := db.tokens[found.value].userId;
      id := if owner in db.users then Some(owner) else None;
      db.tokens := RemoveAt(db.tokens, found.value);
    } else {
      id := FindByEmail(db.users, db.nextId, email);
    }
    if id.None? {
      return NotFound;
    }
    db.users := db.users[id.value := WithNewPassword(db.users[id.value], password, salt)];
    status := Ok;
  }

  /** POST /auth/verify-email: a live verify token marks its user verified and is then
      deleted; when the user is gone the answer is 404 and the token stays. */
  method VerifyEmail(db: Database, token: string, now: nat) returns (status: int)
    requires db.Valid()
    modifies db
    ensures db.Valid()
    ensures db.roles == old(db.roles) && db.permissions == old(db.permissions) && db.nextId == old(db.nextId)
    ensures token == "" ==> status == BadRequest && unchanged(db)
    ensures token != "" ==>
      var found := FindLive(old(db.tokens), token, VerifyKind, now);
      if found.None? then status == BadRequest && unchanged(db)
      else
        var id := old(db.tokens)[found.value].userId;
        if id !in old(db.users) then status == NotFound && unchanged(db)
        else
          && status == Ok
          && db.users == old(db.users)[id := old(db.users)[id].(isVerified := true)]
          && db.tokens == RemoveAt(old(db.tokens), found.value)
  {
    if token == "" {
      return BadRequest;
    }
    var found := FindLive(db.tokens, token, VerifyKind, now);
    if found.None? {
      return BadRequest;
    }
    var id := db.tokens[found.value].userId;
    if id !in db.users {
      return NotFound;
    }
    // the save hook runs, but the password was not modified
    db.users := db.users[id := PreSave(db.users[id].(isVerified := true), false, 0)];
    db.tokens := RemoveAt(db.tokens, found.value);
    status := Ok;
  }
}
