/** Properties of the session lifecycle that involve several handlers of
    backend/src/services/auth.service.ts: expiry, single use, and what rotation does and
    does not guarantee. The methods are client runs of the handlers whose postconditions
    follow from the handlers' contracts alone. */
module AuthFlows {
  import opened Common
  import opened UserModel
  import opened Models
  import opened AuthService
  import Hex
  import Jwt
  import AuthMiddleware
  import MeController

  /** A token issued at `issued` with the lifetime of its kind is found by a lookup at `at`
      exactly while at < issued + TTL, provided it is the only record with its value: expired
      records are treated as absent even though nothing deletes them. */
  lemma IssuedTokenLiveUntilExpiry(ledger: seq<TokenRecord>, owner: Id, value: string, kind: TokenKind, issued: int, at: int)
    requires CountValue(ledger, value) == 0
    ensures var l := ledger + [TokenRecord(owner, value, kind, issued + Ttl(kind))];
      && (at < issued + Ttl(kind) ==> FindLive(l, value, kind, at) == Some(|ledger|))
      && (at >= issued + Ttl(kind) ==> FindLive(l, value, kind, at).None?)
  {
    var l := ledger + [TokenRecord(owner, value, kind, issued + Ttl(kind))];
    CountValueZero(ledger, value);
    assert forall j :: 0 <= j < |ledger| ==> l[j] == ledger[j];
    assert l[|ledger|].value == value;
  }

  /** The refresh cookie from a login at `issued` is accepted by the refresh handler at `at`
      exactly while its user exists and fewer than seven days (counted in whole seconds, as
      the token's exp claim is) have passed; the ledger plays no part. */
  lemma LoginCookieRefreshes(users: map<Id, User>, id: Id, issued: nat, at: nat)
    ensures var cookie := Jwt.Issue(Jwt.RefreshSecret, id, issued, Jwt.RefreshLifetime);
      RefreshUser(users, cookie, at).Some? <==> id in users && at / 1000 < issued / 1000 + Jwt.RefreshLifetime
  {
    var c := Jwt.Claims(id, issued / 1000 + Jwt.RefreshLifetime);
    var cookie := Jwt.Sign(Jwt.RefreshSecret, c);
    assert cookie == Jwt.Issue(Jwt.RefreshSecret, id, issued, Jwt.RefreshLifetime);
    Jwt.VerifySign(Jwt.RefreshSecret, c, at);
    assert cookie != "" by {
      assert cookie[0] == Jwt.RefreshSecret[0];
    }
  }

  /** An access token is never accepted as a refresh cookie: each secret signs one kind. */
  lemma AccessTokenIsNoRefreshCookie(users: map<Id, User>, id: Id, issued: nat, at: nat)
    ensures RefreshUser(users, Jwt.Issue(Jwt.AccessSecret, id, issued, Jwt.AccessLifetime), at).None?
  {
    Jwt.SecretsSeparate(Jwt.Claims(id, issued / 1000 + Jwt.AccessLifetime), at);
  }

  /** A user whose record is the one signup created, up to its verification flag, logs in
      with the signup email and password. */
  lemma SignedUpUserLogsIn(users: map<Id, User>, nextId: nat, id: Id, email: string, password: string, salt: nat)
    requires forall i :: i in users ==> i < nextId
    requires UniqueEmails(users) && email != "" && password != "" && id in users
    requires users[id].email == Lower(email)
    requires users[id].password == Create(email, password, None, None, salt).value.password
    ensures LoginUser(users, nextId, email, password) == Some(id)
  {
    FindByEmailFinds(users, nextId, id, email);
    var u := Create(email, password, None, None, salt).value;
    assert ComparePassword(u, password);
  }

  /** Signup, then verify-email with the returned token, then login: all three succeed and
      the account ends up verified (the scenario signup alice -> verify -> login). The
      random bytes are fresh: no record already holds the token value they encode. */
  method SignupVerifyLogin(db: Database, email: string, password: string, random: seq<Hex.Byte>, salt: nat,
                           t1: nat, t2: nat, t3: nat)
    returns (signedUp: int, verified: int, loggedIn: int)
    requires db.Valid() && |random| == Hex.TokenBytes
    requires email != "" && password != "" && FindByEmail(db.users, db.nextId, email).None?
    requires CountValue(db.tokens, Hex.HexOf(random)) == 0
    requires t2 < t1 + Ttl(VerifyKind)
    modifies db
    ensures signedUp == Created && verified == Ok && loggedIn == Ok
    ensures old(db.nextId) in db.users
    ensures db.users[old(db.nextId)].isVerified && db.users[old(db.nextId)].email == Lower(email)
  {
    var id := db.nextId;
    ghost var users0, tokens0 := db.users, db.tokens;
    ghost var u := Create(email, password, None, None, salt).value;
    var token;
    signedUp, token := Signup(db, email, password, t1, random, salt);
    assert signedUp == Created;
    assert db.users == users0[id := u];
    assert db.tokens == tokens0 + [TokenRecord(id, token, VerifyKind, t1 + Ttl(VerifyKind))];
    ghost var users1, tokens1 := db.users, db.tokens;
    IssuedTokenLiveUntilExpiry(tokens0, id, token, VerifyKind, t1, t2);
    assert FindLive(tokens1, token, VerifyKind, t2) == Some(|tokens0|);
    assert tokens1[|tokens0|].userId == id && id in users1 && users1[id] == u;
    assert |token| == 64;
    verified := VerifyEmail(db, token, t2);
    assert verified == Ok;
    assert db.users == users1[id := u.(isVerified := true)];
    assert db.users[id] == u.(isVerified := true);
    SignedUpUserLogsIn(db.users, db.nextId, id, email, password, salt);
    var access, cookie, message;
    loggedIn, message, access, cookie := Login(db, email, password, t3);
  }

  /** A reset token works once: the second confirmation with the same token is refused,
      because the first one deleted the only record holding it. */
  method ResetTokenSingleUse(db: Database, email: string, password: string, random: seq<Hex.Byte>, salt: nat,
                             t1: nat, t2: nat, t3: nat)
    returns (requested: int, first: int, second: int)
    requires db.Valid() && |random| == Hex.TokenBytes
    requires email != "" && password != "" && FindByEmail(db.users, db.nextId, email).Some?
    requires CountValue(db.tokens, Hex.HexOf(random)) == 0
    requires t2 < t1 + Ttl(ResetKind)
    modifies db
    ensures requested == Ok && first == Ok && second == BadRequest
  {
    var owner := FindByEmail(db.users, db.nextId, email).value;
    ghost var tokens0 := db.tokens;
    var token;
    requested, token := ResetPassword(db, email, t1, random);
    var rec := TokenRecord(owner, token, ResetKind, t1 + Ttl(ResetKind));
    assert db.tokens == tokens0 + [rec];
    ghost var tokens1 := db.tokens;
    IssuedTokenLiveUntilExpiry(tokens0, owner, token, ResetKind, t1, t2);
    assert |token| == 64;
    CountValueAppend(tokens0, [rec], token);
    assert CountValue([rec], token) == 1 by { assert [rec][1..] == []; }
    assert FindLive(tokens1, token, ResetKind, t2) == Some(|tokens0|);
    assert tokens1[|tokens0|].userId == owner && owner in db.users;
    first := ResetPasswordConfirm(db, token, "", password, t2, salt);
    assert first == Ok;
    assert db.tokens == RemoveAt(tokens1, |tokens0|);
    assert tokens1[|tokens0|].value == token;
    ConsumedIsGone(tokens1, |tokens0|, ResetKind, t2, t3);
    assert FindLive(db.tokens, token, ResetKind, t3).None?;
    second := ResetPasswordConfirm(db, token, "", password, t3, salt);
  }

  /** Logout deletes the cookie's record but does not revoke the refresh token: refresh
      checks only the signature, its expiry and the user, so the same cookie still rotates
      after logout. */
  method RefreshAfterLogout(db: Database, cookie: string, now: nat)
    returns (loggedOut: int, refreshed: int)
    requires db.Valid() && RefreshUser(db.users, cookie, now).Some?
    modifies db
    ensures loggedOut == Ok && refreshed == Ok
  {
    var cleared, access, next;
    loggedOut, cleared := Logout(db, cookie);
    refreshed, access, next := Refresh(db, cookie, now);
  }

  /** Rotation is not single use at the ledger: replaying a refresh cookie that was just
      rotated succeeds again while its signature has not expired. */
  method RefreshReplay(db: Database, cookie: string, now: nat, later: nat)
    returns (first: int, second: int)
    requires db.Valid() && RefreshUser(db.users, cookie, now).Some?
    requires later / 1000 < Jwt.Verify(Jwt.RefreshSecret, cookie, now).value.exp
    modifies db
    ensures first == Ok && second == Ok
  {
    var access, next;
    first, access, next := Refresh(db, cookie, now);
    second, access, next := Refresh(db, cookie, later);
  }

  /** GET /me behind the gate: the access token handed out at login, presented before it
      expires, lets the request through as its user, and /me then answers with that user's
      own email and roles. The gate stores the user document and /me reads its id back, so
      the request is never 401 "Non authentifié" once past the gate. */
  lemma AccessTokenReadsOwnProfile(users: map<Id, User>, roles: map<Id, Role>, permissions: map<Id, Permission>,
                                   id: Id, issued: nat, now: nat)
    requires id in users && now / 1000 < issued / 1000 + Jwt.AccessLifetime
    ensures var gate := AuthMiddleware.Authenticate(users, AuthMiddleware.BearerPrefix + Jwt.Issue(Jwt.AccessSecret, id, issued, Jwt.AccessLifetime), now);
      && gate == AuthMiddleware.Next(id, users[id])
      && MeController.GetMe(users, roles, permissions, Some(gate.userId)).Me?
      && MeController.GetMe(users, roles, permissions, Some(gate.userId)).email == users[id].email
      && MeController.GetMe(users, roles, permissions, Some(gate.userId)).roles == MeController.RoleNames(Populate(users[id].roles, roles))
  {
    AuthMiddleware.AccessTokenPassesGate(users, id, issued, now);
  }
}
