/** The auth routes of backend/src/routes/auth.routes.ts with the validator chains of
    backend/src/controllers/auth.controller.ts in front of signup and login. A request the
    chain rejects is answered 400 with the collected messages and never reaches the
    service; the other routes forward straight to it. `isEmail` stands for the validator
    library's email test, which rejects the empty string. */
module AuthController {
  import opened Common
  import opened UserModel
  import opened Models
  import AuthService
  import Hex
  import Jwt

  const PasswordRequired := "Mot de passe requis"

  /** validateSignup: a valid email and a password of at least 8 characters. */
  function SignupErrors(email: Option<string>, password: Option<string>, isEmail: string -> bool): (errors: seq<string>)
    ensures InvalidEmail in errors <==> email.None? || !isEmail(email.value)
    ensures PasswordTooShort in errors <==> password.None? || |password.value| < MinPasswordLength
    ensures forall m :: m in errors ==> m in [InvalidEmail, PasswordTooShort]
  {
    (if email.None? || !isEmail(email.value) then [InvalidEmail] else [])
    + (if password.None? || |password.value| < MinPasswordLength then [PasswordTooShort] else [])
  }

  /** validateLogin: a valid email and a non-empty password. */
  function LoginErrors(email: Option<string>, password: Option<string>, isEmail: string -> bool): (errors: seq<string>)
    ensures InvalidEmail in errors <==> email.None? || !isEmail(email.value)
    ensures PasswordRequired in errors <==> password.None? || password.value == ""
    ensures forall m :: m in errors ==> m in [InvalidEmail, PasswordRequired]
  {
    (if email.None? || !isEmail(email.value) then [InvalidEmail] else [])
    + (if password.None? || password.value == "" then [PasswordRequired] else [])
  }

  /** The signup chain is the stricter one: credentials it accepts also pass the login
      chain, so an account created through the route can always attempt a login. */
  lemma SignupAcceptedLoginAccepted(email: Option<string>, password: Option<string>, isEmail: string -> bool)
    requires SignupErrors(email, password, isEmail) == []
    ensures LoginErrors(email, password, isEmail) == []
  {
    assert InvalidEmail !in SignupErrors(email, password, isEmail);
    assert PasswordTooShort !in SignupErrors(email, password, isEmail);
  }

  /** Behind the chain the service's own presence check never fires: an accepted body
      carries a non-empty email and password. */
  lemma ValidatedSignupPassesServiceCheck(email: Option<string>, password: Option<string>, isEmail: string -> bool)
    requires !isEmail("")
    requires SignupErrors(email, password, isEmail) == []
    ensures email.Some? && email.value != ""
    ensures password.Some? && |password.value| >= MinPasswordLength
  {
    assert InvalidEmail !in SignupErrors(email, password, isEmail);
    assert PasswordTooShort !in SignupErrors(email, password, isEmail);
  }

  /** POST /auth/signup: validateSignup, then the service. */
  method RoutedSignup(db: Database, email: Option<string>, password: Option<string>, isEmail: string -> bool,
                      now: nat, random: seq<Hex.Byte>, salt: nat)
    returns (status: int, errors: seq<string>, verifyToken: string)
    requires db.Valid() && |random| == Hex.TokenBytes
    modifies db
    ensures db.Valid()
    ensures db.roles == old(db.roles) && db.permissions == old(db.permissions)
    ensures errors == SignupErrors(email, password, isEmail)
    ensures errors != [] ==> status == BadRequest && verifyToken == "" && unchanged(db)
    ensures errors == [] && !isEmail("") ==> status == Created || status == Conflict
    ensures errors == [] && !isEmail("") ==>
      (status == Conflict <==> old(FindByEmail(db.users, db.nextId, email.GetOr(""))).Some?)
    ensures status == Conflict ==> verifyToken == "" && unchanged(db)
    ensures status == Created ==>
      && email.Some? && email.value != ""
      && password.Some? && |password.value| >= MinPasswordLength
      && db.nextId == old(db.nextId) + 1
      && db.users == old(db.users)[old(db.nextId) := Create(email.value, password.value, None, None, salt).value]
      && verifyToken == Hex.HexOf(random)
      && db.tokens == old(db.tokens) + [TokenRecord(old(db.nextId), verifyToken, VerifyKind, now + Ttl(VerifyKind))]
  {
    errors := SignupErrors(email, password, isEmail);
    if errors != [] {
      status, verifyToken := BadRequest, "";
      return;
    }
    status, verifyToken := AuthService.Signup(db, email.GetOr(""), password.GetOr(""), now, random, salt);
  }

  /** POST /auth/login: validateLogin, then the service. */
  method RoutedLogin(db: Database, email: Option<string>, password: Option<string>, isEmail: string -> bool, now: nat)
    returns (status: int, errors: seq<string>, accessToken: string, cookie: string)
    requires db.Valid()
    modifies db
    ensures db.Valid()
    ensures db.users == old(db.users) && db.roles == old(db.roles)
    ensures db.permissions == old(db.permissions) && db.nextId == old(db.nextId)
    ensures errors == LoginErrors(email, password, isEmail)
    ensures errors != [] ==> status == BadRequest && accessToken == "" && cookie == "" && unchanged(db)
    ensures errors == [] ==> status == Ok || status == Unauthorized
    ensures status == Ok <==>
      errors == [] && AuthService.LoginUser(db.users, db.nextId, email.GetOr(""), password.GetOr("")).Some?
    ensures status != Ok ==> db.tokens == old(db.tokens) && accessToken == "" && cookie == ""
    ensures status == Ok ==>
      var id := AuthService.LoginUser(db.users, db.nextId, email.GetOr(""), password.GetOr("")).value;
      && accessToken == Jwt.Issue(Jwt.AccessSecret, id, now, Jwt.AccessLifetime)
      && cookie == Jwt.Issue(Jwt.RefreshSecret, id, now, Jwt.RefreshLifetime)
      && db.tokens == old(db.tokens) + [TokenRecord(id, cookie, RefreshKind, now + Ttl(RefreshKind))]
  {
    errors := LoginErrors(email, password, isEmail);
    if errors != [] {
      status, accessToken, cookie := BadRequest, "", "";
      return;
    }
    var message;
    status, message, accessToken, cookie := AuthService.Login(db, email.GetOr(""), password.GetOr(""), now);
  }
}
