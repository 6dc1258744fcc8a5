/** bcryptjs as a symbolic hash: a digest records the cost, the salt and the secret it was
    computed from, and `Compare` accepts exactly that secret. The salt is an input (bcrypt
    draws it at random); nothing here models the hash function's internals. */
module Bcrypt {

  /** Cost factor passed to `bcrypt.hash` (user.model.ts line 21). */
  const SaltRounds := 10

  datatype Digest = Digest(cost: nat, salt: nat, secret: string)

  function Hash(secret: string, salt: nat): Digest {
    Digest(SaltRounds, salt, secret)
  }

  /** bcrypt.compare: the candidate is the secret the digest was computed from. */
  predicate Compare(candidate: string, d: Digest) {
    candidate == d.secret
  }
}

/** The user record (backend/src/models/user.model.ts): schema setters and defaults, the
    required checks, the pre-save hook that rehashes a modified password, comparePassword. */
module UserModel {
  import opened Common
  import Bcrypt

  /** What the `password` field holds: a bcrypt digest when it went through the save hook,
      the text as given when it was written by an update that skips the hook. */
  datatype StoredPassword = Hashed(digest: Bcrypt.Digest) | Raw(text: string)

  datatype User = User(email: string, password: StoredPassword, isVerified: bool, roles: seq<Id>)

  /** The `required` check on the password field: a non-empty value. */
  predicate HasPassword(p: StoredPassword) {
    match p
    case Hashed(d) => d.secret != ""
    case Raw(t) => t != ""
  }

  /** The schema applied to the fields of a new document, before validation: the email
      goes through the `lowercase` setter, isVerified and roles take their defaults, the
      password is held as given. */
  function Construct(email: string, password: string, roles: Option<seq<Id>>, isVerified: Option<bool>): User {
    User(Lower(email), Raw(password), isVerified.GetOr(true), roles.GetOr([]))
  }

  /** The `required` validators on email and password. */
  predicate Validates(u: User) {
    u.email != "" && HasPassword(u.password)
  }

  /** The pre-save hook: the password is hashed when the field was modified, and the
      document is left exactly as it is otherwise. A modified field always holds the text
      just assigned to it. */
  function PreSave(u: User, passwordModified: bool, salt: nat): (r: User)
    ensures r.email == u.email && r.isVerified == u.isVerified && r.roles == u.roles
    ensures !passwordModified ==> r == u
    ensures passwordModified && u.password.Raw? ==> r.password == Hashed(Bcrypt.Hash(u.password.text, salt))
  {
    if !passwordModified then u
    else
      match u.password
      case Raw(t) => u.(password := Hashed(Bcrypt.Hash(t, salt)))
      case Hashed(_) => u
  }

  /** comparePassword: bcrypt.compare of the candidate against the stored field. A value
      that is not a bcrypt digest (a password written by an update) never matches. */
  predicate ComparePassword(u: User, candidate: string)
    ensures ComparePassword(u, candidate) ==> u.password.Hashed? && candidate == u.password.digest.secret
  {
    match u.password
    case Hashed(d) => Bcrypt.Compare(candidate, d)
    case Raw(_) => false
  }

  /** User.create: build the document, validate it, run the save hook on the new (hence
      modified) password. The result is None when validation fails. */
  function Create(email: string, password: string, roles: Option<seq<Id>>, isVerified: Option<bool>, salt: nat): (r: Option<User>)
    ensures r.Some? <==> email != "" && password != ""
    ensures r.Some? ==> r.value.email == Lower(email) && IsLower(r.value.email)
    ensures r.Some? ==> r.value.isVerified == isVerified.GetOr(true) && r.value.roles == roles.GetOr([])
    ensures r.Some? ==> r.value.password.Hashed? && HasPassword(r.value.password)
    ensures r.Some? ==> forall candidate :: ComparePassword(r.value, candidate) <==> candidate == password
  {
    var doc := Construct(email, password, roles, isVerified);
    if Validates(doc) then Some(PreSave(doc, true, salt)) else None
  }

  /** Assigning a password and saving. Mongoose marks the field modified only when the
      assigned value differs from the stored one, so assigning the text already stored raw
      leaves the document as it is (still raw, still matching nothing); any other
      assignment stores a digest that accepts exactly the assigned password. The other
      fields are untouched either way. */
  lemma SetPasswordAndSave(u: User, password: string, salt: nat)
    ensures var v := PreSave(u.(password := Raw(password)), u.password != Raw(password), salt);
      && (u.password == Raw(password) ==> v == u)
      && (u.password != Raw(password) ==> v == u.(password := Hashed(Bcrypt.Hash(password, salt))))
      && (forall candidate :: ComparePassword(v, candidate) <==> candidate == password && u.password != Raw(password))
  {
    if u.password == Raw(password) {
      assert u.(password := Raw(password)) == u;
    }
  }

  /** A save that does not touch the password keeps the stored digest: a password is
      never hashed twice. */
  lemma SaveWithoutPasswordChange(u: User, salt: nat)
    ensures PreSave(u.(isVerified := true), false, salt).password == u.password
  {
  }
}
