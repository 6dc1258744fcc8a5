/** Shared vocabulary of the model: document ids, optional values, request fields and
    the HTTP status codes the handlers answer with. */
module Common {

  /** A document id (a MongoDB ObjectId stands behind it); ids are handed out by a counter. */
  type Id = nat

  /** Ids in strictly increasing order; such a list holds no id twice. */
  predicate StrictlyIncreasing(ids: seq<Id>) {
    forall i, j :: 0 <= i < j < |ids| ==> ids[i] < ids[j]
  }

  /** Ids in strictly decreasing order. */
  predicate StrictlyDecreasing(ids: seq<Id>) {
    forall i, j :: 0 <= i < j < |ids| ==> ids[i] > ids[j]
  }

  datatype Option<+T> = None | Some(value: T) {
    function GetOr(default: T): T {
      match this
      case Some(v) => v
      case None => default
    }
  }

  /** A field of a JSON request body as a validator sees it: absent, present with the
      expected type, or present with some other type (a string where an array is expected,
      null, ...). */
  datatype Input<+T> = Missing | Value(v: T) | WrongType {
    /** What reaches a handler once the validator has accepted the field. */
    function ToOption(): Option<T> {
      match this
      case Value(v) => Some(v)
      case _ => None
    }
  }

  const Ok := 200
  const Created := 201
  const BadRequest := 400
  const Unauthorized := 401
  const NotFound := 404
  const Conflict := 409

  /** ASCII lower-casing of one character (String.prototype.toLowerCase on ASCII). */
  function LowerChar(c: char): char {
    if 'A' <= c <= 'Z' then (c as int + 32) as char else c
  }

  predicate IsLower(s: string) {
    forall i :: 0 <= i < |s| ==> s[i] == LowerChar(s[i])
  }

  /** The lower-cased copy of `s`: same length, every character lower-cased. */
  function Lower(s: string): (r: string)
    ensures |r| == |s|
    ensures forall i :: 0 <= i < |s| ==> r[i] == LowerChar(s[i])
    ensures IsLower(r)
  {
    if s == [] then [] else [LowerChar(s[0])] + Lower(s[1..])
  }

  /** Messages and the minimum password length shared by the request validators of the
      auth and user routes. */
  const InvalidEmail := "Email invalide"
  const PasswordTooShort := "Mot de passe trop court"
  const MinPasswordLength := 8

  /** express-validator's message for a check that has no message of its own. */
  const InvalidValue := "Invalid value"

  /** The messages of the chain `body(f).isString().notEmpty().withMessage(message)`, with
      `.optional()` in front when `optional` holds. The message is attached to notEmpty
      only; isString reports the default message. An absent field is skipped when optional
      and otherwise fails both checks; a value of another type (a number, say) fails only
      isString. */
  function StringNotEmptyErrors(field: Input<string>, message: string, optional: bool): (errors: seq<string>)
    ensures optional && field.Missing? ==> errors == []
    ensures errors == [] <==> (optional && field.Missing?) || (field.Value? && field.v != "")
    ensures |errors| <= 2
  {
    match field
    case Missing => if optional then [] else [InvalidValue, message]
    case WrongType => [InvalidValue]
    case Value(v) => if v == "" then [message] else []
  }

  /** Index of the first occurrence of `c` in `s`. */
  function IndexOf(s: string, c: char): (r: Option<nat>)
    ensures r.Some? ==> r.value < |s| && s[r.value] == c && c !in s[..r.value]
    ensures r.None? <==> c !in s
  {
    if s == [] then None
    else if s[0] == c then Some(0)
    else
      match IndexOf(s[1..], c)
      case None => None
      case Some(i) =>
        assert s[1..][..i] == s[1..i + 1];
        assert s[..i + 1] == [s[0]] + s[1..i + 1];
        Some(i + 1)
  }

  /** The first `c` in `a + [c] + b` is the one after `a`, when `a` holds none. */
  lemma IndexOfFirst(a: string, c: char, b: string)
    requires c !in a
    ensures IndexOf(a + [c] + b, c) == Some(|a|)
  {
    var s := a + [c] + b;
    assert s[|a|] == c && s[|a|] in s;
    assert forall k | 0 <= k < |a| :: s[k] == a[k] && a[k] in a;
    assert forall m | |a| < m <= |s| :: s[..m][|a|] == c;
  }
}
