/** The request gate of backend/src/middleware/auth.middleware.ts: read the Authorization
    header, take the bearer token, verify it with the access secret, look the user up.
    The outcome is either a 401 with its message, or `Next`: the request goes on to the
    handler with `req.user` set to the user found (the one call of `next`). */
module AuthMiddleware {
  import opened Common
  import opened UserModel
  import Jwt

  const MissingToken := "Token manquant ou invalide."
  const InvalidToken := "Token invalide."
  const UnknownUser := "Utilisateur non trouvé."

  const BearerPrefix := "Bearer "

  datatype GateOutcome = Reject(status: int, message: string) | Next(userId: Id, user: User)

  /** `s.split(sep)`: the fields between separators, in order; there is always at least one
      and none contains the separator. The first field is the text up to the first separator. */
  function Split(s: string, sep: char): (r: seq<string>)
    decreases |s|
    ensures |r| >= 1
    ensures forall k :: 0 <= k < |r| ==> sep !in r[k]
    ensures r[0] <= s && (|r[0]| == |s| || s[|r[0]|] == sep)
  {
    match IndexOf(s, sep)
    case None => [s]
    case Some(i) => [s[..i]] + Split(s[i + 1..], sep)
  }

  /** `parts.join(sep)`. */
  function Join(parts: seq<string>, sep: char): string
    requires |parts| >= 1
  {
    if |parts| == 1 then parts[0] else parts[0] + [sep] + Join(parts[1..], sep)
  }

  /** Splitting loses nothing: joining the fields back gives the string. */
  lemma {:induction false} JoinSplit(s: string, sep: char)
    decreases |s|
    ensures Join(Split(s, sep), sep) == s
  {
    match IndexOf(s, sep)
    case None =>
    case Some(i) =>
      var rest := Split(s[i + 1..], sep);
      assert Split(s, sep) == [s[..i]] + rest;
      assert Split(s, sep)[1..] == rest;
      JoinSplit(s[i + 1..], sep);
      assert s == s[..i] + [sep] + s[i + 1..];
  }

  /** Fields without the separator are exactly what splitting their join gives back. */
  lemma {:induction false} SplitJoin(parts: seq<string>, sep: char)
    requires |parts| >= 1 && forall k :: 0 <= k < |parts| ==> sep !in parts[k]
    ensures Split(Join(parts, sep), sep) == parts
  {
    if |parts| == 1 {
      assert IndexOf(parts[0], sep).None?;
    } else {
      var s := Join(parts, sep);
      var tail := Join(parts[1..], sep);
      assert s == parts[0] + [sep] + tail;
      var i := |parts[0]|;
      assert s[..i] == parts[0] && s[i + 1..] == tail;
      IndexOfFirst(parts[0], sep, tail);
      SplitJoin(parts[1..], sep);
      assert Split(s, sep) == [parts[0]] + parts[1..];
    }
  }

  /** `authHeader.startsWith('Bearer ')`, with the space, case-sensitive. */
  predicate HasBearerPrefix(header: string)
    ensures HasBearerPrefix(header) <==> BearerPrefix <= header
    ensures HasBearerPrefix(header) ==> header[6] == ' '
  {
    |header| >= |BearerPrefix| && header[..|BearerPrefix|] == BearerPrefix
  }

  /** `authHeader.split(' ')[1]`: the text after the prefix up to the next space (empty when
      another space follows the prefix straight away). */
  function BearerToken(header: string): (token: string)
    requires HasBearerPrefix(header)
    ensures ' ' !in token
    ensures token <= header[|BearerPrefix|..]
    ensures |BearerPrefix| + |token| == |header| || header[|BearerPrefix| + |token|] == ' '
  {
    var n := |BearerPrefix|;
    assert header == "Bearer" + [' '] + header[n..];
    assert IndexOf(header, ' ') == Some(n - 1) by {
      assert header[n - 1] in header;
    }
    assert header[..n - 1] == "Bearer";
    assert Split(header, ' ') == ["Bearer"] + Split(header[n..], ' ');
    Split(header, ' ')[1]
  }

  /** A token without spaces, sent as `Bearer <token>`, possibly followed by more
      space-separated text, is the token the gate takes. */
  lemma BearerTokenOf(token: string, rest: string)
    requires ' ' !in token
    ensures BearerToken(BearerPrefix + token) == token
    ensures BearerToken(BearerPrefix + token + " " + rest) == token
  {
    var n := |BearerPrefix|;
    var alone, followed := BearerPrefix + token, BearerPrefix + token + " " + rest;
    assert alone[..n] == BearerPrefix && alone[n..] == token;
    FirstFieldUnique(alone[n..], BearerToken(alone), token);
    assert followed[..n] == BearerPrefix && followed[n..] == token + " " + rest;
    assert followed[n..][|token|] == ' ';
    FirstFieldUnique(followed[n..], BearerToken(followed), token);
  }

  /** A string has one field before its first space: two space-free prefixes that both end
      at a space or at the end of the string are the same. */
  lemma FirstFieldUnique(s: string, t: string, u: string)
    requires t <= s && ' ' !in t && (|t| == |s| || s[|t|] == ' ')
    requires u <= s && ' ' !in u && (|u| == |s| || s[|u|] == ' ')
    ensures t == u
  {
    assert forall k | 0 <= k < |t| :: s[k] == t[k] && t[k] in t;
    assert forall k | 0 <= k < |u| :: s[k] == u[k] && u[k] in u;
    assert |t| == |u|;
  }

  /** authenticateJWT. Every rejection is a 401; which message depends on the first check
      that fails: the header, then the token under the access secret, then the user. */
  function Authenticate(users: map<Id, User>, header: string, now: nat): (r: GateOutcome)
    ensures r.Reject? ==> r.status == Unauthorized
    ensures !HasBearerPrefix(header) ==> r == Reject(Unauthorized, MissingToken)
    ensures HasBearerPrefix(header) ==>
      (r == Reject(Unauthorized, InvalidToken) <==> Jwt.Verify(Jwt.AccessSecret, BearerToken(header), now).None?)
    ensures r.Next? <==>
      && HasBearerPrefix(header)
      && Jwt.Verify(Jwt.AccessSecret, BearerToken(header), now).Some?
      && Jwt.Verify(Jwt.AccessSecret, BearerToken(header), now).value.userId in users
    ensures r.Next? ==>
      && r.userId == Jwt.Verify(Jwt.AccessSecret, BearerToken(header), now).value.userId
      && r.user == users[r.userId]
    ensures r == Reject(Unauthorized, UnknownUser) <==>
      && HasBearerPrefix(header)
      && Jwt.Verify(Jwt.AccessSecret, BearerToken(header), now).Some?
      && Jwt.Verify(Jwt.AccessSecret, BearerToken(header), now).value.userId !in users
  {
    if !HasBearerPrefix(header) then Reject(Unauthorized, MissingToken)
    else
      match Jwt.Verify(Jwt.AccessSecret, BearerToken(header), now)
      case None => Reject(Unauthorized, InvalidToken)
      case Some(claims) =>
        if claims.userId in users then Next(claims.userId, users[claims.userId])
        else Reject(Unauthorized, UnknownUser)
  }

  /** An access token from login, sent as a bearer token, lets its user through until the
      token's expiry second, and is refused as invalid afterwards. */
  lemma AccessTokenPassesGate(users: map<Id, User>, id: Id, issued: nat, now: nat)
    ensures var header := BearerPrefix + Jwt.Issue(Jwt.AccessSecret, id, issued, Jwt.AccessLifetime);
      Authenticate(users, header, now) ==
        if now / 1000 >= issued / 1000 + Jwt.AccessLifetime then Reject(Unauthorized, InvalidToken)
        else if id in users then Next(id, users[id])
        else Reject(Unauthorized, UnknownUser)
  {
    var c := Jwt.Claims(id, issued / 1000 + Jwt.AccessLifetime);
    var token := Jwt.Sign(Jwt.AccessSecret, c);
    Jwt.SecretsApart();
    Jwt.SignNoSpace(Jwt.AccessSecret, c);
    assert token == Jwt.Issue(Jwt.AccessSecret, id, issued, Jwt.AccessLifetime);
    BearerTokenOf(token, "");
    var header := BearerPrefix + token;
    assert header[..|BearerPrefix|] == BearerPrefix;
    assert BearerToken(header) == token;
    Jwt.VerifySign(Jwt.AccessSecret, c, now);
  }

  /** A refresh token is never accepted at the gate, whatever its user and expiry. */
  lemma RefreshTokenRejectedAtGate(users: map<Id, User>, id: Id, issued: nat, now: nat)
    ensures Authenticate(users, BearerPrefix + Jwt.Issue(Jwt.RefreshSecret, id, issued, Jwt.RefreshLifetime), now)
         == Reject(Unauthorized, InvalidToken)
  {
    var c := Jwt.Claims(id, issued / 1000 + Jwt.RefreshLifetime);
    var token := Jwt.Sign(Jwt.RefreshSecret, c);
    Jwt.SecretsApart();
    Jwt.SignNoSpace(Jwt.RefreshSecret, c);
    assert token == Jwt.Issue(Jwt.RefreshSecret, id, issued, Jwt.RefreshLifetime);
    BearerTokenOf(token, "");
    var header := BearerPrefix + token;
    assert header[..|BearerPrefix|] == BearerPrefix;
    assert HasBearerPrefix(header) && BearerToken(header) == token;
    Jwt.SecretsSeparate(c, now);
    assert Jwt.Verify(Jwt.AccessSecret, BearerToken(header), now).None?;
  }

  /** The prefix is matched exactly: the scheme in another case, or without its space, is
      refused before any token is looked at. */
  lemma PrefixIsExact(users: map<Id, User>, token: string, now: nat)
    ensures Authenticate(users, "bearer " + token, now) == Reject(Unauthorized, MissingToken)
    ensures Authenticate(users, "Bearer", now) == Reject(Unauthorized, MissingToken)
  {
    assert ("bearer " + token)[0] == 'b';
  }
}
