/** A stand-in for jsonwebtoken's `sign` and `verify`, keyed by a secret.

    A signed token is the text `secret "." userId "." exp` (decimal numbers). The model uses
    only what jsonwebtoken promises: verifying with the secret that signed a token gives its
    claims back while it has not expired, and verifying with any other secret fails. The
    `exp` claim is in seconds; a token is accepted while floor(now / 1000) < exp. */
module Jwt {
  import opened Common

  /** The two default signing secrets (auth.service.ts lines 7-8, auth.middleware.ts line 5). */
  const AccessSecret := "dev_secret"
  const RefreshSecret := "dev_refresh_secret"

  /** Lifetimes given to `expiresIn`, in seconds: '15m' and '7d'. */
  const AccessLifetime := 15 * 60
  const RefreshLifetime := 7 * 24 * 60 * 60

  datatype Claims = Claims(userId: Id, exp: nat)

  predicate IsDigit(c: char) {
    '0' <= c <= '9'
  }

  /** A non-empty run of decimal digits. */
  predicate IsNumeral(s: string) {
    |s| > 0 && forall i :: 0 <= i < |s| ==> IsDigit(s[i])
  }

  function DigitChar(d: nat): (c: char)
    requires d < 10
    ensures IsDigit(c)
  {
    ('0' as int + d) as char
  }

  /** Decimal representation of a natural number, without leading zeros. */
  function Digits(n: nat): (s: string)
    ensures IsNumeral(s)
  {
    if n < 10 then [DigitChar(n)] else Digits(n / 10) + [DigitChar(n % 10)]
  }

  function DigitOf(c: char): (d: nat)
    requires IsDigit(c)
    ensures d < 10 && DigitChar(d) == c
  {
    c as int - '0' as int
  }

  /** The value of a run of decimal digits. */
  function ValueOf(s: string): nat
    requires forall i :: 0 <= i < |s| ==> IsDigit(s[i])
  {
    if s == [] then 0 else ValueOf(s[..|s| - 1]) * 10 + DigitOf(s[|s| - 1])
  }

  /** Reading back a decimal representation gives the number. */
  lemma {:induction false} ValueOfDigits(n: nat)
    ensures ValueOf(Digits(n)) == n
  {
    var s := Digits(n);
    if n >= 10 {
      assert s[..|s| - 1] == Digits(n / 10);
      ValueOfDigits(n / 10);
    }
  }

  predicate NoDot(s: string) {
    '.' !in s
  }

  predicate NoSpace(s: string) {
    ' ' !in s
  }

  function Sign(secret: string, c: Claims): (token: string)
  {
    secret + "." + Digits(c.userId) + "." + Digits(c.exp)
  }

  /** The claims of a token if it carries the signature of `secret`, whatever its expiry. */
  function Decode(secret: string, token: string): Option<Claims>
  {
    var tag := secret + ".";
    if |token| < |tag| || token[..|tag|] != tag then None
    else
      var body := token[|tag|..];
      match IndexOf(body, '.')
      case None => None
      case Some(i) =>
        if IsNumeral(body[..i]) && IsNumeral(body[i + 1..])
        then Some(Claims(ValueOf(body[..i]), ValueOf(body[i + 1..])))
        else None
  }

  /** jwt.verify: the claims of a well-signed token that has not expired at `now` (ms). */
  function Verify(secret: string, token: string, now: nat): (r: Option<Claims>)
    ensures r.Some? ==> Decode(secret, token) == r && now / 1000 < r.value.exp
    ensures r.None? ==> Decode(secret, token).None? || now / 1000 >= Decode(secret, token).value.exp
  {
    match Decode(secret, token)
    case None => None
    case Some(c) => if now / 1000 < c.exp then Some(c) else None
  }

  /** jwt.sign with `expiresIn`: the claims carry exp = floor(now / 1000) + lifetime. */
  function Issue(secret: string, userId: Id, now: nat, lifetime: nat): string
  {
    Sign(secret, Claims(userId, now / 1000 + lifetime))
  }

  /** Round trip: a token decodes, under the secret that signed it, to its claims. */
  lemma DecodeSign(secret: string, c: Claims)
    ensures Decode(secret, Sign(secret, c)) == Some(c)
  {
    var token := Sign(secret, c);
    var tag := secret + ".";
    var a, b := Digits(c.userId), Digits(c.exp);
    var body := a + "." + b;
    assert token == tag + body;
    assert token[..|tag|] == tag && token[|tag|..] == body;
    assert '.' !in a by {
      forall k | 0 <= k < |a| ensures a[k] != '.' { assert IsDigit(a[k]); }
    }
    IndexOfFirst(a, '.', b);
    assert body[..|a|] == a && body[|a| + 1..] == b;
    ValueOfDigits(c.userId);
    ValueOfDigits(c.exp);
  }

  /** A token verifies, under the secret that signed it, exactly until its expiry second. */
  lemma VerifySign(secret: string, c: Claims, now: nat)
    ensures Verify(secret, Sign(secret, c), now) == if now / 1000 < c.exp then Some(c) else None
  {
    DecodeSign(secret, c);
  }

  /** Secrets without '.' cannot stand in for one another: a token signed with one secret
      never decodes under a different one. */
  lemma {:induction false} DecodeOtherSecret(signer: string, other: string, c: Claims)
    requires NoDot(signer) && NoDot(other) && signer != other
    ensures Decode(other, Sign(signer, c)).None?
  {
    var token := Sign(signer, c);
    var tag := other + ".";
    assert token == signer + "." + (Digits(c.userId) + "." + Digits(c.exp));
    if |token| >= |tag| {
      // a position where the token and the tag differ: the '.' that ends the shorter
      // secret meets a character of the longer one, or the two secrets differ there
      var k: nat;
      if |other| < |signer| {
        k := |other|;
        assert tag[k] == '.' && token[k] == signer[k];
        assert signer[k] in signer;
      } else if |other| > |signer| {
        k := |signer|;
        assert token[k] == '.' && tag[k] == other[k];
        assert other[k] in other;
      } else {
        assert exists j :: 0 <= j < |signer| && signer[j] != other[j];
        k :| 0 <= k < |signer| && signer[k] != other[k];
        assert token[k] == signer[k] && tag[k] == other[k];
      }
      assert token[..|tag|][k] != tag[k];
    }
  }

  /** The two secrets the backend uses differ and contain no '.'. */
  lemma SecretsApart()
    ensures NoDot(AccessSecret) && NoDot(RefreshSecret) && AccessSecret != RefreshSecret
    ensures NoSpace(AccessSecret) && NoSpace(RefreshSecret)
  {
    assert AccessSecret[4] != RefreshSecret[4];
  }

  /** A refresh token is never accepted where an access token is expected, and the converse. */
  lemma SecretsSeparate(c: Claims, now: nat)
    ensures Verify(AccessSecret, Sign(RefreshSecret, c), now).None?
    ensures Verify(RefreshSecret, Sign(AccessSecret, c), now).None?
  {
    SecretsApart();
    DecodeOtherSecret(RefreshSecret, AccessSecret, c);
    DecodeOtherSecret(AccessSecret, RefreshSecret, c);
  }

  /** A signed token holds no space when its secret holds none, so it survives being put in
      an `Authorization: Bearer <token>` header and split on spaces. */
  lemma SignNoSpace(secret: string, c: Claims)
    requires NoSpace(secret)
    ensures NoSpace(Sign(secret, c))
  {
    var a, b := Digits(c.userId), Digits(c.exp);
    forall k | 0 <= k < |a| ensures a[k] != ' ' { assert IsDigit(a[k]); }
    forall k | 0 <= k < |b| ensures b[k] != ' ' { assert IsDigit(b[k]); }
    assert Sign(secret, c) == secret + "." + a + "." + b;
  }
}
