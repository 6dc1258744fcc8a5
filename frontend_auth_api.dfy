/** The one decision in frontend/src/api/auth.ts: confirmPasswordReset sends what the user
    typed either as an email or as a reset token, according to whether it contains '@'. */
module FrontendAuthApi {
  import Hex

  /** The JSON body posted to /auth/reset-password/confirm. */
  datatype ResetBody = EmailBody(email: string, password: string) | TokenBody(token: string, password: string)

  function ConfirmResetBody(emailOrToken: string, password: string): (body: ResetBody)
    ensures body.EmailBody? <==> '@' in emailOrToken
    ensures body.password == password
  {
    if '@' in emailOrToken then EmailBody(emailOrToken, password) else TokenBody(emailOrToken, password)
  }

  /** The value the body carries in its one identifying field. */
  function Argument(body: ResetBody): string {
    match body
    case EmailBody(e, _) => e
    case TokenBody(t, _) => t
  }

  /** The `token` and `email` fields as the server reads them, "" for the absent one. */
  function ServerFields(body: ResetBody): (string, string) {
    match body
    case EmailBody(e, _) => ("", e)
    case TokenBody(t, _) => (t, "")
  }

  /** The body forwards the typed value unchanged, and the choice of field can be read back
      from the value: building the body loses nothing. */
  lemma ConfirmResetBodyRoundTrip(emailOrToken: string, password: string)
    ensures Argument(ConfirmResetBody(emailOrToken, password)) == emailOrToken
    ensures ConfirmResetBody(Argument(ConfirmResetBody(emailOrToken, password)), password) == ConfirmResetBody(emailOrToken, password)
  {
  }

  /** Exactly one of the two fields reaches the server filled in, for any non-empty input. */
  lemma OneFieldFilled(emailOrToken: string, password: string)
    requires emailOrToken != ""
    ensures var (token, email) := ServerFields(ConfirmResetBody(emailOrToken, password));
      (token == "") != (email == "")
  {
  }

  /** A reset token as the server issues it (64 hex digits) never contains '@', so pasting
      it always takes the server's token branch. */
  lemma IssuedResetTokenTakesTokenBranch(random: seq<Hex.Byte>, password: string)
    requires |random| == Hex.TokenBytes
    ensures ConfirmResetBody(Hex.HexOf(random), password) == TokenBody(Hex.HexOf(random), password)
    ensures ServerFields(ConfirmResetBody(Hex.HexOf(random), password)) == (Hex.HexOf(random), "")
  {
    Hex.TokenShape(random);
  }
}
