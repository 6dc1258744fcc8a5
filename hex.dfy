/** The opaque verify and reset token values: `crypto.randomBytes(32).toString('hex')`.
    The random bytes are an input (a fresh-value oracle); the encoding is Node's lower-case
    hexadecimal, two digits per byte, high nibble first. */
module Hex {

  type Byte = b: int | 0 <= b < 256

  /** Number of random bytes drawn per token (auth.service.ts, lines 18 and 84). */
  const TokenBytes := 32

  predicate IsHexDigit(c: char) {
    '0' <= c <= '9' || 'a' <= c <= 'f'
  }

  predicate IsHex(s: string) {
    forall i :: 0 <= i < |s| ==> IsHexDigit(s[i])
  }

  /** The lower-case digit for a nibble. */
  function HexDigit(v: nat): (c: char)
    requires v < 16
    ensures IsHexDigit(c)
  {
    if v < 10 then ('0' as int + v) as char else ('a' as int + v - 10) as char
  }

  /** Lower-case hexadecimal encoding of a byte string. */
  function HexOf(bytes: seq<Byte>): (s: string)
    ensures |s| == 2 * |bytes|
    ensures IsHex(s)
  {
    if bytes == [] then []
    else [HexDigit(bytes[0] / 16), HexDigit(bytes[0] % 16)] + HexOf(bytes[1..])
  }

  /** Value of one hexadecimal digit: the inverse of HexDigit. */
  function DigitValue(c: char): (v: nat)
    requires IsHexDigit(c)
    ensures v < 16 && HexDigit(v) == c
  {
    if '0' <= c <= '9' then c as int - '0' as int else c as int - 'a' as int + 10
  }

  /** Decoding, the inverse of HexOf on strings of even length made of hex digits. */
  function Unhex(s: string): (bytes: seq<Byte>)
    requires IsHex(s) && |s| % 2 == 0
    ensures 2 * |bytes| == |s|
  {
    if s == [] then []
    else [DigitValue(s[0]) * 16 + DigitValue(s[1])] + Unhex(s[2..])
  }

  /** Decoding an encoding gives the bytes back: the encoding loses nothing. */
  lemma {:induction false} UnhexHexOf(bytes: seq<Byte>)
    ensures Unhex(HexOf(bytes)) == bytes
  {
    if bytes != [] {
      var s := HexOf(bytes);
      var b := bytes[0];
      var hi, lo := b / 16, b % 16;
      assert s[0] == HexDigit(hi) && s[1] == HexDigit(lo);
      assert s[2..] == HexOf(bytes[1..]);
      assert DigitValue(HexDigit(hi)) == hi;
      assert DigitValue(HexDigit(lo)) == lo;
      assert hi * 16 + lo == b;
      UnhexHexOf(bytes[1..]);
    }
  }

  /** A token is exactly 64 characters, all lower-case hex digits, and in particular never
      contains '@' (which is what the client tests to tell an email from a token), '.' or
      a space. */
  lemma TokenShape(bytes: seq<Byte>)
    requires |bytes| == TokenBytes
    ensures |HexOf(bytes)| == 64
    ensures IsHex(HexOf(bytes))
    ensures '@' !in HexOf(bytes) && '.' !in HexOf(bytes) && ' ' !in HexOf(bytes)
  {
    var s := HexOf(bytes);
    forall i | 0 <= i < |s| ensures s[i] != '@' && s[i] != '.' && s[i] != ' ' {
      assert IsHexDigit(s[i]);
    }
  }
}
