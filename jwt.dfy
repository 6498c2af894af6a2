/** The backend's token utility. Despite its name the token is not a JWT: it
    is the Base64 encoding (section 4 of RFC 4648) of the UTF-8 bytes of
    "email:millis". Extraction and the validity check decode it and look
    for ':'. The configured secret is never consulted; the clock reading is
    an input. */
module JwtUtil {
  import opened Wrappers
  import Text
  import Base64
  import Utf8

  /** The field that names a secret; no operation reads it. */
  const Secret: string := "skillforge-secret-key"

  /** What extractEmail answers when the token cannot be read. */
  const UnknownEmail: string := "unknown@example.com"

  /** email + ":" + System.currentTimeMillis(): the email, a ':' and the
      clock reading in decimal, so both can be read back; the text before
      the first ':' is the email's own up to its first ':'. */
  function Payload(email: string, millis: int): (p: string)
    ensures |p| > |email| + 1 && p[..|email|] == email && p[|email|] == ':' && p[|email| + 1] != ':'
    ensures Text.PrefixBefore(p, ':') == Text.PrefixBefore(email, ':')
    ensures millis >= 0 ==>
      (forall i :: |email| < i < |p| ==> Text.IsDigitAscii(p[i])) && Text.DigitsValue(p[|email| + 1..]) == millis
  {
    Text.PrefixBeforeAppend(email, ':', Text.Decimal(millis));
    Text.DecimalValue(millis);
    assert (email + ":" + Text.Decimal(millis))[|email| + 1..] == Text.Decimal(millis);
    email + ":" + Text.Decimal(millis)
  }

  /** generateToken(email) at clock reading millis. Its fallback branch
      (a "simple-token-" string) is never taken: neither the concatenation
      nor the encoding can throw. */
  function GenerateToken(email: string, millis: int): (token: string)
    ensures Base64.WellFormedEncoding(token) && |token| > 0
  {
    var bytes := Utf8.Encode(Payload(email, millis));
    Base64.EncodeWellFormed(bytes);
    Base64.Encode(bytes)
  }

  /** new String(Base64.getDecoder().decode(token)), or None where the
      decoder throws. */
  function DecodedText(token: string): (r: Option<string>)
    ensures r.Some? <==> Base64.Decode(token).Some?
    ensures r.Some? ==> (':' in r.value <==> ':' as int in Base64.Decode(token).value)
  {
    match Base64.Decode(token)
    case None => None
    case Some(bytes) => Utf8.DecodeHasColonIff(bytes); Some(Utf8.Decode(bytes))
  }

  /** decoded.split(":")[0]. Java drops trailing empty strings from the
      split, so a text made only of colons splits into an empty array and
      indexing it throws; otherwise element 0 is the text before the first
      ':'. */
  function FirstField(decoded: string): (r: Option<string>)
    ensures r.None? <==> |decoded| > 0 && forall i :: 0 <= i < |decoded| ==> decoded[i] == ':'
    ensures r.Some? ==> ':' !in r.value && |r.value| <= |decoded| && r.value == decoded[..|r.value|]
    ensures r.Some? && |r.value| < |decoded| ==> decoded[|r.value|] == ':'
  {
    if |decoded| > 0 && forall i :: 0 <= i < |decoded| ==> decoded[i] == ':' then None
    else Some(Text.PrefixBefore(decoded, ':'))
  }

  /** extractEmail(token): any exception yields the fixed unknown address. */
  function ExtractEmail(token: string): (email: string)
    ensures ':' !in email
    ensures Base64.Decode(token).None? ==> email == UnknownEmail
    ensures email != UnknownEmail ==>
      DecodedText(token).Some? && |email| <= |DecodedText(token).value| && email == DecodedText(token).value[..|email|]
    ensures DecodedText(token).Some? && ':' !in DecodedText(token).value ==> email == DecodedText(token).value
  {
    match DecodedText(token)
    case None => UnknownEmail
    case Some(decoded) =>
      assert ':' !in decoded ==> Text.PrefixBefore(decoded, ':') == decoded by {
        if ':' !in decoded {
          Text.PrefixBeforeAbsent(decoded, ':');
        }
      }
      match FirstField(decoded)
      case None => UnknownEmail
      case Some(first) => first
  }

  /** isTokenValid(token): the token is valid exactly when it decodes as
      Base64 and the decoded bytes contain 0x3A. Nothing about the secret,
      the email or the age of the token enters. */
  function IsTokenValid(token: string): (valid: bool)
    ensures valid <==> Base64.Decode(token).Some? && ':' as int in Base64.Decode(token).value
  {
    match DecodedText(token)
    case None => false
    case Some(decoded) => ':' in decoded
  }

  /** The payload of a fresh token comes back intact. */
  lemma DecodedGenerated(email: string, millis: int)
    ensures DecodedText(GenerateToken(email, millis)) == Some(Payload(email, millis))
  {
    Base64.DecodeEncode(Utf8.Encode(Payload(email, millis)));
    Utf8.DecodeEncode(Payload(email, millis));
  }

  /** What extractEmail finds in a fresh token: the email up to its first
      ':', that is, all of it unless it has a ':' of its own. */
  lemma ExtractGeneratedPrefix(email: string, millis: int)
    ensures ExtractEmail(GenerateToken(email, millis)) == Text.PrefixBefore(email, ':')
  {
    var p := Payload(email, millis);
    DecodedGenerated(email, millis);
    assert FirstField(p) == Some(Text.PrefixBefore(p, ':'));
  }

  /** Round trip: the email of a fresh token is the email it was made for,
      provided that email has no ':' of its own. */
  lemma ExtractGenerated(email: string, millis: int)
    requires ':' !in email
    ensures ExtractEmail(GenerateToken(email, millis)) == email
  {
    ExtractGeneratedPrefix(email, millis);
    Text.PrefixBeforeAbsent(email, ':');
  }

  /** Every token this utility generates is valid. */
  lemma GeneratedIsValid(email: string, millis: int)
    ensures IsTokenValid(GenerateToken(email, millis))
  {
    DecodedGenerated(email, millis);
    assert Payload(email, millis)[|email|] == ':';
  }

  /** The token "Og==" (the encoding of ":") is valid, yet extractEmail finds
      no first field in it and answers the unknown address. */
  lemma ColonOnlyToken()
    ensures IsTokenValid("Og==") && ExtractEmail("Og==") == UnknownEmail
  {
    var bytes := [':' as int];
    assert Base64.Encode(bytes) == "Og==";
    Base64.DecodeEncode(bytes);
    assert Utf8.Decode(bytes) == ":";
  }

  /** extractEmail of a token that decodes is the decoded text before its
      first ':', the whole text when it has none, unless that text is a
      non-empty run of colons. */
  lemma ExtractFromDecodable(token: string)
    requires Base64.Decode(token).Some?
    ensures var d := DecodedText(token).value;
      ExtractEmail(token) == (if |d| > 0 && forall i :: 0 <= i < |d| ==> d[i] == ':' then UnknownEmail else Text.PrefixBefore(d, ':'))
  {
  }
}
