/**
 * The first two steps of `BasicAuth` (0x01): take the credentials out of an
 * `Authorization: Basic ...` header and decode them. The Session exercise
 * (0x02) carries a verbatim copy of both methods, modelled by these same
 * functions.
 */
module BasicAuthV1 {
  import opened Common
  import Base64
  import Utf8

  const BasicPrefix: string := "Basic "

  /** `extract_base64_authorization_header`: the text after the exact, case-sensitive "Basic ". */
  function ExtractBase64AuthorizationHeader(authorizationHeader: PyValue): (r: Option<string>)
    ensures r.Some? <==> authorizationHeader.PyStr? && StartsWith(authorizationHeader.str, BasicPrefix)
    ensures r.Some? ==> authorizationHeader.str == BasicPrefix + r.value
  {
    match authorizationHeader
    case PyStr(h) =>
      if StartsWith(h, BasicPrefix) then
        assert h == h[..|BasicPrefix|] + h[|BasicPrefix|..];
        Some(h[|BasicPrefix|..])
      else None
    case _ => None
  }

  /** Extraction undoes prefixing, for every suffix including the empty one. */
  lemma ExtractPrefixed(s: string)
    ensures ExtractBase64AuthorizationHeader(PyStr(BasicPrefix + s)) == Some(s)
  {
    StartsWithConcat(BasicPrefix, s);
  }

  /** The scheme name is matched case-sensitively. */
  lemma LowerCaseSchemeRejected(s: string)
    ensures ExtractBase64AuthorizationHeader(PyStr("basic " + s)).None?
  {
    assert ("basic " + s)[0] != BasicPrefix[0];
  }

  /**
   * `decode_base64_authorization_header`: strict Base64, then strict UTF-8;
   * every failure (a raised exception in the source) gives None.
   */
  function DecodeBase64AuthorizationHeader(base64AuthorizationHeader: PyValue): (r: Option<string>)
    ensures r.Some? ==> base64AuthorizationHeader.PyStr?
    ensures r.Some? ==> Base64.Decode(base64AuthorizationHeader.str) == Some(Utf8.Encode(r.value))
  {
    match base64AuthorizationHeader
    case PyStr(s) =>
      (match Base64.Decode(s)
       case None => None
       case Some(bytes) =>
         match Utf8.Decode(bytes)
         case None => None
         case Some(text) => Utf8.EncodeDecode(bytes); Some(text))
    case _ => None
  }

  /** The decode step yields s exactly when the header's bytes are the UTF-8 encoding of s. */
  lemma DecodeCharacterised(header: string, s: string)
    ensures DecodeBase64AuthorizationHeader(PyStr(header)) == Some(s)
        <==> Base64.Decode(header) == Some(Utf8.Encode(s))
  {
    if Base64.Decode(header) == Some(Utf8.Encode(s)) {
      Utf8.DecodeEncode(s);
    }
  }

  /** Decoding the canonical Base64 encoding of a string's UTF-8 bytes gives the string. */
  lemma DecodeRoundTrip(s: string)
    ensures DecodeBase64AuthorizationHeader(PyStr(Base64.Encode(Utf8.Encode(s)))) == Some(s)
  {
    Base64.DecodeEncode(Utf8.Encode(s));
    DecodeCharacterised(Base64.Encode(Utf8.Encode(s)), s);
  }

  /** A character outside the Base64 alphabet other than '=' gives None rather than an error. */
  lemma ForeignCharDecodesToNone(header: string, i: nat)
    requires i < |header| && !Base64.IsAlphabetChar(header[i]) && header[i] != '='
    ensures DecodeBase64AuthorizationHeader(PyStr(header)).None?
  {
    Base64.ForeignCharRejected(header, i);
  }

  /** A length that is not a multiple of 4 (missing padding) gives None. */
  lemma ShortPaddingDecodesToNone(header: string)
    requires |header| % 4 != 0
    ensures DecodeBase64AuthorizationHeader(PyStr(header)).None?
  {
  }
}
