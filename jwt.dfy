/** Verification of a session token in the JWS compact serialisation
    (section 7.1 of RFC 7515) carrying RFC 7519 claims, and the selection of
    the current user's id from it (lib/jwt.ts:49-139).

    The primitives the source borrows from its platform are parameters:
    `TextDecoder.decode`, `JSON.parse` and the HMAC-SHA256 check of
    `crypto.subtle.verify` under the key imported from the secret. The
    clock is the parameter `nowMs` (the value of `Date.now()`), and the
    secret is the value the environment holds for it (empty when unset). */
module Jwt {
  import opened Optional
  import opened JsValue
  import JsString
  import Base64Url

  type byte = Base64Url.byte

  /** The platform operations the verifier calls but does not define. */
  datatype Primitives = Primitives(
    /** `new TextDecoder().decode(bytes)`: UTF-8 with replacement, never throws. */
    decodeUtf8: seq<byte> -> string,
    /** `JSON.parse(text)`; `None` where it throws a SyntaxError. */
    parseJson: string -> Option<Json>,
    /** HMAC-SHA256 of `message` under the key made from `secret` equals `signature`. */
    hmacVerify: (string, string, seq<byte>) -> bool)

  const SupportedAlg: string := "HS256"

  /** `Math.floor(Date.now() / 1000)`; Dafny's division by a positive number
      already rounds towards minus infinity. */
  function NowSeconds(nowMs: int): (s: int)
    ensures s * 1000 <= nowMs < s * 1000 + 1000
  {
    nowMs / 1000
  }

  /** A claim that `typeof` reports as a number. */
  function NumericClaim(payload: Json, name: string): (r: Option<real>)
    requires !payload.JNull?
    ensures r.Some? <==> Get(payload, name).Some? && Get(payload, name).value.JNumber?
  {
    match Get(payload, name)
    case Some(JNumber(n)) => Some(n)
    case _ => None
  }

  /** The validity window of sections 4.1.4 and 4.1.5 of RFC 7519 as this
      verifier applies it: from `nbf` to `exp`, both ends included, and a bound
      that is absent or not a number does not restrict. */
  ghost predicate WithinWindow(payload: Json, now: int)
    requires !payload.JNull?
  {
    && (NumericClaim(payload, "nbf").Some? ==> NumericClaim(payload, "nbf").value <= now as real)
    && (NumericClaim(payload, "exp").Some? ==> now as real <= NumericClaim(payload, "exp").value)
  }

  /** `isTokenExpired(payload)`; `None` where it throws because the payload
      is JSON `null`. */
  function IsTokenExpired(payload: Json, nowMs: int): (r: Option<bool>)
    ensures r.None? <==> payload.JNull?
    ensures r.Some? ==> (r.value <==> !WithinWindow(payload, NowSeconds(nowMs)))
  {
    if payload.JNull? then None
    else
      var nowInSeconds := NowSeconds(nowMs);
      var nbf := Get(payload, "nbf");
      var exp := Get(payload, "exp");
      if nbf.Some? && nbf.value.JNumber? && nbf.value.n > nowInSeconds as real then Some(true)
      else if exp.Some? && exp.value.JNumber? && exp.value.n < nowInSeconds as real then Some(true)
      else Some(false)
  }

  /** `JSON.parse(base64UrlToString(segment))`; `None` where either throws. */
  function DecodeJson(prims: Primitives, segment: string): (r: Option<Json>)
    ensures Base64Url.Base64UrlDecode(segment).None? ==> r.None?
    ensures Base64Url.Base64UrlDecode(segment).Some? ==>
      r == prims.parseJson(prims.decodeUtf8(Base64Url.Base64UrlDecode(segment).value))
  {
    match Base64Url.Base64UrlDecode(segment)
    case None => None
    case Some(bytes) => prims.parseJson(prims.decodeUtf8(bytes))
  }

  /** A segment written by the base64url encoder decodes to what `JSON.parse`
      makes of the UTF-8 text of the encoded bytes. */
  lemma {:induction false} DecodeJsonOfEncoded(prims: Primitives, bs: seq<byte>)
    ensures DecodeJson(prims, Base64Url.Base64UrlEncode(bs)) == prims.parseJson(prims.decodeUtf8(bs))
  {
    Base64Url.RoundTrip(bs);
  }

  /** The header's `alg` member: `None` when the header does not decode, is
      JSON `null` (reading `header.alg` throws), or has no `alg`. */
  function HeaderAlg(prims: Primitives, encodedHeader: string): (r: Option<Json>)
    ensures r.Some? <==>
      && DecodeJson(prims, encodedHeader).Some?
      && DecodeJson(prims, encodedHeader).value.JObject?
      && "alg" in DecodeJson(prims, encodedHeader).value.fields
    ensures r.Some? ==> r.value == DecodeJson(prims, encodedHeader).value.fields["alg"]
  {
    match DecodeJson(prims, encodedHeader)
    case None => None
    case Some(header) => if header.JNull? then None else Get(header, "alg")
  }

  /** `verifyJwtToken(token)`: the payload of a well-formed, HS256-signed,
      currently valid token whose signature checks, otherwise `None` — every
      failure, thrown or returned, collapses to the same `null`. */
  function VerifyJwtToken(prims: Primitives, secret: string, nowMs: int, token: string): (r: Option<Json>)
    ensures r.Some? ==> JsString.Count(token, '.') == 2
    ensures r.Some? ==> r.value != JNull
    ensures r.Some? ==> WithinWindow(r.value, NowSeconds(nowMs))
  {
    var segments := JsString.Split(token, '.');
    if |segments| != 3 then None
    else VerifySegments(prims, secret, nowMs, segments[0], segments[1], segments[2])
  }

  /** The body of the `try` block of `verifyJwtToken`, given the three segments. */
  function VerifySegments(prims: Primitives, secret: string, nowMs: int,
                          encodedHeader: string, encodedPayload: string, encodedSignature: string): (r: Option<Json>)
    ensures r.Some? ==> r.value != JNull
    ensures r.Some? ==> WithinWindow(r.value, NowSeconds(nowMs))
  {
    match DecodeJson(prims, encodedHeader)
    case None => None
    case Some(header) =>
      if header.JNull? then None
      else if Get(header, "alg") != Some(JString(SupportedAlg)) then None
      else
        match DecodeJson(prims, encodedPayload)
        case None => None
        case Some(payload) =>
          match IsTokenExpired(payload, nowMs)
          case None => None
          case Some(expired) =>
            if expired then None
            else
              var signingInput := encodedHeader + "." + encodedPayload;
              match Base64Url.Base64UrlDecode(encodedSignature)
              case None => None
              case Some(signature) =>
                // getSecretKey throws when the secret is unset or empty
                if secret == "" then None
                else if !prims.hmacVerify(secret, signingInput, signature) then None
                else Some(payload)
  }

  /** What an accepted token is, stated without the order of the checks: three
      dot-free segments, a header whose `alg` is exactly "HS256", a payload
      (not `null`) inside its validity window, and a signature segment that
      decodes and checks under the secret over the header and payload
      segments exactly as they appear in the token. */
  ghost predicate Accepts(prims: Primitives, secret: string, nowMs: int, token: string, payload: Json) {
    exists h: string, p: string, s: string ::
      && token == h + "." + p + "." + s
      && '.' !in h && '.' !in p && '.' !in s
      && SignedParts(prims, secret, nowMs, h, p, s, payload)
  }

  ghost predicate SignedParts(prims: Primitives, secret: string, nowMs: int, h: string, p: string, s: string, payload: Json) {
    && HeaderAlg(prims, h) == Some(JString(SupportedAlg))
    && DecodeJson(prims, p) == Some(payload)
    && payload != JNull
    && WithinWindow(payload, NowSeconds(nowMs))
    && secret != ""
    && Base64Url.Base64UrlDecode(s).Some?
    && prims.hmacVerify(secret, h + "." + p, Base64Url.Base64UrlDecode(s).value)
  }

  /** The segments of a three-segment token are the pieces between its dots. */
  lemma {:induction false} ThreeSegments(h: string, p: string, s: string)
    requires '.' !in h && '.' !in p && '.' !in s
    ensures JsString.Split(h + "." + p + "." + s, '.') == [h, p, s]
  {
    JsString.SplitNoSep(s, '.');
    JsString.SplitPrefix(p, '.', s);
    assert h + "." + p + "." + s == h + ['.'] + (p + ['.'] + s);
    JsString.SplitPrefix(h, '.', p + ['.'] + s);
  }

  lemma {:induction false} JoinThree(parts: seq<string>)
    requires |parts| == 3
    ensures JsString.Join(parts, '.') == parts[0] + "." + parts[1] + "." + parts[2]
  {
    assert parts[1..][1..] == [parts[2]];
    assert JsString.Join(parts[1..], '.') == parts[1] + "." + parts[2];
  }

  /** Given the three segments, the checks pass exactly when the parts are
      signed and valid, and then the payload is returned unchanged. */
  lemma {:induction false} VerifySegmentsSpec(prims: Primitives, secret: string, nowMs: int, h: string, p: string, s: string, payload: Json)
    ensures VerifySegments(prims, secret, nowMs, h, p, s) == Some(payload)
        <==> SignedParts(prims, secret, nowMs, h, p, s, payload)
  {
  }

  /** The verifier returns a payload exactly when the token is accepted, and
      the payload it returns is the one the token carries, unchanged. */
  lemma {:induction false} VerifyCharacterization(prims: Primitives, secret: string, nowMs: int, token: string, payload: Json)
    ensures VerifyJwtToken(prims, secret, nowMs, token) == Some(payload)
        <==> Accepts(prims, secret, nowMs, token, payload)
  {
    if VerifyJwtToken(prims, secret, nowMs, token) == Some(payload) {
      VerifiedIsAccepted(prims, secret, nowMs, token, payload);
    }
    if Accepts(prims, secret, nowMs, token, payload) {
      var h: string, p: string, s: string :|
        && token == h + "." + p + "." + s
        && '.' !in h && '.' !in p && '.' !in s
        && SignedParts(prims, secret, nowMs, h, p, s, payload);
      ThreeSegments(h, p, s);
      VerifySegmentsSpec(prims, secret, nowMs, h, p, s, payload);
    }
  }

  lemma {:induction false} VerifiedIsAccepted(prims: Primitives, secret: string, nowMs: int, token: string, payload: Json)
    requires VerifyJwtToken(prims, secret, nowMs, token) == Some(payload)
    ensures Accepts(prims, secret, nowMs, token, payload)
  {
    var segments := JsString.Split(token, '.');
    assert |segments| == 3;
    var h, p, s := segments[0], segments[1], segments[2];
    assert VerifySegments(prims, secret, nowMs, h, p, s) == Some(payload);
    VerifySegmentsSpec(prims, secret, nowMs, h, p, s, payload);
    JsString.JoinSplit(token, '.');
    JoinThree(segments);
    assert token == h + "." + p + "." + s;
    assert '.' !in h && '.' !in p && '.' !in s;
  }

  /** A token whose `.`-split does not give exactly three segments is rejected. */
  lemma {:induction false} WrongSegmentCountRejected(prims: Primitives, secret: string, nowMs: int, token: string)
    requires JsString.Count(token, '.') != 2
    ensures VerifyJwtToken(prims, secret, nowMs, token).None?
  {
  }

  /** No header `alg` other than exactly "HS256" is ever accepted. */
  lemma {:induction false} AlgorithmPinned(prims: Primitives, secret: string, nowMs: int, h: string, p: string, s: string)
    requires '.' !in h && '.' !in p && '.' !in s
    requires HeaderAlg(prims, h) != Some(JString("HS256"))
    ensures VerifyJwtToken(prims, secret, nowMs, h + "." + p + "." + s).None?
  {
    ThreeSegments(h, p, s);
  }

  /** The time check comes before the signature check: a payload outside its
      window is rejected whatever the HMAC primitive would have answered. */
  lemma {:induction false} TimeCheckPrecedesSignature(prims: Primitives, hmac: (string, string, seq<byte>) -> bool,
                                   secret: string, nowMs: int, h: string, p: string, s: string, payload: Json)
    requires '.' !in h && '.' !in p && '.' !in s
    requires DecodeJson(prims, p) == Some(payload) && payload != JNull
    requires !WithinWindow(payload, NowSeconds(nowMs))
    ensures VerifyJwtToken(prims.(hmacVerify := hmac), secret, nowMs, h + "." + p + "." + s).None?
  {
    ThreeSegments(h, p, s);
  }

  /** The MAC is checked over the token's own text before its last dot (the
      header and payload segments as sent, not re-encoded claims). */
  lemma {:induction false} SignatureCoversEncodedText(prims: Primitives, secret: string, nowMs: int, token: string)
    requires VerifyJwtToken(prims, secret, nowMs, token).Some?
    ensures var segments := JsString.Split(token, '.');
      && |segments| == 3
      && var signingInput := segments[0] + "." + segments[1];
      && token == signingInput + "." + segments[2]
      && Base64Url.Base64UrlDecode(segments[2]).Some?
      && prims.hmacVerify(secret, signingInput, Base64Url.Base64UrlDecode(segments[2]).value)
  {
    var segments := JsString.Split(token, '.');
    var payload := VerifyJwtToken(prims, secret, nowMs, token).value;
    VerifySegmentsSpec(prims, secret, nowMs, segments[0], segments[1], segments[2], payload);
    JsString.JoinSplit(token, '.');
    JoinThree(segments);
  }

  /** A token expiring in the current second is still accepted (`exp == now`
      passes, one second more lenient than section 4.1.4 of RFC 7519), and so
      is one that becomes valid in the current second, whatever else the
      payload holds, provided its other bound admits the current second. */
  lemma {:induction false} BoundaryInstantsPass(payload: Json, nowMs: int)
    requires !payload.JNull?
    ensures var now := NowSeconds(nowMs) as real;
      NumericClaim(payload, "exp") == Some(now)
      && (NumericClaim(payload, "nbf").None? || NumericClaim(payload, "nbf").value <= now)
      ==> IsTokenExpired(payload, nowMs) == Some(false)
    ensures var now := NowSeconds(nowMs) as real;
      NumericClaim(payload, "nbf") == Some(now)
      && (NumericClaim(payload, "exp").None? || now <= NumericClaim(payload, "exp").value)
      ==> IsTokenExpired(payload, nowMs) == Some(false)
  {
  }

  /** Claims that are absent or not numbers never make a token expire. */
  lemma {:induction false} NonNumericBoundsIgnored(payload: Json, nowMs: int)
    requires !payload.JNull?
    requires NumericClaim(payload, "exp").None? && NumericClaim(payload, "nbf").None?
    ensures IsTokenExpired(payload, nowMs) == Some(false)
  {
  }

  /** The instants at which a payload is in its window form an interval:
      valid at two instants means valid at every instant between them. */
  lemma {:induction false} WindowIsInterval(payload: Json, t1: int, t2: int, t3: int)
    requires !payload.JNull? && t1 <= t2 <= t3
    requires WithinWindow(payload, t1) && WithinWindow(payload, t3)
    ensures WithinWindow(payload, t2)
  {
  }

  // ---------------------------------------------------------------------
  // The current user (lib/jwt.ts:106-139)

  /** `getCurrentUserPayload()` given the token cookie's value. */
  function GetCurrentUserPayload(prims: Primitives, secret: string, nowMs: int, tokenCookie: Option<string>): (r: Option<Json>)
    ensures tokenCookie.None? || tokenCookie.value == "" ==> r.None?
    ensures tokenCookie.Some? && tokenCookie.value != "" ==> r == VerifyJwtToken(prims, secret, nowMs, tokenCookie.value)
  {
    if tokenCookie.None? || tokenCookie.value == "" then None
    else VerifyJwtToken(prims, secret, nowMs, tokenCookie.value)
  }

  /** What `payload?.userId` and `payload?.sub` can read: a JSON value, or
      the `sub` method every string inherits (`String.prototype.sub`, from
      Annex B of ECMAScript), which a payload that is a JSON string exposes. */
  datatype Claim = JsonClaim(json: Json) | StringSubMethod

  /** `payload?.[key]` for the id claims: `undefined` on a missing, `null`
      or `undefined` payload; a string has no own claims, only the inherited
      `sub`; any other value has the claims of its own JSON members. */
  function ReadClaim(payload: Option<Json>, key: string): Option<Claim> {
    if payload.None? || payload.value.JNull? then None
    else if payload.value.JString? then (if key == "sub" then Some(StringSubMethod) else None)
    else
      match Get(payload.value, key)
      case None => None
      case Some(v) => Some(JsonClaim(v))
  }

  /** `x ?? y` replaces `x` when it is `null` or `undefined`. */
  predicate ClaimNullish(c: Option<Claim>) {
    c.None? || c.value == JsonClaim(JNull)
  }

  /** `payload?.userId ?? payload?.sub ?? null` */
  function SelectId(payload: Option<Json>): (r: Option<Claim>)
    ensures r.Some? ==> r.value != JsonClaim(JNull)
    ensures payload.None? ==> r.None?
  {
    var userId := ReadClaim(payload, "userId");
    var sub := ReadClaim(payload, "sub");
    var chosen := if !ClaimNullish(userId) then userId else sub;
    if ClaimNullish(chosen) then None else chosen
  }

  /** `getCurrentUserId()` given the token cookie's value. */
  function GetCurrentUserId(prims: Primitives, secret: string, nowMs: int, tokenCookie: Option<string>): (r: Option<Claim>)
    ensures r.Some? ==> r.value != JsonClaim(JNull)
    ensures r.Some? ==> tokenCookie.Some? && tokenCookie.value != ""
                        && VerifyJwtToken(prims, secret, nowMs, tokenCookie.value).Some?
  {
    if tokenCookie.None? || tokenCookie.value == "" then None
    else SelectId(VerifyJwtToken(prims, secret, nowMs, tokenCookie.value))
  }

  /** The id chosen from a payload that is not `null`: its `userId` when that
      is neither absent nor `null`, else its `sub` on the same condition,
      else `null`; a string yields its inherited `sub` method. */
  lemma {:induction false} SelectIdCases(payload: Json)
    requires !payload.JNull?
    ensures var r := SelectId(Some(payload));
      && (payload.JString? ==> r == Some(StringSubMethod))
      && (!payload.JString? && !Nullish(Get(payload, "userId"))
          ==> r == Some(JsonClaim(Get(payload, "userId").value)))
      && ((!payload.JString? && Nullish(Get(payload, "userId")) && !Nullish(Get(payload, "sub")))
          ==> r == Some(JsonClaim(Get(payload, "sub").value)))
      && ((!payload.JString? && Nullish(Get(payload, "userId")) && Nullish(Get(payload, "sub")))
          ==> r.None?)
  {
    if !payload.JString? {
      assert ReadClaim(Some(payload), "userId").Some? <==> Get(payload, "userId").Some?;
      assert ReadClaim(Some(payload), "sub").Some? <==> Get(payload, "sub").Some?;
    }
  }

  /** The id is the payload's `userId` when that is neither absent nor
      `null`, else its `sub` on the same condition, else `null`; a payload
      that is a string yields the inherited `sub` method; no cookie or a
      token that does not verify gives `null`. */
  lemma {:induction false} UserIdSelection(prims: Primitives, secret: string, nowMs: int, tokenCookie: Option<string>)
    ensures var payload := GetCurrentUserPayload(prims, secret, nowMs, tokenCookie);
      var r := GetCurrentUserId(prims, secret, nowMs, tokenCookie);
      && (payload.None? ==> r.None?)
      && (payload.Some? && payload.value.JString? ==> r == Some(StringSubMethod))
      && (payload.Some? && !payload.value.JString? && !Nullish(Get(payload.value, "userId"))
          ==> r == Some(JsonClaim(Get(payload.value, "userId").value)))
      && ((payload.Some? && !payload.value.JString? && Nullish(Get(payload.value, "userId"))
           && !Nullish(Get(payload.value, "sub")))
          ==> r == Some(JsonClaim(Get(payload.value, "sub").value)))
      && ((payload.Some? && !payload.value.JString? && Nullish(Get(payload.value, "userId"))
           && Nullish(Get(payload.value, "sub")))
          ==> r.None?)
  {
    var payload := GetCurrentUserPayload(prims, secret, nowMs, tokenCookie);
    assert GetCurrentUserId(prims, secret, nowMs, tokenCookie) == SelectId(payload);
    if payload.Some? {
      SelectIdCases(payload.value);
    }
  }
}
