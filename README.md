# Authentication core: token verifier, rate limiter, request gate

This project models and verifies the authentication layer of a passkey demo
web application, written in TypeScript for Next.js. It covers three parts:

- **Token verifier** (`lib/jwt.ts`). It checks a session token in the JWS
  compact serialisation (section 7.1 of RFC 7515) that carries RFC 7519 claims.
  - It splits the token on `.` and requires exactly three segments.
  - It decodes each base64url segment (section 5 of RFC 4648). First it swaps
    the url alphabet back to the standard one and restores the padding, then it
    calls `atob` and copies the result into a byte array.
  - It requires the header's `alg` to be exactly `HS256` (section 3.2 of RFC 7518).
  - It applies the `nbf`/`exp` window (sections 4.1.4 and 4.1.5 of RFC 7519).
  - It checks an HMAC over the original `header.payload` text.
  - Every failure gives `null`.
  - `getCurrentUserId` then picks `userId`, else `sub`, from the payload.
- **Fixed-window rate limiter** (`lib/rateLimiter.ts`). A map from caller key
  to a bucket `{count, expiresAt}`. A call resets a missing or lapsed bucket,
  rejects when the bucket is at its limit, or counts one more request. The
  defaults are 10 requests per 60 000 ms. The caller key comes from
  `x-forwarded-for` (its first entry), else `x-real-ip`, else `"unknown"`.
- **Request gate** (`src/middleware.ts`). Each request either passes, with
  security headers added, or is redirected to `/sign-in?next=<path>`.
  - Paths beginning with `/api` pass (a prefix test, so `/apiary` passes too).
  - Paths with a public prefix pass.
  - Any other path passes only with a token cookie that verifies to a payload
    whose `userId` is truthy.

Modules, leaf first:

- `JsString` (`js_string.dfy`): `split`, `startsWith` and `trim`.
- `Optional`, `JsValue` (`js_value.dfy`): JSON values, property access, `??` and truthiness.
- `Base64Url` (`base64url.dfy`): segment decoding and a reference encoder.
- `Jwt` (`jwt.dfy`): the verifier and the current-user helpers.
- `RateLimiter` (`rate_limiter.dfy`): the limiter, as class `Limiter` over a map, plus `getClientIdentifier`.
- `RequestGate` (`middleware.dfy`): the `middleware` decision.

Parameters stand in for what the source takes from its platform:
- `TextDecoder.decode`, `JSON.parse` and the HMAC-SHA256 check are function
  values in `Jwt.Primitives`. They are passed in and never defined.
- `Date.now()` becomes the parameter `nowMs` (or `now` in the limiter).
- The `JWT_SECRET` environment value becomes `secret`. The empty string means unset.
- Cookie and header values become `Option<string>`.

`atob` itself is modelled concretely as the WHATWG forgiving-base64 decode:
1. Remove ASCII whitespace.
2. When the length is a multiple of 4, drop one or two trailing `=`.
3. Reject a length that leaves remainder 1 modulo 4, and any character outside the standard alphabet.
4. Discard the leftover bits.

With this model, the round trip of the decoder against an unpadded base64url
encoder is a theorem.

Some behaviour of the code is easy to misread; the model follows the code:
- **Time bounds.** A bound counts only when `typeof` says it is a number. A
  string `exp` is ignored.
- **`exp == now` passes.** Times are compared in whole seconds
  (`Math.floor(Date.now() / 1000)`), and a token is accepted while
  `exp == now`.
- **Missing secret.** Reading an unset secret throws inside `getSecretKey`.
  The `try` block in `verifyJwtToken` catches this, so the result is `null`,
  not a fatal error.
- **Retry interval.** The rejection gives `Math.ceil((expiresAt - now) / 1000)`
  seconds, not a raw duration.
- **The gate checks no tokens on real paths.** `"/"` is a public path and the
  test is `startsWith`, so every pathname beginning with `/` passes. The token
  check and the redirect can only happen for a pathname that does not begin
  with `/`. A parsed URL never has such a pathname.
- **The gate does not rate-limit.** No caller of `ensureRateLimit` or
  `getClientIdentifier` is part of the modelled code; the limiter is modelled
  on its own.

## Model

| member | source | states |
|---|---|---|
| `JsString.Split` | lib/jwt.ts:61 | `token.split('.')` has one more piece than the token has dots, and no piece contains a dot |
| `JsString.JoinSplit` | lib/jwt.ts:61 | joining the pieces of a split with the separator gives back the original string |
| `JsString.SplitPrefix` | lib/jwt.ts:61-67 | a dot-free prefix followed by a dot is exactly the first segment, and the rest of the split is the split of the remainder |
| `JsString.TrimEmptyIff` | lib/rateLimiter.ts:22-26 | `trim()` gives the empty string exactly when the input is all whitespace |
| `JsString.FirstPiece` | lib/rateLimiter.ts:22 | `s.split(',')[0]` holds no comma and is either all of `s` or the text before its first comma |
| `JsString.Trim` | lib/rateLimiter.ts:22-26 | `trim()` returns the infix of `s` that neither starts nor ends with whitespace, and only whitespace surrounds it |
| `Base64Url.Normalize` | lib/jwt.ts:34 | keeps the length, turns every `-` into `+` and every `_` into `/`, leaves every other character unchanged, and leaves no `-` or `_` |
| `Base64Url.PaddingLength` | lib/jwt.ts:35 | the padding length is between 0 and 3 and brings the length to a multiple of 4 |
| `Base64Url.Padded` | lib/jwt.ts:34-36 | the string handed to `atob` is the normalised segment followed by only `=`, exactly `PaddingLength` of them, so its length is a multiple of 4 |
| `Base64Url.Atob` | lib/jwt.ts:37 | a successful `atob` returns a binary string, with every character code below 256 |
| `Base64Url.DecodeSextets` | lib/jwt.ts:37 | 4 base64 characters give 3 bytes, and a final group of 2 or 3 characters gives 1 or 2 bytes |
| `Base64Url.Base64UrlToUint8Array` | lib/jwt.ts:33-43 | fails exactly when `atob` throws; otherwise a fresh array of the binary string's length, whose byte `i` is the char code of character `i`, as `Base64UrlDecode` says |
| `Base64Url.Base64UrlDecode` | lib/jwt.ts:33-43 | the decoded bytes: none exactly when `atob` throws on the padded segment; otherwise as many bytes as `atob` returned characters, byte `i` being the code of character `i` |
| `Base64Url.CopyCharCodes` | lib/jwt.ts:38-41 | fills a fresh byte array whose contents are the low eight bits of each char code of the binary string, in order |
| `Base64Url.DecodeSextetsInverse` | lib/jwt.ts:37 | decoding the base64 values of any byte sequence gives that byte sequence |
| `Base64Url.PaddedEncoding` | lib/jwt.ts:34-36 | the normalised and padded url encoding equals the standard encoding plus the padding |
| `Base64Url.AtobReadsStandard` | lib/jwt.ts:37 | `atob` strips exactly the added padding and reads every standard character back to its value |
| `Base64Url.RoundTrip` | lib/jwt.ts:33-43 | decoding the unpadded base64url encoding of any byte sequence gives that sequence |
| `Base64Url.ImpossibleLengthRejected` | lib/jwt.ts:35-37 | a whitespace-free segment whose length leaves remainder 1 modulo 4 never decodes |
| `Jwt.NowSeconds` | lib/jwt.ts:50 | the current second is the floor of the millisecond clock divided by 1000 |
| `Jwt.IsTokenExpired` | lib/jwt.ts:49-58 | throws exactly on a `null` payload; otherwise reports expiry exactly when the payload is outside its window (a numeric `nbf` after now, or a numeric `exp` before now) |
| `Jwt.DecodeJson` | lib/jwt.ts:45-47 | `JSON.parse(base64UrlToString(segment))` fails when the segment does not decode, and otherwise is what `JSON.parse` makes of the UTF-8 text of the decoded bytes |
| `Jwt.DecodeJsonOfEncoded` | lib/jwt.ts:45-47 | a segment written by the base64url encoder yields what `JSON.parse` makes of the UTF-8 text of the encoded bytes |
| `Jwt.HeaderAlg` | lib/jwt.ts:68-70 | `header.alg` is present exactly when the header decodes to an object with an `alg` member, and is that member |
| `Jwt.VerifyJwtToken` | lib/jwt.ts:60-100 | a non-null result needs exactly two dots in the token; it is never JSON `null`, and it is inside its time window |
| `Jwt.VerifySegments` | lib/jwt.ts:66-99 | the checks after the split: the payload returned is never `null` and is inside its window |
| `Jwt.ThreeSegments` | lib/jwt.ts:61-67 | three dot-free parts joined with dots split back into exactly those parts |
| `Jwt.JoinThree` | lib/jwt.ts:67 | the three segments, joined with dots, are the token |
| `Jwt.VerifySegmentsSpec` | lib/jwt.ts:66-99 | the segment checks return a payload exactly when the header `alg` is `"HS256"`, the payload decodes, is not `null` and is inside its window, the secret is set, and the HMAC over `header + "." + payload` checks |
| `Jwt.VerifyCharacterization` | lib/jwt.ts:60-100 | the verifier returns `payload` exactly when the token is three dot-free segments that meet all the checks, and the payload is returned unchanged |
| `Jwt.VerifiedIsAccepted` | lib/jwt.ts:60-100 | an accepted token is three dot-free segments that are signed, in their window, and carry the returned payload |
| `Jwt.WrongSegmentCountRejected` | lib/jwt.ts:61-64 | a token without exactly two dots verifies to `null` |
| `Jwt.AlgorithmPinned` | lib/jwt.ts:68-72 | a header whose `alg` is not exactly `"HS256"` always gives `null` |
| `Jwt.TimeCheckPrecedesSignature` | lib/jwt.ts:77-94 | a payload outside its window gives `null`, whatever the HMAC primitive would answer |
| `Jwt.SignatureCoversEncodedText` | lib/jwt.ts:81-94 | on success, the HMAC was checked over the token's text before its last dot, against the decoded last segment |
| `Jwt.BoundaryInstantsPass` | lib/jwt.ts:51-56 | for any non-null payload, a numeric `exp` equal to the current second does not expire it, and neither does a numeric `nbf` equal to it, when the other bound admits that second |
| `Jwt.NonNumericBoundsIgnored` | lib/jwt.ts:51-57 | absent or non-numeric `exp`/`nbf` never cause expiry |
| `Jwt.WindowIsInterval` | lib/jwt.ts:49-58 | the instants at which a payload is valid form an interval |
| `Jwt.GetCurrentUserPayload` | lib/jwt.ts:126-139 | no cookie or an empty cookie gives `null`; otherwise the result is the verifier's |
| `Jwt.GetCurrentUserId` | lib/jwt.ts:106-120 | a non-null id is never JSON `null`, and needs a non-empty cookie that verifies; the id is a JSON claim or, for a string payload, the inherited `sub` method |
| `Jwt.SelectId` | lib/jwt.ts:116 | `payload?.userId ?? payload?.sub ?? null` is never JSON `null`, and is `null` when there is no payload |
| `Jwt.SelectIdCases` | lib/jwt.ts:116 | for a non-null payload the chain picks `userId` if it is neither absent nor `null`, else `sub` on the same condition, else `null`; a string payload yields its inherited `sub` method |
| `Jwt.UserIdSelection` | lib/jwt.ts:111-116 | the id is `userId` if it is neither absent nor `null`, else `sub` on the same condition, else `null`; a string payload gives its inherited `sub` method; no payload gives `null` |
| `RateLimiter.CeilSeconds` | lib/rateLimiter.ts:54 | `Math.ceil(ms / 1000)`: the least whole number of seconds that covers `ms` |
| `RateLimiter.Step` | lib/rateLimiter.ts:31-65 | only the entry for `key` changes. A missing or lapsed bucket becomes `{1, now + windowMs}`, with success and `limit - 1` remaining. A live bucket at its limit stays unchanged and fails, with 0 remaining and a retry of at least 1 second that covers the rest of the window. Otherwise the count goes up by exactly 1, and remaining is `limit - count` |
| `RateLimiter.Limiter.constructor` | lib/rateLimiter.ts:14 | the limiter starts with no buckets |
| `RateLimiter.Limiter.EnsureRateLimit` | lib/rateLimiter.ts:31-65 | updates the bucket map and returns the result exactly as `Step` says, and keeps every count at least 1 |
| `RateLimiter.FirstCallUnderDefaults` | lib/rateLimiter.ts:16-17 | with the limit and window omitted, the first call succeeds with 9 remaining and opens a window of 60 000 ms |
| `RateLimiter.CallsPattern` | lib/rateLimiter.ts:39-64 | repeated calls at one instant succeed exactly until the window's allowance is used up, then fail |
| `RateLimiter.AtMostLimitPerWindow` | lib/rateLimiter.ts:39-64 | with `limit >= 1` and a positive window, every call after the `limit`-th in one window fails |
| `RateLimiter.FourCallsWithLimitThree` | lib/rateLimiter.ts:39-64 | with limit 3 and a fresh key, four calls give success, success, success, failure |
| `RateLimiter.CountStaysWithinLimit` | lib/rateLimiter.ts:39-59 | with `limit >= 1`, a count that was within the limit stays within it |
| `RateLimiter.RetryAfterIsTight` | lib/rateLimiter.ts:51-57 | a retry `retryAfterSeconds` later finds the window over and succeeds; a retry one second earlier finds it still open |
| `RateLimiter.GetClientIdentifier` | lib/rateLimiter.ts:19-29 | a non-empty forwarded-for header gives its first comma-separated entry trimmed, or `"unknown"` when that entry is blank, never empty and never with a comma; otherwise a non-empty real-ip header gives its trimmed value; otherwise `"unknown"` |
| `RateLimiter.ForwardedFirstHop` | lib/rateLimiter.ts:20-23 | the first entry is the text before the first comma of forwarded-for (or all of it); the id is that entry trimmed when it is not blank, and `"unknown"` exactly when it is blank |
| `RateLimiter.TrimKeepsAbsent` | lib/rateLimiter.ts:22 | trimming cannot introduce a character |
| `JsValue.Truthy` | src/middleware.ts:30 | the falsy JSON values are exactly `null`, `false`, `0` and `""` |
| `RequestGate.SomePrefix` | src/middleware.ts:22 | `.some(p => pathname.startsWith(p))` holds exactly when some listed path is a prefix |
| `RequestGate.AddSecurityHeaders` | src/middleware.ts:14 | decorating a response keeps what it does and marks it with the security headers |
| `RequestGate.Middleware` | src/middleware.ts:9-39 | a response carries the security headers exactly when it passes. A redirect always goes to `/sign-in` with `next` set to the pathname. paths beginning with `/api` and public paths always pass |
| `RequestGate.PublicExactlyWhenRooted` | src/middleware.ts:7-24 | a path has a public prefix exactly when it starts with `/` |
| `RequestGate.RootedPathsAlwaysPass` | src/middleware.ts:17-38 | every path that starts with `/` passes whatever the cookie is, and only a path that does not start with `/` can be redirected |
| `RequestGate.TokenCheck` | src/middleware.ts:27-38 | on a path that neither begins with `/api` nor is public, the request passes exactly when a non-empty cookie verifies to a truthy payload with a truthy `userId` |
| `RequestGate.SubjectAloneInsufficient` | src/middleware.ts:27-38 | a verified payload with only `sub` is redirected on a protected path, although `getCurrentUserId` returns that `sub` |

## Left out

- The HMAC-SHA256 key import and check (lib/jwt.ts:12-18, 85-90). `crypto.subtle` is foreign cryptography, so it is the abstract `Primitives.hmacVerify` over secret, signing input and signature bytes. A rejected key import is part of that abstraction.
- `JSON.parse` and `TextDecoder`/`TextEncoder` (lib/jwt.ts:1-2, 46, 69, 75, 89). These are abstract partial or total functions in `Primitives`.
- The memoised `getSecretKey` promise (lib/jwt.ts:7-23). It is asynchronous, at-most-once initialisation, and concurrency is not modelled. The only effect kept is that an unset or empty secret gives `null`.
- `lib/jwtConfig.ts` reads the environment; it is a parameter here. `lib/jwtServer.ts` signs through the `jsonwebtoken` library, whose code is outside this model, so a sign-then-verify round trip cannot be stated. The base64url round trip (`Base64Url.RoundTrip`, `Jwt.DecodeJsonOfEncoded`) stands in for it.
- `cookies()`, `request.cookies`, `request.headers` and `request.nextUrl`. These are I/O. Their values are parameters.
- `Date.now()`. It is a parameter.
- Which headers `addSecurityHeaders` sets, the redirect URL's origin and percent-encoding, and the Next.js `matcher` configuration (src/middleware.ts:41-48). These belong to the framework.
- The route handlers under `src/app/api/auth/` and `src/components/LogoutButton.tsx`. These are HTTP and UI plumbing. The challenge store and relying-party resolution they call are not part of this model.
- Rate-limiter concurrency. JavaScript runs `ensureRateLimit` to completion, so calls are sequential. Bucket objects are modelled as values in a map the limiter reassigns. The source never shares a bucket object outside the map, so no aliasing is lost.
- JavaScript number semantics. JSON numbers are exact reals, without `Infinity`, `NaN` or rounding. The limiter's arithmetic is on unbounded integers, and `Math.ceil` of a double quotient is the exact ceiling.
- Characters are Unicode scalar values rather than UTF-16 code units. `atob` rejects every character outside the base64 alphabet in either reading.
- Property access reads the own members of a parsed object, plus the one inherited property the core can reach: a payload that is a JSON string exposes `String.prototype.sub` (Annex B of ECMAScript) as `payload.sub`, modelled as `Jwt.StringSubMethod`. No other prototype of a JSON value defines `alg`, `nbf`, `exp`, `userId` or `sub`; other inherited properties are not modelled.
- RateLimiter.AtMostLimitPerWindow: requires `limit >= 1` and `windowMs >= 1`. With a limit of 0 or less, the call that opens a window still succeeds. With a window of 0 or less, every call opens a new window. The bound does not hold in those cases, and the source sets no guard against them.
- RateLimiter.GetClientIdentifier: when the real-ip header is only whitespace, the id is `""` and not `"unknown"`. All such callers share one bucket.
