/** The request gate of src/middleware.ts: for each request it either lets
    the request through (with the security headers added) or redirects to
    the sign-in page, carrying the requested path as `next`.

    The request is reduced to its pathname and the value of the token cookie
    (`None` when the cookie is absent); the token verifier is the model of
    `verifyJwtToken`, with its platform primitives, secret and clock. */
module RequestGate {
  import opened Optional
  import opened JsValue
  import JsString
  import Jwt

  const ApiPrefix: string := "/api"
  const SignInPath: string := "/sign-in"

  /** Pages that are never redirected to sign-in. */
  const PublicPaths: seq<string> := ["/", "/sign-in", "/sign-up", "/faceid"]

  /** What a response does: continue to the route, or redirect to `path`
      with the query parameter `next`. */
  datatype Action = Next | Redirect(path: string, next: string)

  /** A response and whether the security headers were added to it. */
  datatype Response = Response(action: Action, securityHeaders: bool)

  /** `addSecurityHeaders(response)`; which headers it sets is not modelled. */
  function AddSecurityHeaders(response: Response): (r: Response)
    ensures r.action == response.action && r.securityHeaders
  {
    response.(securityHeaders := true)
  }

  /** `paths.some((p) => pathname.startsWith(p))` */
  function SomePrefix(paths: seq<string>, pathname: string): (b: bool)
    ensures b <==> exists i :: 0 <= i < |paths| && JsString.StartsWith(pathname, paths[i])
  {
    if paths == [] then false
    else JsString.StartsWith(pathname, paths[0]) || SomePrefix(paths[1..], pathname)
  }

  /** `middleware(request)` */
  function Middleware(prims: Jwt.Primitives, secret: string, nowMs: int,
                      pathname: string, tokenCookie: Option<string>): (r: Response)
    ensures r.securityHeaders <==> r.action.Next?
    ensures r.action.Redirect? ==> r.action == Redirect(SignInPath, pathname)
    ensures JsString.StartsWith(pathname, ApiPrefix) ==> r.action.Next?
    ensures SomePrefix(PublicPaths, pathname) ==> r.action.Next?
  {
    var response := AddSecurityHeaders(Response(Next, false));
    if JsString.StartsWith(pathname, ApiPrefix) then response
    else if SomePrefix(PublicPaths, pathname) then response
    else if tokenCookie.Some? && tokenCookie.value != ""
            && var payload := Jwt.VerifyJwtToken(prims, secret, nowMs, tokenCookie.value);
               payload.Some? && Truthy(payload.value) && TruthyOpt(Get(payload.value, "userId"))
    then response
    else Response(Redirect(SignInPath, pathname), false)
  }

  /** Because "/" is a public path and the test is a prefix test, a path is
      public exactly when it starts with "/". */
  lemma {:induction false} PublicExactlyWhenRooted(pathname: string)
    ensures SomePrefix(PublicPaths, pathname) <==> JsString.StartsWith(pathname, "/")
  {
    if SomePrefix(PublicPaths, pathname) {
      var i :| 0 <= i < |PublicPaths| && JsString.StartsWith(pathname, PublicPaths[i]);
      assert PublicPaths[i][..1] == "/";
      assert pathname[..1] == PublicPaths[i][..1];
    }
    if JsString.StartsWith(pathname, "/") {
      assert JsString.StartsWith(pathname, PublicPaths[0]);
    }
  }

  /** Every pathname that begins with "/" — which every parsed URL's path
      does — is let through with no token at all, whatever the cookie holds;
      only a pathname not beginning with "/" can ever be redirected. */
  lemma {:induction false} RootedPathsAlwaysPass(prims: Jwt.Primitives, secret: string, nowMs: int,
                              pathname: string, tokenCookie: Option<string>)
    ensures JsString.StartsWith(pathname, "/") ==> Middleware(prims, secret, nowMs, pathname, tokenCookie).action.Next?
    ensures Middleware(prims, secret, nowMs, pathname, tokenCookie).action.Redirect? ==> !JsString.StartsWith(pathname, "/")
  {
    PublicExactlyWhenRooted(pathname);
  }

  /** On a path neither under "/api" nor public, the request passes exactly
      when a non-empty token cookie verifies to a truthy payload whose
      `userId` is truthy; otherwise it is redirected to sign-in with the path
      as `next`. */
  lemma {:induction false} TokenCheck(prims: Jwt.Primitives, secret: string, nowMs: int,
                    pathname: string, tokenCookie: Option<string>)
    requires !JsString.StartsWith(pathname, ApiPrefix) && !SomePrefix(PublicPaths, pathname)
    ensures var r := Middleware(prims, secret, nowMs, pathname, tokenCookie);
      r.action.Next? <==>
        && tokenCookie.Some? && tokenCookie.value != ""
        && Jwt.VerifyJwtToken(prims, secret, nowMs, tokenCookie.value).Some?
        && var payload := Jwt.VerifyJwtToken(prims, secret, nowMs, tokenCookie.value).value;
           Truthy(payload) && TruthyOpt(Get(payload, "userId"))
  {
  }

  /** A verified payload that carries `sub` but no `userId` does not open a
      protected path, although `getCurrentUserId` would accept it. */
  lemma {:induction false} SubjectAloneInsufficient(prims: Jwt.Primitives, secret: string, nowMs: int,
                                 pathname: string, token: string, subject: string)
    requires !JsString.StartsWith(pathname, ApiPrefix) && !SomePrefix(PublicPaths, pathname)
    requires Jwt.VerifyJwtToken(prims, secret, nowMs, token) == Some(JObject(map["sub" := JString(subject)]))
    ensures Middleware(prims, secret, nowMs, pathname, Some(token)).action == Redirect(SignInPath, pathname)
    ensures Jwt.GetCurrentUserId(prims, secret, nowMs, Some(token)) == Some(Jwt.JsonClaim(JString(subject)))
  {
    var payload := JObject(map["sub" := JString(subject)]);
    assert token != "" by {
      assert JsString.Count(token, '.') == 2;
    }
    assert Get(payload, "userId").None?;
    assert Get(payload, "sub") == Some(JString(subject));
    assert !TruthyOpt(Get(payload, "userId"));
    Jwt.UserIdSelection(prims, secret, nowMs, Some(token));
    assert Jwt.GetCurrentUserPayload(prims, secret, nowMs, Some(token)) == Some(payload);
  }
}
