/**
 * The relying party's handshake middleware. Each request is classified by
 * the `sso` query value and the `sso` marker cookie. With a token in the
 * query, it moves the token into the cookie and redirects to the origin.
 * With neither, it redirects to the authority's `authenticate` URL. With only
 * the cookie, it clears the cookie, asks the authority's `verify` URL and
 * goes on with the identity it returns. The HTTP call to `verify` is an
 * input: its outcome as `Ok`, `NotFound` or `OtherError`. The middleware keeps
 * the two authority URLs as mutable objects and rewrites their query on each
 * request.
 */
module Handshake {
  import opened Wrappers
  import opened Js
  import Http
  import Url

  const DefaultCookieLifetime: int := 10000
  const DefaultApiKey: string := "none"

  /** The factory's `options`; None for a property left undefined. */
  datatype Options = Options(ssoCookieLifetime: Option<int>, apiKey: Option<string>)

  /** How the call to `verify` settled: the response data, a 404, or any other failure. */
  datatype VerifyOutcome = Ok(data: JsValue) | NotFound | OtherError(error: string)

  /**
   * How `axios.get` settles on an answer of the verify endpoint: a 2xx status
   * resolves with its body; a 404 rejects with that status; any other status,
   * and an answer the server failed to give, rejects otherwise.
   */
  function AxiosOutcome(response: Http.Response): (o: VerifyOutcome)
    ensures o.NotFound? <==> (response.Send? || response.Json?) && response.status == 404
    ensures o.Ok? <==> (response.Send? || response.Json?) && 200 <= response.status < 300
    ensures o.Ok? && response.Json? ==> o.data == response.data
  {
    match response
    case Json(status, data) =>
      if 200 <= status < 300 then Ok(data) else if status == 404 then NotFound else OtherError("status")
    case Send(status, body) =>
      if 200 <= status < 300 then Ok(Str(body)) else if status == 404 then NotFound else OtherError("status")
    case Redirect(_, _) => OtherError("redirect")
    case Uncaught => OtherError("status")
  }

  /** What the middleware reads of a request. */
  datatype Request = Request(
    /** `req.hostname` (no port). */
    hostname: string,
    /** The path of `req.originalUrl`. */
    pathname: string,
    /** The decoded pairs of `req.originalUrl`'s query, in order. */
    query: Url.Query,
    /** `req.query["sso"]` when it is a string. */
    ssoQuery: Option<string>,
    /** The `sso` cookie of the `Cookie` header. */
    ssoCookie: Option<string>,
    // Whether `req.accepts` picks "application/json" over the catch-all type.
    prefersJson: bool)

  /** The three per-request states of the handshake. */
  datatype State = NoProof | TokenInQuery(ssoid: string) | MarkerCookie(marker: string)

  /**
   * A non-empty `sso` query value wins; an empty one counts as absent; then
   * the cookie decides.
   */
  function Classify(req: Request): (s: State)
    ensures s.TokenInQuery? <==> req.ssoQuery.Some? && |req.ssoQuery.value| > 0
    ensures s.TokenInQuery? ==> s.ssoid == req.ssoQuery.value
    ensures s.MarkerCookie? <==> !(req.ssoQuery.Some? && |req.ssoQuery.value| > 0) && req.ssoCookie.Some?
    ensures s.MarkerCookie? ==> s.marker == req.ssoCookie.value
  {
    if req.ssoQuery.Some? && |req.ssoQuery.value| > 0 then TokenInQuery(req.ssoQuery.value)
    else if req.ssoCookie.Some? then MarkerCookie(req.ssoCookie.value)
    else NoProof
  }

  /**
   * The origin to come back to: the request's host and path under the
   * authority URL's protocol, with every `sso` pair removed and the rest kept
   * in order.
   */
  function Origin(protocol: string, req: Request): (u: Url.Url)
    ensures u.protocol == protocol && u.host == req.hostname && u.pathname == req.pathname && u.hash == ""
    ensures u.query == Url.Delete(req.query, "sso")
  {
    Url.Url(protocol, req.hostname, req.pathname, Url.Delete(req.query, "sso"), "")
  }

  /** The authority URL with `origin` set: one `origin` pair, its other pairs as they were. */
  function WithOrigin(authenticateUrl: Url.Url, origin: string): (u: Url.Url)
    ensures u == authenticateUrl.(query := u.query)
    ensures Url.CountName(u.query, "origin") == 1 && Url.Get(u.query, "origin") == Some(origin)
    ensures Url.Delete(u.query, "origin") == Url.Delete(authenticateUrl.query, "origin")
  {
    Url.SetOne(authenticateUrl.query, "origin", origin);
    Url.SetKeepsOthers(authenticateUrl.query, "origin", origin);
    authenticateUrl.(query := Url.Set(authenticateUrl.query, "origin", origin))
  }

  /**
   * The verify URL with `sso` and then `api_key` set: one pair of each name,
   * holding the values, and its other pairs as they were.
   */
  function WithCredentials(verifyUrl: Url.Url, ssoid: string, apiKey: string): (u: Url.Url)
    ensures u == verifyUrl.(query := u.query)
    ensures Url.Get(u.query, "sso") == Some(ssoid)
    ensures Url.Get(u.query, "api_key") == Some(apiKey)
    ensures Url.CountName(u.query, "sso") == 1 && Url.CountName(u.query, "api_key") == 1
    ensures Url.Delete(Url.Delete(u.query, "sso"), "api_key") == Url.Delete(Url.Delete(verifyUrl.query, "sso"), "api_key")
  {
    var q := Url.Set(verifyUrl.query, "sso", ssoid);
    Url.SetOne(verifyUrl.query, "sso", ssoid);
    Url.SetOne(q, "api_key", apiKey);
    Url.SetGetOther(q, "api_key", apiKey, "sso");
    Url.SetCountOther(q, "api_key", apiKey, "sso");
    Url.SetKeepsOthers(verifyUrl.query, "sso", ssoid);
    Url.SetKeepsOthers(q, "api_key", apiKey);
    Url.DeleteCommutes(Url.Set(q, "api_key", apiKey), "sso", "api_key");
    Url.DeleteCommutes(q, "sso", "api_key");
    verifyUrl.(query := Url.Set(q, "api_key", apiKey))
  }

  /**
   * `res.axiosRedirect(path)`: for a client that prefers JSON, a JSON body
   * `{ "__redirect": path }`, otherwise a 307 redirect.
   */
  function RenderRedirect(prefersJson: bool, path: string): (r: Http.Response)
    ensures prefersJson ==> r == Http.Json(200, Obj(map["__redirect" := Str(path)]))
    ensures !prefersJson ==> r == Http.Redirect(307, path)
  {
    if prefersJson then Http.Json(200, Obj(map["__redirect" := Str(path)])) else Http.Redirect(307, path)
  }

  /** How the middleware finishes: an answer of its own, `next()` with `req.user`, or the error handler with `req.error`. */
  datatype Continuation = Respond(response: Http.Response) | Next(user: JsValue) | HandleError(error: string)

  /** The cookies written, the verify request sent (its URL), and how the request goes on. */
  datatype Outcome = Outcome(cookies: seq<Http.Cookie>, verifyRequest: Option<string>, next: Continuation)

  class Middleware {
    /** `ssoCookieLifetime`, default 10000. */
    const cookieLifetime: int
    /** `apiKey`, default "none". */
    const apiKey: string
    /** Cookies are secure exactly when the authority is reached over https. */
    const secure: bool
    /** `authenticateUrl`, whose `origin` parameter each redirect rewrites. */
    var authenticateUrl: Url.Url
    /** `verifyUrl`, whose `sso` and `api_key` parameters each verification rewrites. */
    var verifyUrl: Url.Url

    constructor (options: Options, authenticate: Url.Url, verify: Url.Url)
      ensures cookieLifetime == (if options.ssoCookieLifetime.Some? then options.ssoCookieLifetime.value else 10000)
      ensures apiKey == (if options.apiKey.Some? then options.apiKey.value else "none")
      ensures secure <==> authenticate.protocol == "https:"
      ensures authenticateUrl == authenticate && verifyUrl == verify
    {
      cookieLifetime := options.ssoCookieLifetime.GetOr(DefaultCookieLifetime);
      apiKey := options.apiKey.GetOr(DefaultApiKey);
      secure := authenticate.protocol == "https:";
      authenticateUrl := authenticate;
      verifyUrl := verify;
    }

    /** The middleware `authenticate(req, res, next)`, given how its call to `verify` settles. */
    method Authenticate(req: Request, verify: VerifyOutcome) returns (out: Outcome)
      modifies this
      ensures authenticateUrl.protocol == old(authenticateUrl.protocol)
      ensures Classify(req).TokenInQuery? ==>
        && out == Outcome([Http.Cookie("sso", Classify(req).ssoid, cookieLifetime, true, secure)], None,
                          Respond(RenderRedirect(req.prefersJson, Url.Href(Origin(old(authenticateUrl.protocol), req)))))
        && authenticateUrl == old(authenticateUrl) && verifyUrl == old(verifyUrl)
      ensures Classify(req).NoProof? ==>
        && authenticateUrl == WithOrigin(old(authenticateUrl), Url.Href(Origin(old(authenticateUrl.protocol), req)))
        && out == Outcome([], None, Respond(RenderRedirect(req.prefersJson, Url.Href(authenticateUrl))))
        && verifyUrl == old(verifyUrl)
      ensures Classify(req).MarkerCookie? ==>
        && out.cookies == [Http.ClearCookie("sso", secure)]
        && verifyUrl == WithCredentials(old(verifyUrl), Classify(req).marker, apiKey)
        && out.verifyRequest == Some(Url.Href(verifyUrl))
      ensures Classify(req).MarkerCookie? && verify.Ok? ==>
        out.next == Next(verify.data) && authenticateUrl == old(authenticateUrl)
      ensures Classify(req).MarkerCookie? && verify.NotFound? ==>
        && authenticateUrl == WithOrigin(old(authenticateUrl), Url.Href(Origin(old(authenticateUrl.protocol), req)))
        && out.next == Respond(RenderRedirect(req.prefersJson, Url.Href(authenticateUrl)))
      ensures Classify(req).MarkerCookie? && verify.OtherError? ==>
        out.next == HandleError(verify.error) && authenticateUrl == old(authenticateUrl)
    {
      var origin := Url.Href(Origin(authenticateUrl.protocol, req));

      if req.ssoQuery.Some? && |req.ssoQuery.value| > 0 {
        var ssoid := req.ssoQuery.value;
        var cookie := Http.Cookie("sso", ssoid, cookieLifetime, true, secure);
        return Outcome([cookie], None, Respond(RenderRedirect(req.prefersJson, origin)));
      }

      if req.ssoCookie.None? {
        authenticateUrl := authenticateUrl.(query := Url.Set(authenticateUrl.query, "origin", origin));
        return Outcome([], None, Respond(RenderRedirect(req.prefersJson, Url.Href(authenticateUrl))));
      }
      var ssoid := req.ssoCookie.value;

      var cookies := [Http.ClearCookie("sso", secure)];

      verifyUrl := verifyUrl.(query := Url.Set(verifyUrl.query, "sso", ssoid));
      verifyUrl := verifyUrl.(query := Url.Set(verifyUrl.query, "api_key", apiKey));
      var request := Some(Url.Href(verifyUrl));

      match verify {
        case Ok(data) =>
          out := Outcome(cookies, request, Next(data));
        case NotFound =>
          authenticateUrl := authenticateUrl.(query := Url.Set(authenticateUrl.query, "origin", origin));
          out := Outcome(cookies, request, Respond(RenderRedirect(req.prefersJson, Url.Href(authenticateUrl))));
        case OtherError(e) =>
          out := Outcome(cookies, request, HandleError(e));
      }
    }
  }

  /** The error handler used when none is configured: it answers 500. */
  function DefaultErrorResponse(error: string): (r: Http.Response)
    ensures r.Send? && r.status == 500
  {
    Http.Send(500, "Internal Server Error")
  }
}
