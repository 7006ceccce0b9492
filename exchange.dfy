/**
 * One whole sign-in, as the browser carries it between a relying party that
 * runs the handshake middleware and the authority: the first visit is sent
 * to `authenticate`, the authority registers a token for the caller and
 * sends the browser back with it, the middleware moves the token into its
 * marker cookie, and on the next visit redeems it through `verify` and goes
 * on with the caller's identity. Each hop through the browser is a URL the
 * sender serializes and the receiver parses back.
 */
module Exchange {
  import opened Wrappers
  import opened Js
  import Http
  import Url
  import UriComponent
  import TokenStore
  import Authority
  import Handshake

  /** The query a server reads from a URL whose query the sender set to `q`. */
  function Received(q: Url.Query): (r: Url.Query)
    ensures r == q
  {
    Url.ParseSerialize(q);
    Url.ParseQuery(Url.Serialize(q)).value
  }

  lemma EncodeNonEmpty(id: string)
    requires id != ""
    ensures UriComponent.Encode(id) != ""
  {
    assert |UriComponent.EncodeChar(id[0])| >= 1;
  }

  /** An origin without `%` survives the authority's second decoding and parses back. */
  lemma OriginReaches(href: string, origin: Url.Url, parse: string -> Option<Url.Url>)
    requires '%' !in href && parse(href) == Some(origin)
    ensures Authority.ParseOrigin(Str(href), parse) == Some(origin)
  {
    UriComponent.DecodePlain(href);
  }

  /**
   * Where the browser goes next on a middleware answer: the location of a
   * redirect, or the `__redirect` path of a JSON answer, which the client
   * script follows.
   */
  function Location(response: Http.Response): Option<string>
  {
    match response
    case Redirect(_, location) => Some(location)
    case Json(_, Obj(fields)) =>
      if "__redirect" in fields && fields["__redirect"].Str? then Some(fields["__redirect"].s) else None
    case _ => None
  }

  /** Either rendering of a middleware redirect sends the browser to its path. */
  lemma LocationOfRedirect(prefersJson: bool, path: string)
    ensures Location(Handshake.RenderRedirect(prefersJson, path)) == Some(path)
  {
  }

  /** The relying party's parser reads the URL `u` back from its own `href`. */
  predicate ReadsBack(parse: string -> Option<Url.Url>, u: Url.Url)
  {
    parse(Url.Href(u)) == Some(u)
  }

  /** The request the middleware sees when the browser arrives at `u`. */
  function Arrival(u: Url.Url, cookie: Option<string>, prefersJson: bool): (req: Handshake.Request)
    ensures req.hostname == u.host && req.pathname == u.pathname && req.query == u.query
    ensures req.ssoQuery == Url.Get(u.query, "sso") && req.ssoCookie == cookie
  {
    Handshake.Request(u.host, u.pathname, u.query, Url.Get(u.query, "sso"), cookie, prefersJson)
  }

  /** Arriving back at the authority's redirect target, the middleware computes the same origin. */
  lemma OriginAgain(protocol: string, first: Handshake.Request, id: TokenStore.Id, cookie: Option<string>)
    ensures
      var origin := Handshake.Origin(protocol, first);
      Handshake.Origin(protocol, Arrival(Authority.RedirectTarget(origin, id), cookie, first.prefersJson)) == origin
  {
    Url.DeleteIdempotent(first.query, "sso");
  }

  /**
   * The first two hops: the relying party sends the browser to the
   * authority, which registers a token for the caller and sends the browser
   * back, and the middleware turns the token in the query into its marker
   * cookie, the escaped token id, and sends the browser home. Each request
   * is read from the location the previous answer carries.
   */
  method HandOff(store: TokenStore.Store<JsValue>, cfg: Authority.Config, rp: Handshake.Middleware,
                 session: Option<JsValue>, first: Handshake.Request, parse: string -> Option<Url.Url>,
                 id: TokenStore.Id)
    returns (home: Handshake.Request)
    requires store.Valid() && id !in store.issued && id != ""
    requires Handshake.Classify(first).NoProof?
    requires
      var origin := Handshake.Origin(rp.authenticateUrl.protocol, first);
      && '%' !in Url.Href(origin) && ReadsBack(parse, origin)
      && ReadsBack(parse, Handshake.WithOrigin(rp.authenticateUrl, Url.Href(origin)))
      && ReadsBack(parse, Authority.RedirectTarget(origin, id))
    modifies store, rp
    ensures store.Valid()
    ensures home == Arrival(Handshake.Origin(old(rp.authenticateUrl.protocol), first),
                            Some(UriComponent.Encode(id)), first.prefersJson)
    ensures Handshake.Classify(home) == Handshake.MarkerCookie(UriComponent.Encode(id))
    ensures store.tokens == old(store.tokens)[id := Authority.IdentityFor(cfg, session)]
    ensures store.log == old(store.log)
    ensures rp.verifyUrl == old(rp.verifyUrl)
  {
    var protocol := rp.authenticateUrl.protocol;
    var origin := Handshake.Origin(protocol, first);
    var href := Url.Href(origin);

    // 1. The relying party sends the browser to the authority.
    var out1 := rp.Authenticate(first, Handshake.NotFound);
    LocationOfRedirect(first.prefersJson, Url.Href(rp.authenticateUrl));
    var atAuthority := parse(Location(out1.next.response).value).value;
    var originParam := Str(Url.Get(atAuthority.query, "origin").value);
    assert originParam == Str(href);
    OriginReaches(href, origin, parse);

    // 2. The authority registers the token and sends the browser back.
    var reply := Authority.Authenticate(store, cfg, session, originParam, parse, id);
    var target := Authority.RedirectTarget(origin, id);
    assert reply.response == Http.Redirect(302, Url.Href(target));
    var back := parse(reply.response.location).value;
    EncodeNonEmpty(id);
    var second := Arrival(back, None, first.prefersJson);
    OriginAgain(protocol, first, id, None);
    var out2 := rp.Authenticate(second, Handshake.NotFound);

    // 3. The middleware keeps the token as its cookie and sends the browser home.
    LocationOfRedirect(second.prefersJson, href);
    var landing := parse(Location(out2.next.response).value).value;
    home := Arrival(landing, Some(out2.cookies[0].value), first.prefersJson);
  }

  /** The credentials the middleware puts on the verify URL make the authority redeem the token. */
  lemma CredentialsRedeem(cfg: Authority.Config, verifyUrl: Url.Url, id: string, apiKey: string)
    requires '%' !in apiKey && apiKey in cfg.apiKeys
    ensures
      var q := Received(Handshake.WithCredentials(verifyUrl, UriComponent.Encode(id), apiKey).query);
      Authority.PlanVerify(cfg, Str(Url.Get(q, "api_key").value), Str(Url.Get(q, "sso").value)) == Authority.Redeem(id)
  {
    UriComponent.DecodeEncode(id);
    UriComponent.DecodePlain(apiKey);
  }

  /**
   * The last hop: back with the marker cookie, the middleware has the
   * authority redeem the token through the verify URL it builds and goes on
   * with its identity.
   */
  method Finish(store: TokenStore.Store<JsValue>, cfg: Authority.Config, rp: Handshake.Middleware,
                home: Handshake.Request, id: TokenStore.Id, user: JsValue)
    returns (last: Handshake.Outcome)
    requires store.Valid() && id in store.tokens && store.tokens[id] == user && !IsNullish(user)
    requires Handshake.Classify(home) == Handshake.MarkerCookie(UriComponent.Encode(id))
    requires '%' !in rp.apiKey && rp.apiKey in cfg.apiKeys
    modifies store, rp
    ensures store.Valid()
    ensures last.verifyRequest ==
      Some(Url.Href(Handshake.WithCredentials(old(rp.verifyUrl), UriComponent.Encode(id), rp.apiKey)))
    ensures last.next == Handshake.Next(user)
    ensures id !in store.tokens && store.log == old(store.log) + [id]
  {
    var marker := UriComponent.Encode(id);
    var verifyUrl := Handshake.WithCredentials(rp.verifyUrl, marker, rp.apiKey);
    var atVerify := Received(verifyUrl.query);
    var ssoParam := Str(Url.Get(atVerify, "sso").value);
    var apiKeyParam := Str(Url.Get(atVerify, "api_key").value);
    CredentialsRedeem(cfg, rp.verifyUrl, id, rp.apiKey);
    var answer := Authority.Verify(store, cfg, apiKeyParam, ssoParam);
    assert answer.response == Http.Json(200, user);
    var settled := Handshake.AxiosOutcome(answer.response);
    assert settled == Handshake.Ok(user);
    last := rp.Authenticate(home, settled);
  }

  /**
   * A first visit without proof ends, three requests later, with the
   * middleware going on with the identity the authority assigned, and the
   * token is no longer redeemable. The origin must carry no `%`, since the
   * authority decodes the already-decoded `origin` parameter once more, the
   * middleware's API key must be one the authority accepts, and the URLs
   * the browser is sent to must parse back.
   */
  method SignIn(store: TokenStore.Store<JsValue>, cfg: Authority.Config, rp: Handshake.Middleware,
                session: Option<JsValue>, first: Handshake.Request, parse: string -> Option<Url.Url>,
                id: TokenStore.Id)
    returns (last: Handshake.Outcome)
    requires store.Valid() && id !in store.issued && id != ""
    requires Handshake.Classify(first).NoProof?
    requires
      var origin := Handshake.Origin(rp.authenticateUrl.protocol, first);
      && '%' !in Url.Href(origin) && ReadsBack(parse, origin)
      && ReadsBack(parse, Handshake.WithOrigin(rp.authenticateUrl, Url.Href(origin)))
      && ReadsBack(parse, Authority.RedirectTarget(origin, id))
    requires '%' !in rp.apiKey && rp.apiKey in cfg.apiKeys
    requires !IsNullish(Authority.IdentityFor(cfg, session))
    modifies store, rp
    ensures store.Valid()
    ensures last.next == Handshake.Next(Authority.IdentityFor(cfg, session))
    ensures id !in store.tokens && store.log == old(store.log) + [id]
  {
    var home := HandOff(store, cfg, rp, session, first, parse, id);
    last := Finish(store, cfg, rp, home, id, Authority.IdentityFor(cfg, session));
  }
}
