/**
 * The authority's two endpoints (`/authenticate` and `/verify`). Each is a
 * pure decision over its inputs plus one call into the shared token store.
 * Session-token verification (`jwt.verify`) is an input: the verified claim,
 * or None when verification throws. URL parsing (`new URL`) is a parameter
 * function: None when it throws. The fresh random token id is a parameter.
 * Query values arrive as Express gives them and pass through
 * `decodeURIComponent`, which first converts them with `String()`.
 */
module Authority {
  import opened Wrappers
  import opened Js
  import Http
  import Url
  import UriComponent
  import TokenStore

  /** The fields of `config.json` the endpoints read. */
  datatype Config = Config(
    guestUser: JsValue,
    port: int,
    apiKeys: set<string>,
    tokenIdLength: Option<int>,
    tokenLifetime: Option<int>)

  /** `decodeURIComponent(v)`; None is the URIError it throws. */
  function DecodedParam(v: JsValue): Option<string>
  {
    UriComponent.Decode(ToJsString(v))
  }

  // /authenticate

  /** The identity the new token carries: the verified session claim, else the guest user. */
  function IdentityFor(cfg: Config, session: Option<JsValue>): (user: JsValue)
    ensures session.Some? ==> user == session.value
    ensures session.None? ==> user == cfg.guestUser
  {
    session.GetOr(cfg.guestUser)
  }

  /** A session that fails verification is cleared; the cookie is secure exactly on port 443. */
  function SessionCookies(cfg: Config, session: Option<JsValue>): (cs: seq<Http.Cookie>)
    ensures session.Some? ==> cs == []
    ensures session.None? ==>
      |cs| == 1 && cs[0].name == "session" && cs[0].value == "" && cs[0].maxAge == 0
      && cs[0].httpOnly && (cs[0].secure <==> cfg.port == 443)
  {
    if session.None? then [Http.ClearCookie("session", cfg.port == 443)] else []
  }

  /** The options `/authenticate` passes to the store. */
  function TokenOptions(cfg: Config): TokenStore.CreateOptions
  {
    TokenStore.CreateOptions(cfg.tokenIdLength, cfg.tokenLifetime)
  }

  /** The origin to return to, or None when decoding the parameter or parsing it as a URL throws. */
  function ParseOrigin(originParam: JsValue, parse: string -> Option<Url.Url>): (r: Option<Url.Url>)
    ensures DecodedParam(originParam).None? ==> r.None?
    ensures DecodedParam(originParam).Some? ==> r == parse(DecodedParam(originParam).value)
  {
    match DecodedParam(originParam)
    case None => None
    case Some(text) => parse(text)
  }

  /** `origin.searchParams.set("sso", encodeURIComponent(id))`. */
  function RedirectTarget(origin: Url.Url, id: TokenStore.Id): (target: Url.Url)
    ensures target == origin.(query := target.query)
    ensures Url.CountName(target.query, "sso") == 1
    ensures Url.Get(target.query, "sso") == Some(UriComponent.Encode(id))
    ensures Url.Delete(target.query, "sso") == Url.Delete(origin.query, "sso")
  {
    var q := Url.Set(origin.query, "sso", UriComponent.Encode(id));
    Url.SetOne(origin.query, "sso", UriComponent.Encode(id));
    Url.SetKeepsOthers(origin.query, "sso", UriComponent.Encode(id));
    origin.(query := q)
  }

  /** The reply `/authenticate` gives: 400 for an unusable origin, else a redirect carrying the token id. */
  function AuthenticateReply(cfg: Config, session: Option<JsValue>, originParam: JsValue,
                             parse: string -> Option<Url.Url>, id: TokenStore.Id): (reply: Http.Reply)
    ensures reply.cookies == SessionCookies(cfg, session)
    ensures reply.response.Redirect? <==> ParseOrigin(originParam, parse).Some?
    ensures !reply.response.Redirect? ==> reply.response == Http.Send(400, "Bad Request")
    ensures ParseOrigin(originParam, parse).Some? ==>
      reply.response == Http.Redirect(302, Url.Href(RedirectTarget(ParseOrigin(originParam, parse).value, id)))
  {
    match ParseOrigin(originParam, parse)
    case None => Http.Reply(SessionCookies(cfg, session), Http.Send(400, "Bad Request"))
    case Some(origin) =>
      Http.Reply(SessionCookies(cfg, session), Http.Redirect(302, Url.Href(RedirectTarget(origin, id))))
  }

  /**
   * `GET /authenticate`: identify the caller (guest when the session does not
   * verify), register a token for that identity and redirect to the origin
   * with the token id in `sso`. An origin that does not decode or parse is
   * answered 400 and no token is registered.
   */
  method Authenticate(store: TokenStore.Store<JsValue>, cfg: Config, session: Option<JsValue>,
                      originParam: JsValue, parse: string -> Option<Url.Url>, id: TokenStore.Id)
    returns (reply: Http.Reply)
    requires store.Valid() && id !in store.issued
    modifies store
    ensures store.Valid()
    ensures reply == AuthenticateReply(cfg, session, originParam, parse, id)
    ensures ParseOrigin(originParam, parse).None? ==>
      && store.tokens == old(store.tokens) && store.timers == old(store.timers)
      && store.issued == old(store.issued) && store.log == old(store.log)
    ensures ParseOrigin(originParam, parse).Some? ==>
      && store.tokens == old(store.tokens)[id := IdentityFor(cfg, session)]
      && store.timers == old(store.timers)[id := TokenStore.Resolve(Some(TokenOptions(cfg))).lifetime]
      && store.issued == old(store.issued) + {id} && store.log == old(store.log)
  {
    var user := cfg.guestUser;
    var cookies := [];
    match session {
      case Some(claim) => user := claim;
      case None => cookies := [Http.ClearCookie("session", cfg.port == 443)];
    }
    var origin := ParseOrigin(originParam, parse);
    if origin.None? {
      return Http.Reply(cookies, Http.Send(400, "Bad Request"));
    }
    var ssoid := store.Create(user, Some(TokenOptions(cfg)), id);
    var target := RedirectTarget(origin.value, ssoid);
    reply := Http.Reply(cookies, Http.Redirect(302, Url.Href(target)));
  }

  // /verify

  /** What `/verify` decides before it touches the store. */
  datatype VerifyPlan = Reject(response: Http.Response) | Redeem(id: TokenStore.Id)

  /**
   * The API key is checked first. A key whose decoding throws escapes the
   * handler; an unknown key is answered 403. Only with a known key is the
   * `sso` parameter decoded, and only then is a token redeemed.
   */
  function PlanVerify(cfg: Config, apiKeyParam: JsValue, ssoParam: JsValue): (plan: VerifyPlan)
    ensures plan.Redeem? <==>
      DecodedParam(apiKeyParam).Some? && DecodedParam(apiKeyParam).value in cfg.apiKeys
      && DecodedParam(ssoParam).Some?
    ensures plan.Redeem? ==> DecodedParam(ssoParam) == Some(plan.id)
    ensures DecodedParam(apiKeyParam).Some? && DecodedParam(apiKeyParam).value !in cfg.apiKeys ==>
      plan == Reject(Http.Send(403, "Forbidden"))
    ensures plan.Reject? ==> plan.response == Http.Uncaught || plan.response == Http.Send(403, "Forbidden")
  {
    match DecodedParam(apiKeyParam)
    case None => Reject(Http.Uncaught)
    case Some(key) =>
      if key !in cfg.apiKeys then Reject(Http.Send(403, "Forbidden"))
      else
        match DecodedParam(ssoParam)
        case None => Reject(Http.Uncaught)
        case Some(ssoid) => Redeem(ssoid)
  }

  /** The answer to a redemption: 404 unless the store gave back a non-null value, which is sent as JSON. */
  function AnswerVerify(consumed: Option<JsValue>): (response: Http.Response)
    ensures response.Json? <==> consumed.Some? && !IsNullish(consumed.value)
    ensures response.Json? ==> response == Http.Json(200, consumed.value)
    ensures !response.Json? ==> response == Http.Send(404, "Not Found")
  {
    if consumed.None? || IsNullish(consumed.value) then Http.Send(404, "Not Found")
    else Http.Json(200, consumed.value)
  }

  /** The value a live entry holds, None for an id the store does not hold. */
  function Lookup(tokens: map<TokenStore.Id, JsValue>, id: TokenStore.Id): (r: Option<JsValue>)
    ensures r.Some? <==> id in tokens
    ensures r.Some? ==> r.value == tokens[id]
  {
    if id in tokens then Some(tokens[id]) else None
  }

  /**
   * The reply `/verify` gives against the store's entries before the call:
   * the plan's refusal, the stored value as JSON for a live non-null token,
   * and 404 for any other redemption.
   */
  function VerifyReply(cfg: Config, apiKeyParam: JsValue, ssoParam: JsValue,
                       tokens: map<TokenStore.Id, JsValue>): (reply: Http.Reply)
    ensures reply.cookies == []
    ensures var plan := PlanVerify(cfg, apiKeyParam, ssoParam);
      plan.Reject? ==> reply.response == plan.response
    ensures var plan := PlanVerify(cfg, apiKeyParam, ssoParam);
      plan.Redeem? && plan.id in tokens && !IsNullish(tokens[plan.id]) ==> reply.response == Http.Json(200, tokens[plan.id])
    ensures var plan := PlanVerify(cfg, apiKeyParam, ssoParam);
      plan.Redeem? && (plan.id !in tokens || IsNullish(tokens[plan.id])) ==> reply.response == Http.Send(404, "Not Found")
  {
    match PlanVerify(cfg, apiKeyParam, ssoParam)
    case Reject(response) => Http.Reply([], response)
    case Redeem(id) => Http.Reply([], AnswerVerify(Lookup(tokens, id)))
  }

  /** An unknown API key is refused whatever the store holds: the payload never leaves it. */
  lemma ForbiddenKeyNeverLeaks(cfg: Config, apiKeyParam: JsValue, ssoParam: JsValue,
                               tokens: map<TokenStore.Id, JsValue>)
    requires DecodedParam(apiKeyParam).Some? && DecodedParam(apiKeyParam).value !in cfg.apiKeys
    ensures VerifyReply(cfg, apiKeyParam, ssoParam, tokens).response == Http.Send(403, "Forbidden")
    ensures !VerifyReply(cfg, apiKeyParam, ssoParam, tokens).response.Json?
  {
  }

  /** Once a token is redeemed it is gone, so the same request again is answered 404. */
  lemma RepeatedVerifyNotFound(cfg: Config, apiKeyParam: JsValue, ssoParam: JsValue,
                               tokens: map<TokenStore.Id, JsValue>)
    requires PlanVerify(cfg, apiKeyParam, ssoParam).Redeem?
    ensures VerifyReply(cfg, apiKeyParam, ssoParam,
                        tokens - {PlanVerify(cfg, apiKeyParam, ssoParam).id}).response
            == Http.Send(404, "Not Found")
  {
  }

  /**
   * `GET /verify`: at most one `consume`, and none unless the API key is
   * known; the stored identity is returned once.
   */
  method Verify(store: TokenStore.Store<JsValue>, cfg: Config, apiKeyParam: JsValue, ssoParam: JsValue)
    returns (reply: Http.Reply)
    requires store.Valid()
    modifies store
    ensures store.Valid()
    ensures reply == VerifyReply(cfg, apiKeyParam, ssoParam, old(store.tokens))
    ensures store.issued == old(store.issued)
    ensures PlanVerify(cfg, apiKeyParam, ssoParam).Reject? ==>
      && store.tokens == old(store.tokens) && store.timers == old(store.timers) && store.log == old(store.log)
    ensures PlanVerify(cfg, apiKeyParam, ssoParam).Redeem? ==>
      var id := PlanVerify(cfg, apiKeyParam, ssoParam).id;
      && store.tokens == old(store.tokens) - {id} && store.timers == old(store.timers) - {id}
      && store.log == (if id in old(store.tokens) then old(store.log) + [id] else old(store.log))
  {
    var plan := PlanVerify(cfg, apiKeyParam, ssoParam);
    match plan {
      case Reject(response) =>
        reply := Http.Reply([], response);
      case Redeem(ssoid) =>
        var user := store.Consume(ssoid);
        reply := Http.Reply([], AnswerVerify(user));
    }
  }

  /** Redeeming the same token twice: whatever the first call got, the second gets 404. */
  method VerifyTwice(store: TokenStore.Store<JsValue>, cfg: Config, apiKeyParam: JsValue, ssoParam: JsValue)
    returns (first: Http.Reply, second: Http.Reply)
    requires store.Valid()
    requires PlanVerify(cfg, apiKeyParam, ssoParam).Redeem?
    modifies store
    ensures store.Valid()
    ensures second.response == Http.Send(404, "Not Found")
  {
    first := Verify(store, cfg, apiKeyParam, ssoParam);
    second := Verify(store, cfg, apiKeyParam, ssoParam);
  }

  // The handlers as written call store members that token-store.js does not define.

  datatype StoreMember = CreateMember | ConsumeMember

  /** The members the token-store module exports. */
  function StoreExport(name: string): Option<StoreMember>
  {
    if name == "create" then Some(CreateMember)
    else if name == "consume" then Some(ConsumeMember)
    else None
  }

  /**
   * `/authenticate` as written: once the origin parses it calls
   * `tokenStore.register`, a TypeError unless the store exports that name;
   * the error lands in the same catch as a bad origin and is answered 400.
   */
  function AuthenticateAsWritten(cfg: Config, session: Option<JsValue>, originParam: JsValue,
                                 parse: string -> Option<Url.Url>, id: TokenStore.Id): (reply: Http.Reply)
    ensures reply.cookies == SessionCookies(cfg, session)
    ensures ParseOrigin(originParam, parse).None? ==> reply.response == Http.Send(400, "Bad Request")
  {
    match ParseOrigin(originParam, parse)
    case None => Http.Reply(SessionCookies(cfg, session), Http.Send(400, "Bad Request"))
    case Some(_) =>
      if StoreExport("register").None? then Http.Reply(SessionCookies(cfg, session), Http.Send(400, "Bad Request"))
      else AuthenticateReply(cfg, session, originParam, parse, id)
  }

  /** As written, `/authenticate` never redirects: even a good origin gets 400. */
  lemma AuthenticateAsWrittenAlwaysRejects(cfg: Config, session: Option<JsValue>, originParam: JsValue,
                                           parse: string -> Option<Url.Url>, id: TokenStore.Id)
    ensures AuthenticateAsWritten(cfg, session, originParam, parse, id).response == Http.Send(400, "Bad Request")
  {
  }

  /**
   * `/verify` as written: with a known key and a decodable `sso` it calls
   * `tokenStore.use`, a TypeError unless the store exports that name; the
   * error escapes the handler.
   */
  function VerifyAsWritten(cfg: Config, apiKeyParam: JsValue, ssoParam: JsValue,
                           tokens: map<TokenStore.Id, JsValue>): (reply: Http.Reply)
    ensures reply.cookies == []
    ensures PlanVerify(cfg, apiKeyParam, ssoParam).Reject? ==>
      reply.response == PlanVerify(cfg, apiKeyParam, ssoParam).response
    ensures PlanVerify(cfg, apiKeyParam, ssoParam).Redeem? ==> reply.response == Http.Uncaught
  {
    match PlanVerify(cfg, apiKeyParam, ssoParam)
    case Reject(response) => Http.Reply([], response)
    case Redeem(_) =>
      if StoreExport("use").None? then Http.Reply([], Http.Uncaught)
      else VerifyReply(cfg, apiKeyParam, ssoParam, tokens)
  }

  /** As written, `/verify` never answers 200 or 404: no token can be redeemed. */
  lemma VerifyAsWrittenNeverRedeems(cfg: Config, apiKeyParam: JsValue, ssoParam: JsValue,
                                    tokens: map<TokenStore.Id, JsValue>)
    ensures VerifyAsWritten(cfg, apiKeyParam, ssoParam, tokens).response == Http.Uncaught
         || VerifyAsWritten(cfg, apiKeyParam, ssoParam, tokens).response == Http.Send(403, "Forbidden")
  {
  }
}
