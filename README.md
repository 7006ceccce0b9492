# Token exchange core of the Tusent single sign-on system

This project models the single sign-on handshake between an authority and a relying party, and proves properties of the model in Dafny.

The authority keeps an ephemeral, single-use token store. Its `/authenticate` endpoint stores the caller's identity under a fresh random id and sends the browser back to the caller's origin with the id in an `sso` query parameter. Its `/verify` endpoint redeems a token once, for a relying party that presents a known API key.

The relying party's handshake middleware works as a per-request state machine:

- A token in the query is moved into a marker cookie, and the browser is sent back to the origin.
- With neither a token nor a cookie, the browser is sent to the authority.
- With the cookie alone, the cookie is cleared and the token is redeemed. The request then goes on with the identity, falls back to the authority on a 404, or goes to the error handler on any other failure.

The older generation is modelled as well:

- the legacy middleware, with its `getOrigin` loop, its cookie/query cascade over the token collection, and `requireLogin`;
- the account server's helpers and its own token-issuing `/authenticate` route.

Modules, one per file:

| file | module | what it holds |
|---|---|---|
| `wrappers.dfy` | `Wrappers` | the `Option` type |
| `text.dfy` | `Text` | decimal rendering, ASCII lower case, `split` on one character and `join`, `indexOf`, `substr` |
| `js.dfy` | `Js` | the JavaScript values the sources handle: `== null`, `String(v)`, property lookup, loose `== 0` |
| `uri_component.dfy` | `UriComponent` | `encodeURIComponent`/`decodeURIComponent` over UTF-8 (ECMA-262, section 19.2.6), and the application/x-www-form-urlencoded serializer and parser of the WHATWG URL Standard, section 5 |
| `url.dfy` | `Url` | a URL record; `URLSearchParams` `get`/`delete`/`set` (WHATWG URL Standard, section 6.2); `href`; reading a query back |
| `http.dfy` | `Http` | cookies and the ways a handler answers |
| `token_store.dfy` | `TokenStore` | the token store as a class over a map, with the pending expiry timers |
| `authority.dfy` | `Authority` | `/authenticate` and `/verify` as methods over the store, each specified by a pure reply function |
| `handshake.dfy` | `Handshake` | the middleware as a class whose two authority URLs are rewritten on each request |
| `legacy_middleware.dfy` | `LegacyMiddleware` | the older middleware |
| `account_server.dfy` | `AccountServer` | the account server's helpers and its `/authenticate` route |
| `exchange.dfy` | `Exchange` | one whole sign-in, carried hop by hop between the two sides |

Inputs and parameters:

- The random token id, the 64-bit random number behind the confirmation code and the `jwt.verify` result are parameters of the operations.
- `new URL(...)` is a parameter function. The outcome of the `axios` call and the database's error flag are inputs.
- The token store's expiry timer firing is an explicit `Expire` step.

Where the system's design description and the code differ, the model follows the code:

- In the handshake middleware, the JSON redirect body uses the key `__redirect`, not `redirect`.
- A non-empty `sso` query value wins over a marker cookie. The cookie is not consulted in that case.
- `/authenticate` at the authority always answers with a plain 302 redirect.
- The handshake middleware builds the origin from `req.hostname`, which carries no port (@tusent.io/authentication-middleware/index.js:40). A relying party on a non-default port is therefore sent home to the default port of its host. The model keeps this: `Handshake.Request` holds the hostname alone.
- `app.js` calls `tokenStore.register` and `tokenStore.use`, which `token-store.js` does not define (see Findings). The model uses `create` and `consume`.

## Model

| member | source | states |
|---|---|---|
| TokenStore.Resolve | @tusent.io/authentication-server/token-store.js:8-9 | without options the defaults 72 and 10000 apply; in a given options object each undefined property takes its default |
| TokenStore.EmptyOptionsAreDefaults | @tusent.io/authentication-server/token-store.js:8-9 | an options object with both properties undefined resolves like no options at all |
| TokenStore.Store.constructor | @tusent.io/authentication-server/token-store.js:4 | the store starts with no entries and no pending timers |
| TokenStore.Store.Create | @tusent.io/authentication-server/token-store.js:8-24 | the fresh id maps to the value with a pending timer for the resolved lifetime; every other entry and timer is unchanged; the store invariant (one timer per live entry, no id consumed twice) is kept |
| TokenStore.Store.Consume | @tusent.io/authentication-server/token-store.js:5-7 | a live id yields its value, and its entry and timer are removed; an absent id yields None and changes nothing; either way the id is not live afterwards |
| TokenStore.Store.Expire | @tusent.io/authentication-server/token-store.js:13 | an expiry firing is exactly `consume(id)`: the id is gone afterwards, and firing after an earlier consume changes nothing |
| TokenStore.SingleUse | @tusent.io/authentication-server/token-store.js:16-19 | the first consume of a token gets its value; a second consume and a late expiry get None; a token that expires first is never delivered |
| Authority.IdentityFor | @tusent.io/authentication-server/app.js:19-25 | the verified session claim is the identity; a failed verification gives the configured guest user |
| Authority.SessionCookies | @tusent.io/authentication-server/app.js:25-27 | a failed session verification clears the `session` cookie (empty, maxAge 0, httpOnly), secure exactly on port 443; a verified session writes no cookie |
| Authority.ParseOrigin | @tusent.io/authentication-server/app.js:30 | the origin is the parse of the decoded parameter; a decoding failure gives no origin |
| Authority.RedirectTarget | @tusent.io/authentication-server/app.js:36 | the target is the origin with exactly one `sso` pair holding `encodeURIComponent(id)`; all other pairs are kept and everything else is unchanged |
| Authority.AuthenticateReply | @tusent.io/authentication-server/app.js:18-42 | the reply is a 302 redirect to the origin carrying the escaped token id as `sso` exactly when the origin parses, and otherwise answers 400; the session cookies are written either way |
| Authority.Authenticate | @tusent.io/authentication-server/app.js:18-42 | answers as AuthenticateReply; registers a token with the caller's identity and the configured options exactly when the origin parses, and leaves the store untouched on 400 |
| Authority.PlanVerify | @tusent.io/authentication-server/app.js:46-52 | a token is redeemed exactly when the API key decodes to a configured key and the `sso` value decodes; an unknown key gives 403 before `sso` is read |
| Authority.AnswerVerify | @tusent.io/authentication-server/app.js:55-59 | 200 with the stored value as JSON exactly when the store gave back a non-null value, else 404 |
| Authority.Lookup | @tusent.io/authentication-server/token-store.js:5-7 | the value of a live entry, None for an id the store does not hold |
| Authority.VerifyReply | @tusent.io/authentication-server/app.js:45-60 | the `/verify` reply writes no cookie; it answers the plan's refusal (403 for an unknown key), the stored value as JSON with 200 for a live token holding a non-null value, and 404 for any other redemption |
| Authority.ForbiddenKeyNeverLeaks | @tusent.io/authentication-server/app.js:46-50 | an unknown API key is answered 403 whatever the store holds, so no payload is sent |
| Authority.RepeatedVerifyNotFound | @tusent.io/authentication-server/app.js:53 | once the token is gone, the same request is answered 404 |
| Authority.Verify | @tusent.io/authentication-server/app.js:45-60 | answers as VerifyReply on the store before the call; a refused request leaves the store untouched; a redeemed one performs exactly one consume |
| Authority.VerifyTwice | @tusent.io/authentication-server/app.js:52-59 | a second verification of the same token is answered 404 |
| Authority.AuthenticateAsWrittenAlwaysRejects | @tusent.io/authentication-server/app.js:31 | with the store's actual members, `register` is undefined, so every `/authenticate` answers 400 |
| Authority.AuthenticateAsWritten | @tusent.io/authentication-server/app.js:29-41 | as written, the route still writes the session cookies and answers 400 to an origin that does not parse |
| Authority.VerifyAsWritten | @tusent.io/authentication-server/app.js:45-60 | as written, the route writes no cookie, refuses every request the corrected route refuses with the same answer, and throws wherever that route would redeem |
| Authority.VerifyAsWrittenNeverRedeems | @tusent.io/authentication-server/app.js:53 | with the store's actual members, `use` is undefined, so every `/verify` with a known key throws |
| Http.ClearCookie | @tusent.io/authentication-middleware/index.js:66 | a cleared cookie is empty, maxAge 0 and httpOnly |
| Handshake.AxiosOutcome | @tusent.io/authentication-middleware/index.js:72-79 | a 2xx answer resolves with its data; a 404 rejects as not found; everything else rejects otherwise |
| Handshake.Classify | @tusent.io/authentication-middleware/index.js:45-61 | a token in the query exactly when the `sso` value is present and non-empty; the marker cookie state exactly when there is no such token but an `sso` cookie |
| Handshake.Origin | @tusent.io/authentication-middleware/index.js:40-43 | the origin is the authority's scheme, the request's hostname without its port, its path, and its query with every `sso` pair removed and the other pairs in order |
| Handshake.WithOrigin | @tusent.io/authentication-middleware/index.js:62 | the authenticate URL gets exactly one `origin` pair holding the origin; its other pairs and its other fields are unchanged |
| Handshake.WithCredentials | @tusent.io/authentication-middleware/index.js:69-70 | the verify URL then holds exactly one `sso` pair, holding the marker, and exactly one `api_key` pair, holding the key; the pairs of every other name stay in order, and its other fields are unchanged |
| Handshake.RenderRedirect | @tusent.io/authentication-middleware/index.js:28-38 | a JSON body `{__redirect: path}` when the client prefers JSON, otherwise a 307 redirect |
| Handshake.Middleware.constructor | @tusent.io/authentication-middleware/index.js:12-25 | cookie lifetime defaults to 10000 and the API key to "none"; cookies are secure exactly when the authenticate URL is https |
| Handshake.Middleware.Authenticate | @tusent.io/authentication-middleware/index.js:27-88 | S1 sets the `sso` cookie and redirects to the origin with no verify call. S0 points the authenticate URL at the origin and redirects there with no cookie. S2 clears the cookie on every outcome, asks verify with the marker and the key, then goes on with the data, redirects to the authority on 404, or calls the error handler |
| Handshake.DefaultErrorResponse | @tusent.io/authentication-middleware/index.js:16-19 | the default error handler answers 500 |
| Exchange.Received | @tusent.io/authentication-middleware/index.js:62 | a query the sender set is read back unchanged by the receiver |
| Exchange.CredentialsRedeem | @tusent.io/authentication-middleware/index.js:69-72 | the `sso` and `api_key` values the middleware puts on the verify URL make the authority redeem exactly the token it issued |
| Exchange.LocationOfRedirect | @tusent.io/authentication-middleware/index.js:28-38 | both renderings of a middleware redirect, the 307 and the JSON `__redirect` body, send the browser to the same path |
| Exchange.Arrival | @tusent.io/authentication-middleware/index.js:40-45 | the request the middleware sees at a URL has that URL's host, path and query, and its `sso` value is the query's first `sso` |
| Exchange.OriginAgain | @tusent.io/authentication-middleware/index.js:40-43 | back at the authority's redirect target, the middleware computes the same origin as on the first visit |
| Exchange.HandOff | @tusent.io/authentication-middleware/index.js:45-66 | following the location of each answer: the authority reads the origin from the authenticate URL, the browser comes back at the authority's redirect target, and the middleware sends it home to the same origin with the escaped token id as its marker cookie; the store maps the id to the caller's identity and nothing has been consumed |
| Exchange.Finish | @tusent.io/authentication-middleware/index.js:66-80 | with the marker cookie, the middleware's verify URL is the one built from its key and the marker, the token is consumed exactly once, and the middleware goes on with the stored identity |
| Exchange.SignIn | @tusent.io/authentication-middleware/index.js:40-87 | from a first visit with no proof, three hops later the middleware goes on with the authority's identity for the caller, and the token has been consumed exactly once |
| LegacyMiddleware.KeptMembers | middleware/index.js:21 | an entry survives `getOrigin` exactly when it is in the query under a key other than `ssoid` |
| LegacyMiddleware.KeptAppend | middleware/index.js:20-23 | kept entries stay in their order |
| LegacyMiddleware.GetOrigin | middleware/index.js:18-27 | the loop builds `protocol://host/path`, then `?` and the kept `key=value` pieces joined by `&`, with no `?` when nothing is kept |
| LegacyMiddleware.Secure | middleware/index.js:11-13 | the middleware is secure unless `secure` is explicitly false |
| LegacyMiddleware.AuthUrl | middleware/index.js:38-39 | the part before the query is `http(s)://`, the authority's host and `/authenticate`; the authority reads the query as the single pair `origin` holding the origin |
| LegacyMiddleware.LoginUrl | middleware/index.js:78-79 | the part before the query is `http(s)://`, the authority's host and `/`; the login page reads the query as the single pair `origin` holding the origin |
| Url.BeforeQueryFirst | middleware/index.js:39 | a location without `?` followed by `?` and a query keeps it as the part before the query |
| LegacyMiddleware.AuthUrlScheme | middleware/index.js:39 | the authority URL is https exactly when the middleware is secure (`secure` defaults to true) |
| LegacyMiddleware.Authenticate | middleware/index.js:36-68 | no cookie and no `ssoid`: a redirect to the authority, collection untouched. No cookie with `ssoid`: the decoded value goes into the `sso_id` cookie (maxAge 10000) and the browser is sent to the origin. Cookie present: the query is ignored, the cookie is cleared; a found token is deleted and its user goes on, while an error or a missing token redirects to the authority |
| LegacyMiddleware.RequireLogin | middleware/index.js:75-85 | redirects to the login page exactly when the user is null or undefined, otherwise goes on |
| AccountServer.SsoHostname | server/server.js:13-15 | the hostname alone exactly when the port is 443 or 80, otherwise `hostname:port` |
| AccountServer.NormalizeEmail | server/server.js:57-67 | fails exactly when the address does not hold exactly one `@`; otherwise the lowercased address |
| AccountServer.NormalizeIdempotent | server/server.js:63-66 | normalising a normalised address gives it back |
| AccountServer.IsNullOrEmpty | server/server.js:69-87 | undefined and null are empty; a string or an array is empty exactly when it has no elements |
| AccountServer.EmptyObject | server/server.js:78-86 | an object decides by its own `length` when it has one, else by its `size`, and is never empty without either |
| AccountServer.ScalarsNotEmpty | server/server.js:86 | numbers and booleans are never null-or-empty |
| AccountServer.NumericLength | server/server.js:78-80 | a numeric `length` makes the value empty exactly when it is 0 |
| AccountServer.StringLength | server/server.js:78-80 | a `length` holding the rendering of a number compares to 0 as that number does |
| AccountServer.ConfirmationCode | server/server.js:185 | for every 64-bit unsigned `r`, the code is exactly ten decimal digits |
| AccountServer.Username | server/server.js:248 | the user name is the longest prefix of the address without `@`; it stops at the first `@` when there is one |
| AccountServer.SsoRedirect | server/server.js:125-126 | the corrected redirect's query is the origin's query, then `&`, then `ssoid=<escaped id>`; for an origin without a query it is just that piece |
| AccountServer.SsoRedirectAsWritten | server/server.js:125-126 | as written, the redirect's query is the origin's query, then `?ssoid=<escaped id>` glued on; for an origin without a query it is just `ssoid=<escaped id>` |
| AccountServer.SsoRedirectAddsToken | server/server.js:125-126 | the corrected redirect reads back as the origin's own query pairs followed by `ssoid` with the token id |
| AccountServer.SsoRedirectAsWrittenLosesToken | server/server.js:125-126 | as written, for an origin whose query ends with a piece `k=v`, the relying party reads the origin's pairs with `?ssoid=<id>` glued to the last value, so it sees no `ssoid` the origin did not already have |
| AccountServer.SsoRedirectAsWrittenExample | server/server.js:126 | `getOrigin` builds `r://h/?a=` for the page `r://h/?a`; for the token `t` the relying party reads only the pair `a: "?ssoid=t"` |
| AccountServer.LegacyAuthenticate | server/server.js:104-128 | a null or empty origin gives 400 and an undecodable one throws. A failed session stores the null user and clears `session_token`. A database error gives 500. The route redirects exactly when it stored the token, and then the collection maps the id to the user |
| Js.ToJsString | @tusent.io/authentication-server/app.js:30 | `String(v)`, the coercion `decodeURIComponent` applies: a string is itself, `undefined` and `null` are their names, an empty array is empty, and an integer renders as decimal digits (led by `-` when negative) that read back as its magnitude |
| Js.NumberStringIsZero | server/server.js:79 | the rendering of a number is loosely equal to 0 exactly when the number is 0 |
| Text.DecimalRoundTrip | server/server.js:185 | reading back the decimal rendering of a number gives the number |
| Text.DecimalLength | server/server.js:185 | the decimal rendering is longer than `k` digits exactly when the number is at least `10^k` |
| Text.SplitCount | server/server.js:58-60 | a split has one more piece than there are separators, and no piece holds one |
| Text.JoinSplit | server/server.js:58 | joining the pieces with the separator gives back the string |
| Text.SplitJoin | server/server.js:248 | splitting a join of pieces without separators gives back the pieces |
| Text.SplitFirst | server/server.js:248 | the first piece of a split is everything before the first separator |
| Text.LowerIdempotent | server/server.js:63 | lowercasing keeps the length, is idempotent, and leaves no upper-case letter |
| Text.LowerKeepsCount | server/server.js:63 | lowercasing keeps the count of every non-letter |
| Text.Substr | server/server.js:185 | `substr` gives the characters from `start` on, clipped at the end of the string |
| UriComponent.Encode | @tusent.io/authentication-server/app.js:36 | `encodeURIComponent` writes only unreserved characters and percent escapes |
| UriComponent.DecodeEncode | @tusent.io/authentication-server/app.js:52 | `decodeURIComponent` undoes `encodeURIComponent` for every string |
| UriComponent.Decode | @tusent.io/authentication-server/app.js:30 | a successful `decodeURIComponent` gives at most one character per input character and at least one per twelve (one per escape sequence of up to four `%XX`) |
| UriComponent.DecodePlain | @tusent.io/authentication-server/app.js:30 | a string without `%` decodes to itself |
| UriComponent.FormDecodeEncode | @tusent.io/authentication-middleware/index.js:62 | the form parser undoes the form serializer |
| UriComponent.FormDecodeComponent | server/server.js:125 | the form parser reads the output of `encodeURIComponent` back as the original string |
| Url.Get | @tusent.io/authentication-middleware/index.js:45 | `get` finds nothing exactly when no pair has the name, and otherwise the value of the first pair with it |
| Url.Href | @tusent.io/authentication-middleware/index.js:43 | with no pairs, `href` is protocol, `//`, host, path and fragment with no `?`; for a URL with no fragment and no `?` before its query, the query read back from `href` is exactly its pairs, in order |
| Url.DeleteCountOther | @tusent.io/authentication-middleware/index.js:41 | `delete` of one name leaves the number of pairs of any other name |
| Url.SetCountOther | @tusent.io/authentication-middleware/index.js:69-70 | `set` of one name leaves the number of pairs of any other name |
| Url.Delete | @tusent.io/authentication-middleware/index.js:41 | `delete` leaves no pair with the name and removes only those |
| Url.DeleteMembers | @tusent.io/authentication-middleware/index.js:41 | a pair survives `delete` exactly when it has another name |
| Url.DeleteIdempotent | @tusent.io/authentication-middleware/index.js:41 | deleting twice is deleting once |
| Url.DeleteCommutes | @tusent.io/authentication-middleware/index.js:69-70 | deleting two names in either order gives the same query |
| Url.Set | @tusent.io/authentication-server/app.js:36 | after `set` the pair is present, and the query has lost the pairs of the name and gained one |
| Url.SetOne | @tusent.io/authentication-server/app.js:36 | after `set` there is exactly one pair with the name, holding the value |
| Url.SetKeepsOthers | @tusent.io/authentication-server/app.js:36 | `set` changes nothing but the pairs of its name |
| Url.SetReplacesFirst | @tusent.io/authentication-server/app.js:36 | `set` replaces the first pair of its name in place and drops the later ones |
| Url.SetAppends | @tusent.io/authentication-middleware/index.js:62 | `set` of an absent name appends the pair |
| Url.SetSet | @tusent.io/authentication-middleware/index.js:62 | a second `set` of the same name overrides the first |
| Url.SetGetOther | @tusent.io/authentication-middleware/index.js:69-70 | `set` of one name does not change what `get` finds for another |
| Url.ParseSerialize | @tusent.io/authentication-middleware/index.js:62-63 | reading back a serialized query gives the same pairs in the same order |

## Left out

- Express routing, `cookie-parser` and `cookie.parse`, and the `res` methods: replies are the `Http.Reply` datatype. Cookie-header parsing errors reaching the error handler are not modelled.
- `filterQueries` (`@tusent.io/filter-queries`), whose source is not part of this model: query parameters reach the handlers as given.
- `axios`: the verify call is the input `VerifyOutcome`; timeouts and transport details are not modelled. `Handshake.AxiosOutcome` maps a 3xx status to the error branch, although axios in Node follows redirects; `/verify` never answers 3xx, so this does not arise.
- `setTimeout`/`clearTimeout`: a pending timer is an entry of `timers`, and its firing is the explicit `Expire` step. JavaScript runs one callback at a time, so the store is modelled sequentially.
- `crypto.randomBytes` and base64: the token id and the 64-bit number are parameters. Nothing constrains the id's length to `keylength`.
- `jsonwebtoken`, `bcrypt`, `sendgrid` and mongoose: the session claim, the database error flag and the token collection (a map) are inputs. `created` timestamps and `cleanupDB` are not modelled.
- The `/`, `/login`, `/register` and `/confirm` routes of `server/server.js` and `format` (which depends on regular-expression escaping and Unicode upper-casing) are not modelled. The inverted `isNullOrEmpty(regreq)` check of `/confirm` (server/server.js:236) is left with it.
- The root `server.js` is an older copy of the account server's handlers and is not modelled.
- `Text.ToLowerAscii`: `toLowerCase` is modelled on ASCII letters only.
- `Handshake.Origin`: the middleware builds the origin with `new URL(...)` outside its `try` (@tusent.io/authentication-middleware/index.js:40), so a request URL that does not parse throws to Express as an uncaught error. The model builds the URL record directly and does not model that throw.
- `Js.JsValue`: numbers are integers. Objects are plain objects without their own `toString` or `valueOf`.
- `Url.Url`: URLs are a record of protocol, host, path, query pairs and fragment; `new URL` parsing is a parameter. `Url.ParseQuery` rejects a malformed percent escape where the standard's parser keeps it literally.
- `UriComponent.Encode`: model strings hold no lone surrogates, so the URIError of `encodeURIComponent` cannot arise.
- `Handshake.Middleware.Authenticate`: `req.user` and `req.error` are the `Next` and `HandleError` continuations.
- `Exchange.SignIn`, `Exchange.HandOff`: they require the origin to hold no `%`, because the authority applies `decodeURIComponent` to a parameter already decoded once. Origins that do hold `%` are not covered.
- `Exchange.SignIn`, `Exchange.Finish`: they require the identity the authority assigns to be neither null nor undefined. With a null `guestUser`, `/verify` answers 404 (@tusent.io/authentication-server/app.js:55) and the middleware sends the browser back to the authority (@tusent.io/authentication-middleware/index.js:75-77), so a sign-in never completes; that loop is not modelled.
- `Exchange.SignIn`, `Exchange.HandOff`: they require `parse`, the stand-in for `new URL`, to read back the `href` of the origin, of the authenticate URL and of the authority's redirect target. These are the URLs the browser is sent to.
- `Exchange.Finish`: it requires the middleware's API key to hold no `%`. `/verify` decodes `api_key` once more (@tusent.io/authentication-server/app.js:46), so a configured key holding `%` is never recognized; that case is not covered. `Exchange.SignIn` carries the same requirement.
- `Handshake.Request`: `ssoQuery` is the `sso` query value as a string, and is not tied to `query`. A repeated `sso`, which Express turns into an array, still takes the token-in-query branch at @tusent.io/authentication-middleware/index.js:45; arrays there are not modelled.
- `AccountServer.SsoRedirectAsWrittenLosesToken`: it covers origins whose last query piece is `k=v` with no `&`, `+` or `%` in `k` or `v` and no `=` in `k`. `getOrigin` ends every query it builds with such a piece when the values are plain.
- `AccountServer.LegacyAuthenticate`: it uses the corrected redirect `SsoRedirect`; the route as written is `SsoRedirectAsWritten` (see Findings).
- `Url.QueryOf`: locations are taken to carry no fragment, as origins built by `getOrigin` do not.

## Findings

| source | as written | input that shows it | evidently intended | confidence | as-written member | corrected member |
|---|---|---|---|---|---|---|
| @tusent.io/authentication-server/app.js:31 | `/authenticate` calls `tokenStore.register`, which the token store does not define; the TypeError is caught and answered 400 | any request with a valid origin | register the token with `create` and redirect | high; not executed | Authority.AuthenticateAsWrittenAlwaysRejects | Authority.Authenticate |
| @tusent.io/authentication-server/app.js:53 | `/verify` calls `tokenStore.use`, which the token store does not define; the TypeError escapes the handler | any request with a configured API key | redeem the token with `consume` | high; not executed | Authority.VerifyAsWrittenNeverRedeems | Authority.Verify |
| server/server.js:126 | the redirect appends `?ssoid=` even when the origin already has a query | page `r://h/?a`, for which `getOrigin` builds `r://h/?a=`, and token `t`: the redirect's query `a=?ssoid=t` reads as the single pair `a: "?ssoid=t"`, with no `ssoid` | separate with `&` when the origin has a query | medium; not executed | AccountServer.SsoRedirectAsWrittenLosesToken | AccountServer.SsoRedirectAddsToken |
