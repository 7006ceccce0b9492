/**
 * The older relying-party middleware. `getOrigin` rebuilds the request URL
 * without `ssoid`. `authenticate` runs the cookie/query cascade and redeems
 * the `sso_id` cookie against the shared token collection with a
 * find-and-delete. `requireLogin` sends anonymous requests to the login
 * page. The token collection is a map from token id to the stored user; its
 * find-and-delete is modelled as a map update, with the database's error
 * flag as an input.
 */
module LegacyMiddleware {
  import opened Wrappers
  import opened Js
  import Text
  import Http
  import UriComponent
  import Url

  /** The factory's `options`; None for `secure` left undefined. */
  datatype Options = Options(secure: Option<bool>, ssoHostname: string)

  /** `secure` defaults to true. */
  function Secure(options: Options): (r: bool)
    ensures r <==> options.secure != Some(false)
  {
    options.secure.GetOr(true)
  }

  type Entry = (string, JsValue)

  /** What the middleware reads of a request. */
  datatype Request = Request(
    /** `req.protocol`. */
    protocol: string,
    /** `req.get("host")`. */
    host: string,
    /** `req.path`. */
    path: string,
    /** `Object.entries(req.query)`, in that order. */
    query: seq<Entry>,
    /** `req.cookies["sso_id"]`. */
    ssoCookie: Option<string>)

  /** `req.query[key]`: the value of the entry with that key, undefined when there is none. */
  function QueryValue(query: seq<Entry>, key: string): JsValue
  {
    if query == [] then Undefined else if query[0].0 == key then query[0].1 else QueryValue(query[1..], key)
  }

  function Base(req: Request): string
  {
    req.protocol + "://" + req.host + req.path
  }

  /** The entries `getOrigin` keeps: every one whose key is not `ssoid`, in order. */
  function Kept(query: seq<Entry>): seq<Entry>
  {
    if query == [] then []
    else Kept(query[..|query| - 1]) + (if query[|query| - 1].0 != "ssoid" then [query[|query| - 1]] else [])
  }

  /** An entry survives exactly when it is in the query under a key other than `ssoid`, and order is kept. */
  lemma {:induction false} KeptMembers(query: seq<Entry>, e: Entry)
    ensures e in Kept(query) <==> e in query && e.0 != "ssoid"
  {
    if query != [] {
      var init := query[..|query| - 1];
      KeptMembers(init, e);
      assert query == init + [query[|query| - 1]];
    }
  }

  /** Keeping distributes over concatenation: the kept entries stay in their order. */
  lemma {:induction false} KeptAppend(a: seq<Entry>, b: seq<Entry>)
    ensures Kept(a + b) == Kept(a) + Kept(b)
  {
    if b == [] {
      assert a + b == a;
    } else {
      var init := b[..|b| - 1];
      KeptAppend(a, init);
      assert (a + b)[..|a + b| - 1] == a + init;
      assert (a + b)[|a + b| - 1] == b[|b| - 1];
    }
  }

  function Piece(e: Entry): string
  {
    e.0 + "=" + ToJsString(e.1)
  }

  function Pieces(entries: seq<Entry>): (ps: seq<string>)
    ensures |ps| == |entries|
  {
    if entries == [] then [] else Pieces(entries[..|entries| - 1]) + [Piece(entries[|entries| - 1])]
  }

  /**
   * The origin as `getOrigin` means it: protocol, host and path, then `?`
   * and the kept `key=value` pieces joined by `&`, with no `?` at all when
   * nothing is kept.
   */
  function OriginOf(req: Request): string
  {
    var kept := Kept(req.query);
    Base(req) + (if kept == [] then "" else "?" + Text.Join(Pieces(kept), "&"))
  }

  /** The string the loop has built after the first entries: each kept piece followed by `&`. */
  function Terminated(ps: seq<string>): string
  {
    if ps == [] then "" else Terminated(ps[..|ps| - 1]) + ps[|ps| - 1] + "&"
  }

  lemma {:induction false} TerminatedJoin(ps: seq<string>)
    requires ps != []
    ensures Terminated(ps) == Text.Join(ps, "&") + "&"
  {
    if |ps| > 1 {
      var init := ps[..|ps| - 1];
      TerminatedJoin(init);
      Text.JoinSnoc(init, ps[|ps| - 1], "&");
      assert init + [ps[|ps| - 1]] == ps;
    }
  }

  lemma PiecesSnoc(entries: seq<Entry>, e: Entry)
    ensures Pieces(entries + [e]) == Pieces(entries) + [Piece(e)]
  {
    assert (entries + [e])[..|entries|] == entries;
  }

  /** One more entry extends the loop's string by that entry's piece and `&`, or not at all for `ssoid`. */
  lemma TerminatedStep(query: seq<Entry>, i: nat)
    requires i < |query|
    ensures Terminated(Pieces(Kept(query[..i + 1])))
         == Terminated(Pieces(Kept(query[..i])))
            + (if query[i].0 != "ssoid" then Piece(query[i]) + "&" else "")
  {
    var prefix := query[..i + 1];
    assert prefix[..|prefix| - 1] == query[..i];
    assert prefix[|prefix| - 1] == query[i];
    if query[i].0 != "ssoid" {
      var kept := Kept(query[..i]);
      assert Kept(prefix) == kept + [query[i]];
      PiecesSnoc(kept, query[i]);
      var ps := Pieces(kept);
      var ps' := ps + [Piece(query[i])];
      assert ps'[..|ps'| - 1] == ps;
    } else {
      assert Kept(prefix) == Kept(query[..i]) + [];
      assert Kept(query[..i]) + [] == Kept(query[..i]);
    }
  }

  /** Dropping the last character of the loop's final string gives the origin. */
  lemma TrimmedOrigin(req: Request, built: string)
    requires built == Base(req) + "?" + Terminated(Pieces(Kept(req.query)))
    ensures |built| > 0 && built[..|built| - 1] == OriginOf(req)
  {
    var kept := Kept(req.query);
    var ps := Pieces(kept);
    if kept == [] {
      assert built == Base(req) + "?";
      assert built[..|built| - 1] == Base(req);
    } else {
      TerminatedJoin(ps);
      var pre := Base(req) + "?" + Text.Join(ps, "&");
      assert built == pre + "&";
      assert built[..|built| - 1] == pre;
    }
  }

  /**
   * `getOrigin(req)`: appends `key=value&` for each entry whose key is not
   * `ssoid` to `protocol://host/path?`, then drops the last character.
   */
  method GetOrigin(req: Request) returns (origin: string)
    ensures origin == OriginOf(req)
  {
    var head := Base(req) + "?";
    origin := head;
    ghost var built: string := [];
    assert req.query[..0] == [];
    var i := 0;
    while i < |req.query|
      invariant 0 <= i <= |req.query|
      invariant built == Terminated(Pieces(Kept(req.query[..i])))
      invariant origin == head + built
    {
      var (key, value) := req.query[i];
      TerminatedStep(req.query, i);
      if key != "ssoid" {
        var piece := key + "=" + ToJsString(value) + "&";
        assert piece == Piece(req.query[i]) + "&";
        Text.AppendAssoc(head, built, piece);
        origin := origin + piece;
        built := built + piece;
      }
      i := i + 1;
    }
    assert req.query[..i] == req.query;
    TrimmedOrigin(req, origin);
    origin := origin[..|origin| - 1];
  }

  function Scheme(options: Options): string
  {
    if Secure(options) then "https" else "http"
  }

  /** The authority's `authenticate` URL carrying the escaped origin; https exactly when secure. */
  function AuthUrl(options: Options, origin: string): (url: string)
    ensures '?' !in options.ssoHostname ==> Url.ParseQuery(Url.QueryOf(url)) == Some([("origin", origin)])
    ensures '?' !in options.ssoHostname ==> Url.BeforeQuery(url) == Scheme(options) + "://" + options.ssoHostname + "/authenticate"
  {
    var host := Scheme(options) + "://" + options.ssoHostname;
    if '?' !in options.ssoHostname then
      OriginLink(host, "/authenticate", origin);
      host + "/authenticate" + "?origin=" + UriComponent.Encode(origin)
    else
      host + "/authenticate" + "?origin=" + UriComponent.Encode(origin)
  }

  /** The authority URL is an https URL exactly when the middleware is secure. */
  lemma AuthUrlScheme(options: Options, origin: string)
    ensures var url := AuthUrl(options, origin);
      Secure(options) <==> |url| >= 8 && url[..8] == "https://"
  {
    var url := AuthUrl(options, origin);
    var prefix := Scheme(options) + "://";
    var tail := options.ssoHostname + ("/authenticate" + ("?origin=" + UriComponent.Encode(origin)));
    assert url == prefix + tail by {
      Text.AppendAssoc(prefix + options.ssoHostname + "/authenticate", "?origin=", UriComponent.Encode(origin));
      Text.AppendAssoc(prefix + options.ssoHostname, "/authenticate", "?origin=" + UriComponent.Encode(origin));
      Text.AppendAssoc(prefix, options.ssoHostname, "/authenticate" + ("?origin=" + UriComponent.Encode(origin)));
    }
    Text.TakeAppend(prefix, tail);
    if Secure(options) {
      assert prefix == "https://";
    } else {
      assert prefix == "http://";
      assert url[4] == prefix[4] == ':';
    }
  }

  /** The authority's login page carrying the escaped origin. */
  function LoginUrl(options: Options, origin: string): (url: string)
    ensures '?' !in options.ssoHostname ==> Url.ParseQuery(Url.QueryOf(url)) == Some([("origin", origin)])
    ensures '?' !in options.ssoHostname ==> Url.BeforeQuery(url) == Scheme(options) + "://" + options.ssoHostname + "/"
  {
    var host := Scheme(options) + "://" + options.ssoHostname;
    if '?' !in options.ssoHostname then
      OriginLink(host, "/", origin);
      host + "/" + "?origin=" + UriComponent.Encode(origin)
    else
      host + "/" + "?origin=" + UriComponent.Encode(origin)
  }

  /** `<host><path>?origin=<escaped origin>` is read by the authority as the one pair `origin`. */
  lemma OriginLink(host: string, path: string, origin: string)
    requires '?' !in host && '?' !in path
    ensures Url.ParseQuery(Url.QueryOf(host + path + "?origin=" + UriComponent.Encode(origin))) == Some([("origin", origin)])
    ensures Url.BeforeQuery(host + path + "?origin=" + UriComponent.Encode(origin)) == host + path
  {
    var e := UriComponent.Encode(origin);
    assert "?origin=" == ['?'] + ("origin" + "=");
    Text.AppendAssoc(host + path, ['?'], "origin" + "=");
    Text.AppendAssoc(host + path + ['?'], "origin" + "=", e);
    Text.AppendAssoc(host + path + ['?'], "origin", "=");
    Text.AppendAssoc("origin", "=", e);
    Text.AppendAssoc(host + path + ['?'], "origin", "=" + e);
    Text.AppendAssoc(host + path + ['?'], "origin" + "=", e);
    assert '?' !in host + path;
    Url.QueryCarries(host + path, "origin", origin);
    Url.BeforeQueryFirst(host + path, "origin" + "=" + e);
  }

  /** How a request goes on: an answer of the middleware's own, or `next()` with `req.user`. */
  datatype Continuation = Respond(response: Http.Response) | Next(user: JsValue)

  datatype Outcome = Outcome(cookies: seq<Http.Cookie>, next: Continuation)

  /**
   * `authenticate(req, res, next)` against the token collection `tokens`
   * (with `dbError` the error the find-and-delete reports); `after` is the
   * collection afterwards.
   */
  method Authenticate(options: Options, req: Request, tokens: map<string, JsValue>, dbError: bool)
    returns (out: Outcome, after: map<string, JsValue>)
    ensures req.ssoCookie.None? ==> after == tokens
    ensures req.ssoCookie.None? && IsNullish(QueryValue(req.query, "ssoid")) ==>
      out == Outcome([], Respond(Http.Redirect(302, AuthUrl(options, OriginOf(req)))))
    ensures req.ssoCookie.None? && !IsNullish(QueryValue(req.query, "ssoid")) ==>
      match UriComponent.Decode(ToJsString(QueryValue(req.query, "ssoid")))
      case None => out == Outcome([], Respond(Http.Uncaught))
      case Some(ssoid) =>
        out == Outcome([Http.Cookie("sso_id", ssoid, 10000, true, Secure(options))],
                       Respond(Http.Redirect(302, OriginOf(req))))
    ensures req.ssoCookie.Some? ==>
      var ssoid := req.ssoCookie.value;
      && out.cookies == [Http.ClearCookie("sso_id", Secure(options))]
      && (if !dbError && ssoid in tokens
          then after == tokens - {ssoid} && out.next == Next(tokens[ssoid])
          else after == tokens && out.next == Respond(Http.Redirect(302, AuthUrl(options, OriginOf(req)))))
  {
    var origin := GetOrigin(req);
    var authUrl := AuthUrl(options, origin);
    after := tokens;

    var ssoid: string;
    if req.ssoCookie.None? {
      var param := QueryValue(req.query, "ssoid");
      if IsNullish(param) {
        return Outcome([], Respond(Http.Redirect(302, authUrl))), after;
      }
      var decoded := UriComponent.Decode(ToJsString(param));
      if decoded.None? {
        return Outcome([], Respond(Http.Uncaught)), after;
      }
      ssoid := decoded.value;
      var cookie := Http.Cookie("sso_id", ssoid, 10000, true, Secure(options));
      return Outcome([cookie], Respond(Http.Redirect(302, origin))), after;
    }
    ssoid := req.ssoCookie.value;

    var found: Option<JsValue> := None;
    if !dbError && ssoid in tokens {
      found := Some(tokens[ssoid]);
      after := tokens - {ssoid};
    }
    var cleared := Http.ClearCookie("sso_id", Secure(options));
    if found.None? {
      return Outcome([cleared], Respond(Http.Redirect(302, authUrl))), after;
    }
    out := Outcome([cleared], Next(found.value));
  }

  /** `requireLogin(req, res, next)`: a request with no user goes to the login page. */
  method RequireLogin(options: Options, req: Request, user: JsValue) returns (next: Continuation)
    ensures next.Respond? <==> IsNullish(user)
    ensures IsNullish(user) ==> next == Respond(Http.Redirect(302, LoginUrl(options, OriginOf(req))))
    ensures !IsNullish(user) ==> next == Next(user)
  {
    if IsNullish(user) {
      var origin := GetOrigin(req);
      return Respond(Http.Redirect(302, LoginUrl(options, origin)));
    }
    next := Next(user);
  }
}
