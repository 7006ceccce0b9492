/**
 * The account server's helpers and its token-issuing `/authenticate` route:
 * the SSO hostname it hands its own middleware, e-mail normalisation, the
 * `isNullOrEmpty` test, the confirmation code, the user name taken from an
 * address, and the route that stores a token for the signed-in user in the
 * shared token collection and redirects back to the origin with it.
 */
module AccountServer {
  import opened Wrappers
  import opened Js
  import Text
  import Http
  import UriComponent
  import Url
  import LegacyMiddleware

  /** The host the account server gives its middleware: the port is shown unless it is 443 or 80. */
  function SsoHostname(hostname: string, port: int): (r: string)
    ensures r == hostname <==> port == 443 || port == 80
    ensures r != hostname ==> r == hostname + ":" + IntString(port)
  {
    hostname + (if port != 443 && port != 80 then ":" + IntString(port) else "")
  }

  /** `normalizeEmailAddress`: an address with exactly one `@`, lower-cased; None when it throws. */
  function NormalizeEmail(address: string): (r: Option<string>)
    ensures r.Some? <==> multiset(address)['@'] == 1
    ensures r.Some? ==> r.value == Text.ToLowerAscii(address)
  {
    Text.SplitCount(address, '@');
    if |Text.Split(address, '@')| != 2 then None else Some(Text.ToLowerAscii(address))
  }

  /** Normalising a normalised address changes nothing. */
  lemma NormalizeIdempotent(address: string)
    requires NormalizeEmail(address).Some?
    ensures NormalizeEmail(NormalizeEmail(address).value) == NormalizeEmail(address)
  {
    Text.LowerKeepsCount(address, '@');
    Text.LowerIdempotent(address);
  }

  /**
   * `isNullOrEmpty(obj)`: undefined and null are empty; otherwise a
   * `length`, when there is one, decides by `== 0`, then a `size` does;
   * anything else is not empty.
   */
  predicate IsNullOrEmpty(v: JsValue)
    ensures IsNullish(v) ==> IsNullOrEmpty(v)
    ensures v.Str? ==> (IsNullOrEmpty(v) <==> v.s == "")
    ensures v.Arr? ==> (IsNullOrEmpty(v) <==> v.items == [])
  {
    if IsNullish(v) then true
    else if !Property(v, "length").Undefined? then LooseEqualsZero(Property(v, "length"))
    else if !Property(v, "size").Undefined? then LooseEqualsZero(Property(v, "size"))
    else false
  }

  /**
   * A plain object is empty by its own `length` field when it has one, by
   * its `size` field otherwise, and is never empty without either.
   */
  lemma EmptyObject(fields: map<string, JsValue>)
    ensures "length" in fields && !fields["length"].Undefined? ==>
      (IsNullOrEmpty(Obj(fields)) <==> LooseEqualsZero(fields["length"]))
    ensures ("length" !in fields || fields["length"].Undefined?) && "size" in fields && !fields["size"].Undefined? ==>
      (IsNullOrEmpty(Obj(fields)) <==> LooseEqualsZero(fields["size"]))
    ensures ("length" !in fields || fields["length"].Undefined?) && ("size" !in fields || fields["size"].Undefined?) ==>
      !IsNullOrEmpty(Obj(fields))
  {
  }

  /** Values with neither `length` nor `size` (numbers, booleans) are never empty. */
  lemma ScalarsNotEmpty(v: JsValue)
    requires v.Bool? || v.Num?
    ensures !IsNullOrEmpty(v)
  {
  }

  /** A numeric `length` makes the value empty exactly when it is 0. */
  lemma NumericLength(fields: map<string, JsValue>, n: int)
    requires "length" in fields && fields["length"] == Num(n)
    ensures IsNullOrEmpty(Obj(fields)) <==> n == 0
  {
  }

  /** A string `length` compares to 0 as the number it spells: "0", "00", " 0x0 " are all 0. */
  lemma StringLength(fields: map<string, JsValue>, n: int)
    requires "length" in fields && fields["length"] == Str(IntString(n))
    ensures IsNullOrEmpty(Obj(fields)) <==> n == 0
  {
    NumberStringIsZero(n);
  }

  const CodeOffset: nat := 11111111111

  /**
   * The confirmation code for the random 64-bit number `r`: `r + 11111111111`
   * in decimal, ten characters from the second on. The offset makes the
   * number at least eleven digits long, so the code is always ten digits.
   */
  function ConfirmationCode(r: nat): (code: string)
    requires r < 0x1_0000_0000_0000_0000
    ensures |code| == 10 && Text.AllDigits(code)
  {
    var s := Text.DecimalString(r + CodeOffset);
    Text.DecimalLength(r + CodeOffset, 10);
    Text.Substr(s, 1, 10)
  }

  /** `email.split(/@/ig)[0]`: the address up to its first `@`. */
  function Username(email: string): (name: string)
    ensures '@' !in name
    ensures |name| <= |email| && name == email[..|name|]
    ensures |name| < |email| <==> '@' in email
    ensures |name| < |email| ==> email[|name|] == '@'
  {
    Text.SplitFirst(email, '@');
    Text.Split(email, '@')[0]
  }

  /** Where `/authenticate` sends the browser back: the origin carrying the escaped token id as `ssoid`. */
  function SsoRedirect(origin: string, id: string): (r: string)
    ensures '?' in origin ==> Url.QueryOf(r) == Url.QueryOf(origin) + "&" + TokenPiece(id)
    ensures '?' !in origin ==> Url.QueryOf(r) == TokenPiece(id)
  {
    var sep := if '?' in origin then '&' else '?';
    if '?' in origin then
      Text.AppendAssoc(origin, [sep], TokenPiece(id));
      Url.QueryOfAppend(origin, [sep] + TokenPiece(id));
      Text.AppendAssoc(Url.QueryOf(origin), [sep], TokenPiece(id));
      origin + [sep] + TokenPiece(id)
    else
      Url.QueryOfFirst(origin, TokenPiece(id));
      origin + [sep] + TokenPiece(id)
  }

  /** The `ssoid=<escaped id>` piece of the redirect's query. */
  function TokenPiece(id: string): string
  {
    "ssoid" + "=" + UriComponent.Encode(id)
  }

  /** The same, as the route writes it: `?ssoid=` whatever the origin already holds. */
  function SsoRedirectAsWritten(origin: string, id: string): (r: string)
    ensures '?' in origin ==> Url.QueryOf(r) == Url.QueryOf(origin) + "?" + TokenPiece(id)
    ensures '?' !in origin ==> Url.QueryOf(r) == TokenPiece(id)
  {
    if '?' in origin then
      Text.AppendAssoc(origin, "?", TokenPiece(id));
      Url.QueryOfAppend(origin, "?" + TokenPiece(id));
      Text.AppendAssoc(Url.QueryOf(origin), "?", TokenPiece(id));
      origin + "?" + TokenPiece(id)
    else
      Url.QueryOfFirst(origin, TokenPiece(id));
      origin + "?" + TokenPiece(id)
  }

  lemma {:induction false} ParsePartsSnoc(parts: seq<string>, q: Url.Query, x: string, p: Url.Pair)
    requires Url.ParseParts(parts) == Some(q)
    requires x != "" && Url.ParsePair(x) == Some(p)
    ensures Url.ParseParts(parts + [x]) == Some(q + [p])
  {
    if parts == [] {
      assert [x][1..] == [];
      assert q == [];
      assert Url.ParseParts([x]) == Some([p] + []);
      assert parts + [x] == [x];
      assert [p] + [] == q + [p];
    } else {
      assert (parts + [x])[1..] == parts[1..] + [x];
      if parts[0] == "" {
        ParsePartsSnoc(parts[1..], q, x, p);
      } else {
        var rest := Url.ParseParts(parts[1..]).value;
        ParsePartsSnoc(parts[1..], rest, x, p);
        assert [q[0]] + (rest + [p]) == q + [p];
      }
    }
  }

  /** `ssoid` reads back as itself. */
  lemma SsoName()
    ensures UriComponent.FormDecode("ssoid") == Some("ssoid")
  {
    assert UriComponent.PlusToSpace("ssoid") == "ssoid";
    UriComponent.DecodePlain("ssoid");
  }

  /** The `ssoid=...` piece reads back as the pair `("ssoid", id)` and holds no `&`. */
  lemma SsoPiece(id: string)
    ensures '&' !in TokenPiece(id) && TokenPiece(id) != ""
    ensures Url.ParsePair(TokenPiece(id)) == Some(("ssoid", id))
  {
    UriComponent.EncodedHasNoAmpersand(id);
    SsoName();
    UriComponent.FormDecodeComponent(id);
    Url.ParsePairAt("ssoid", UriComponent.Encode(id), ("ssoid", id));
  }

  /**
   * Whatever query the origin already has, the relying party reads the
   * same pairs back from the redirect, followed by `ssoid` with the token id.
   */
  lemma SsoRedirectAddsToken(origin: string, id: string, q: Url.Query)
    requires Url.ParseQuery(Url.QueryOf(origin)) == Some(q)
    ensures Url.ParseQuery(Url.QueryOf(SsoRedirect(origin, id))) == Some(q + [("ssoid", id)])
  {
    var piece := TokenPiece(id);
    SsoPiece(id);
    Text.SplitNone(piece, '&');
    if '?' in origin {
      ExtendQuery(origin, id, q);
    } else {
      Url.QueryOfFirst(origin, piece);
      Text.IndexOfFound(origin, '?');
      assert q == [];
      ParsePartsSnoc([], [], piece, ("ssoid", id));
      assert [] + [piece] == [piece];
    }
  }

  lemma ExtendQuery(origin: string, id: string, q: Url.Query)
    requires '?' in origin
    requires Url.ParseQuery(Url.QueryOf(origin)) == Some(q)
    requires '&' !in TokenPiece(id) && TokenPiece(id) != ""
    requires Url.ParsePair(TokenPiece(id)) == Some(("ssoid", id))
    ensures Url.ParseQuery(Url.QueryOf(SsoRedirect(origin, id))) == Some(q + [("ssoid", id)])
  {
    var piece := TokenPiece(id);
    assert SsoRedirect(origin, id) == origin + ['&'] + piece;
    Text.AppendAssoc(origin, ['&'], piece);
    Url.QueryOfAppend(origin, ['&'] + piece);
    ParseAppended(Url.QueryOf(origin), q, piece, ("ssoid", id));
  }

  /** A query read as `q`, then `&` and a piece read as `p`, is read as `q` followed by `p`. */
  lemma ParseAppended(query: string, q: Url.Query, piece: string, p: Url.Pair)
    requires Url.ParseQuery(query) == Some(q)
    requires '&' !in piece && piece != ""
    requires Url.ParsePair(piece) == Some(p)
    ensures Url.ParseQuery(query + (['&'] + piece)) == Some(q + [p])
  {
    Text.AppendAssoc(query, ['&'], piece);
    Text.SplitNone(piece, '&');
    Text.SplitConcat(query, piece, '&');
    ParsePartsSnoc(Text.Split(query, '&'), q, piece, p);
  }

  /**
   * For an origin whose query ends with a `k=v` piece, which is how the
   * middleware's own origins end, the relying party reads the route's own
   * redirect as the origin's pairs with `?ssoid=` and the token id glued to
   * the last value: no `ssoid` appears that the origin did not already have.
   */
  lemma SsoRedirectAsWrittenLosesToken(origin: string, parts: seq<string>, k: string, v: string,
                                       q: Url.Query, id: string)
    requires '?' in origin && Url.QueryOf(origin) == Text.Join(parts + [k + "=" + v], "&")
    requires forall i :: 0 <= i < |parts| ==> '&' !in parts[i]
    requires Url.ParseParts(parts) == Some(q)
    requires '=' !in k && '&' !in k && '+' !in k && '%' !in k
    requires '&' !in v && '+' !in v && '%' !in v
    ensures Url.ParseQuery(Url.QueryOf(SsoRedirectAsWritten(origin, id))) == Some(q + [(k, v + "?ssoid=" + id)])
    ensures k != "ssoid" ==> Url.Get(q + [(k, v + "?ssoid=" + id)], "ssoid") == Url.Get(q, "ssoid")
  {
    var piece := k + "=" + (v + "?ssoid=" + UriComponent.Encode(id));
    GluedQuery(origin, parts, k, v, id);
    GluedPair(k, v, id);
    var all := parts + [piece];
    assert forall i :: 0 <= i < |all| ==> '&' !in all[i] by {
      forall i | 0 <= i < |all| ensures '&' !in all[i] {
        if i < |parts| { assert all[i] == parts[i]; }
      }
    }
    Text.SplitJoin(all, '&');
    ParsePartsSnoc(parts, q, piece, (k, v + "?ssoid=" + id));
    if k != "ssoid" {
      Url.GetAppendOther(q, (k, v + "?ssoid=" + id), "ssoid");
    }
  }

  /** The route's own redirect extends the origin's last piece `k=v` to `k=v?ssoid=<escaped id>`. */
  lemma GluedQuery(origin: string, parts: seq<string>, k: string, v: string, id: string)
    requires '?' in origin && Url.QueryOf(origin) == Text.Join(parts + [k + "=" + v], "&")
    ensures Url.QueryOf(SsoRedirectAsWritten(origin, id))
         == Text.Join(parts + [k + "=" + (v + "?ssoid=" + UriComponent.Encode(id))], "&")
  {
    Text.AppendAssoc(Url.QueryOf(origin), "?", TokenPiece(id));
    GluedPiece(k, v, UriComponent.Encode(id));
    Text.JoinExtendLast(parts, k + "=" + v, "?" + TokenPiece(id), "&");
  }

  /** The extended last piece holds no `&` and reads back as `k` with the glued value. */
  lemma GluedPair(k: string, v: string, id: string)
    requires '=' !in k && '+' !in k && '%' !in k && '&' !in k
    requires '&' !in v && '+' !in v && '%' !in v
    ensures
      var piece := k + "=" + (v + "?ssoid=" + UriComponent.Encode(id));
      && '&' !in piece && piece != ""
      && Url.ParsePair(piece) == Some((k, v + "?ssoid=" + id))
  {
    var glued := v + "?ssoid=" + UriComponent.Encode(id);
    UriComponent.EncodedHasNoAmpersand(id);
    assert '&' !in v + "?ssoid=";
    Url.PlainDecodes(k);
    GluedValue(v, id);
    Url.ParsePairAt(k, glued, (k, v + "?ssoid=" + id));
  }

  /** The glued value reads back with the token id in place of its escaped form. */
  lemma GluedValue(v: string, id: string)
    requires '+' !in v && '%' !in v
    ensures UriComponent.FormDecode(v + "?ssoid=" + UriComponent.Encode(id)) == Some(v + "?ssoid=" + id)
  {
    assert '+' !in v + "?ssoid=" && '%' !in v + "?ssoid=";
    UriComponent.FormDecodeComponent(id);
    UriComponent.FormDecodePlainPrefix(v + "?ssoid=", UriComponent.Encode(id));
  }

  /** Glued to a last piece `k=v`, the token piece makes one piece whose value takes the `?ssoid=` in. */
  lemma GluedPiece(k: string, v: string, e: string)
    ensures (k + "=" + v) + ("?" + ("ssoid" + "=" + e)) == k + "=" + (v + "?ssoid=" + e)
  {
    assert "?" + ("ssoid" + "=") == "?ssoid=";
    Text.AppendAssoc("?", "ssoid" + "=", e);
    Text.AppendAssoc("?", "ssoid", "=");
    Text.AppendAssoc(k + "=", v, "?ssoid=" + e);
    Text.AppendAssoc(v, "?ssoid=", e);
  }

  /** The request of the example: a page at `/` asked for with `?a`, whose query reads as `a: ""`. */
  function ExampleRequest(): LegacyMiddleware.Request
  {
    LegacyMiddleware.Request("r", "h", "/", [("a", Str(""))], None)
  }

  /** The origin the middleware builds for the example request. */
  lemma ExampleOrigin()
    ensures LegacyMiddleware.OriginOf(ExampleRequest()) == "r://h/?a="
  {
    var req := ExampleRequest();
    ExamplePieces();
    assert Text.Join(["a="], "&") == "a=";
    assert LegacyMiddleware.Base(req) == "r://h/";
    assert "r://h/" + ("?" + "a=") == "r://h/?a=";
  }

  /** The example's one entry is kept and becomes the piece `a=`. */
  lemma ExamplePieces()
    ensures LegacyMiddleware.Kept(ExampleRequest().query) == [("a", Str(""))]
    ensures LegacyMiddleware.Pieces([("a", Str(""))]) == ["a="]
  {
    var entries := [("a", Str(""))];
    assert entries[..0] == [];
    assert LegacyMiddleware.Kept(entries) == [] + [("a", Str(""))];
    assert LegacyMiddleware.Piece(entries[0]) == "a" + "=" + "" == "a=";
    assert LegacyMiddleware.Pieces(entries[..0]) == [];
    assert LegacyMiddleware.Pieces(entries) == [] + ["a="];
  }

  /** The query of the example's origin, as the general lemma wants it. */
  lemma ExampleQuery()
    ensures '?' in "r://h/?a=" && Url.QueryOf("r://h/?a=") == Text.Join([] + ["a" + "=" + ""], "&")
  {
    assert "r://h/?a="[6] == '?';
    Text.IndexOfFound("r://h/?a=", '?');
    assert Text.IndexOf("r://h/?a=", '?') == 6;
    assert "r://h/?a="[7..] == "a=";
  }

  /** The pair the general lemma reads, written out. */
  lemma ExampleRead()
    ensures [] + [("a", "" + "?ssoid=" + "t")] == [("a", "?ssoid=t")]
  {
    assert "" + "?ssoid=" + "t" == "?ssoid=t";
  }

  /**
   * The origin the middleware builds for the page `r://h/?a` is
   * `r://h/?a=`; the route's own redirect for the token `t` is read as the
   * single pair `a: "?ssoid=t"`, so the relying party finds no `ssoid`.
   */
  lemma SsoRedirectAsWrittenExample()
    ensures
      var origin := LegacyMiddleware.OriginOf(ExampleRequest());
      && Url.ParseQuery(Url.QueryOf(SsoRedirectAsWritten(origin, "t"))) == Some([("a", "?ssoid=t")])
      && Url.Get([("a", "?ssoid=t")], "ssoid") == None
  {
    ExampleOrigin();
    ExampleRedirect();
  }

  /** The general lemma, for the example's origin. */
  lemma ExampleRedirect()
    ensures Url.ParseQuery(Url.QueryOf(SsoRedirectAsWritten("r://h/?a=", "t"))) == Some([("a", "?ssoid=t")])
  {
    ExampleQuery();
    ExampleRead();
    SsoRedirectAsWrittenLosesToken("r://h/?a=", [], "a", "", [], "t");
  }

  /** What `/authenticate` answers, with the token collection after it. */
  datatype Handled = Handled(reply: Http.Reply, tokens: map<string, JsValue>)

  /**
   * `GET /authenticate`: `originParam` is `req.query.origin`, `session` the
   * payload `jwt.verify` returns for the session cookie (None when it
   * throws), `id` the freshly generated token id and `dbError` the error
   * `Token.create` reports. A bad session stores the null user and clears
   * the session cookie.
   */
  function LegacyAuthenticate(originParam: JsValue, session: Option<JsValue>, tokens: map<string, JsValue>,
                              id: string, dbError: bool): (r: Handled)
    ensures IsNullOrEmpty(originParam) ==> r == Handled(Http.Reply([], Http.Send(400, "Bad Request")), tokens)
    ensures !IsNullOrEmpty(originParam) && UriComponent.Decode(ToJsString(originParam)).None? ==>
      r == Handled(Http.Reply([], Http.Uncaught), tokens)
    ensures r.reply.response.Redirect? <==>
      !IsNullOrEmpty(originParam) && UriComponent.Decode(ToJsString(originParam)).Some? && !dbError
    ensures r.reply.response.Redirect? ==>
      && r.tokens == tokens[id := session.GetOr(Null)]
      && r.reply.response == Http.Redirect(302, SsoRedirect(UriComponent.Decode(ToJsString(originParam)).value, id))
    ensures !r.reply.response.Redirect? ==> r.tokens == tokens
    ensures dbError && !IsNullOrEmpty(originParam) && UriComponent.Decode(ToJsString(originParam)).Some? ==>
      r.reply.response == Http.Send(500, "Internal Server Error")
    ensures r.reply.cookies != [] ==>
      session.None? && r.reply.cookies == [Http.Cookie("session_token", "", 0, true, true)]
    ensures !IsNullOrEmpty(originParam) && UriComponent.Decode(ToJsString(originParam)).Some? ==>
      r.reply.cookies == (if session.None? then [Http.Cookie("session_token", "", 0, true, true)] else [])
  {
    if IsNullOrEmpty(originParam) then Handled(Http.Reply([], Http.Send(400, "Bad Request")), tokens)
    else
      match UriComponent.Decode(ToJsString(originParam))
      case None => Handled(Http.Reply([], Http.Uncaught), tokens)
      case Some(origin) =>
        var user := session.GetOr(Null);
        var cookies := if session.None? then [Http.Cookie("session_token", "", 0, true, true)] else [];
        if dbError then Handled(Http.Reply(cookies, Http.Send(500, "Internal Server Error")), tokens)
        else Handled(Http.Reply(cookies, Http.Redirect(302, SsoRedirect(origin, id))), tokens[id := user])
  }
}
