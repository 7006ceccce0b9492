/**
 * A URL as the sources handle it: a WHATWG URL record reduced to protocol,
 * host, path, the list of decoded query pairs behind `searchParams`, and the
 * fragment. `delete`, `set` and `get` follow section 6.2 of the WHATWG URL
 * Standard (URLSearchParams), and `href` renders the query with the
 * application/x-www-form-urlencoded serializer; an empty list leaves no `?`.
 */
module Url {
  import opened Wrappers
  import Text
  import UriComponent

  type Pair = (string, string)
  type Query = seq<Pair>

  datatype Url = Url(protocol: string, host: string, pathname: string, query: Query, hash: string)

  /** How many pairs of `q` carry `name`. */
  function CountName(q: Query, name: string): nat
  {
    if q == [] then 0 else (if q[0].0 == name then 1 else 0) + CountName(q[1..], name)
  }

  /** `searchParams.get(name)`: the value of the first pair with that name. */
  function Get(q: Query, name: string): (r: Option<string>)
    ensures r.None? <==> CountName(q, name) == 0
    ensures r.Some? ==> (name, r.value) in q
    ensures r.Some? ==> exists i :: 0 <= i < |q| && q[i] == (name, r.value) && forall j :: 0 <= j < i ==> q[j].0 != name
  {
    if q == [] then None else if q[0].0 == name then Some(q[0].1) else Get(q[1..], name)
  }

  /**
   * `searchParams.delete(name)`: every pair with that name is dropped and the
   * others stay, in their order.
   */
  function Delete(q: Query, name: string): (r: Query)
    ensures CountName(r, name) == 0
    ensures |r| == |q| - CountName(q, name)
  {
    if q == [] then []
    else if q[0].0 == name then Delete(q[1..], name)
    else [q[0]] + Delete(q[1..], name)
  }

  /**
   * `searchParams.set(name, value)`: the first pair with that name takes the
   * value and the others with that name are dropped; with none, the pair is
   * appended.
   */
  function Set(q: Query, name: string, value: string): (r: Query)
    ensures (name, value) in r
    ensures |r| == |q| - CountName(q, name) + 1
  {
    if q == [] then [(name, value)]
    else if q[0].0 == name then [(name, value)] + Delete(q[1..], name)
    else [q[0]] + Set(q[1..], name, value)
  }

  /** A pair survives the deletion exactly when it is in the query under another name. */
  lemma {:induction false} DeleteMembers(q: Query, name: string, p: Pair)
    ensures p in Delete(q, name) <==> p in q && p.0 != name
  {
    if q != [] {
      DeleteMembers(q[1..], name, p);
      assert q == [q[0]] + q[1..];
    }
  }

  /** Deleting distributes over concatenation, so the kept pairs keep their relative order. */
  lemma {:induction false} DeleteAppend(a: Query, b: Query, name: string)
    ensures Delete(a + b, name) == Delete(a, name) + Delete(b, name)
  {
    if a == [] {
      assert a + b == b;
    } else {
      DeleteAppend(a[1..], b, name);
      assert (a + b)[0] == a[0];
      assert (a + b)[1..] == a[1..] + b;
      if a[0].0 != name {
        Text.ConsAssoc(a[0], Delete(a[1..], name), Delete(b, name));
      }
    }
  }

  /** A query without the name is left exactly as it was. */
  lemma {:induction false} DeleteAbsent(q: Query, name: string)
    requires CountName(q, name) == 0
    ensures Delete(q, name) == q
  {
    if q != [] {
      DeleteAbsent(q[1..], name);
      assert [q[0]] + q[1..] == q;
    }
  }

  /** A pair added at the end under another name does not change the first value of `name`. */
  lemma {:induction false} GetAppendOther(q: Query, p: Pair, name: string)
    requires p.0 != name
    ensures Get(q + [p], name) == Get(q, name)
  {
    if q == [] {
      assert [p][1..] == [];
    } else {
      GetAppendOther(q[1..], p, name);
      assert (q + [p])[1..] == q[1..] + [p];
    }
  }

  /** Deleting twice is deleting once. */
  lemma DeleteIdempotent(q: Query, name: string)
    ensures Delete(Delete(q, name), name) == Delete(q, name)
  {
    DeleteAbsent(Delete(q, name), name);
  }

  /** Deleting one name does not disturb the pairs of another. */
  lemma {:induction false} DeleteCommutes(q: Query, a: string, b: string)
    ensures Delete(Delete(q, a), b) == Delete(Delete(q, b), a)
  {
    if q != [] {
      DeleteCommutes(q[1..], a, b);
    }
  }

  /** Deleting one name leaves the count of another. */
  lemma {:induction false} DeleteCountOther(q: Query, name: string, other: string)
    requires other != name
    ensures CountName(Delete(q, name), other) == CountName(q, other)
  {
    if q != [] {
      DeleteCountOther(q[1..], name, other);
    }
  }

  /** Setting one name leaves the count of another. */
  lemma SetCountOther(q: Query, name: string, value: string, other: string)
    requires other != name
    ensures CountName(Set(q, name, value), other) == CountName(q, other)
  {
    SetKeepsOthers(q, name, value);
    DeleteCountOther(Set(q, name, value), name, other);
    DeleteCountOther(q, name, other);
  }

  /** After `set`, exactly one pair has the name and it holds the new value. */
  lemma {:induction false} SetOne(q: Query, name: string, value: string)
    ensures CountName(Set(q, name, value), name) == 1
    ensures Get(Set(q, name, value), name) == Some(value)
  {
    if q != [] && q[0].0 != name {
      SetOne(q[1..], name, value);
    }
  }

  /** `set` leaves every pair with another name, and their order, as it was. */
  lemma {:induction false} SetKeepsOthers(q: Query, name: string, value: string)
    ensures Delete(Set(q, name, value), name) == Delete(q, name)
  {
    if q == [] {
    } else if q[0].0 == name {
      var rest := Delete(q[1..], name);
      assert Delete([(name, value)] + rest, name) == Delete(rest, name);
      DeleteIdempotent(q[1..], name);
    } else {
      SetKeepsOthers(q[1..], name, value);
      assert Delete([q[0]] + Set(q[1..], name, value), name) == [q[0]] + Delete(Set(q[1..], name, value), name);
    }
  }

  /** The first pair holding the name is replaced in place. */
  lemma {:induction false} SetReplacesFirst(pre: Query, v0: string, post: Query, name: string, value: string)
    requires CountName(pre, name) == 0
    ensures Set(pre + [(name, v0)] + post, name, value) == pre + [(name, value)] + Delete(post, name)
  {
    if pre == [] {
      assert pre + [(name, v0)] + post == [(name, v0)] + post;
      assert ([(name, v0)] + post)[1..] == post;
    } else {
      var q := pre + [(name, v0)] + post;
      assert q[0] == pre[0] && pre[0].0 != name;
      assert q[1..] == pre[1..] + [(name, v0)] + post;
      SetReplacesFirst(pre[1..], v0, post, name, value);
      assert Set(q, name, value) == [pre[0]] + Set(q[1..], name, value);
      Text.AppendAssoc([pre[0]], pre[1..] + [(name, value)], Delete(post, name));
      Text.AppendAssoc([pre[0]], pre[1..], [(name, value)]);
      assert [pre[0]] + pre[1..] == pre;
    }
  }

  /** Setting one name leaves what `get` sees of another. */
  lemma {:induction false} SetGetOther(q: Query, name: string, value: string, other: string)
    requires other != name
    ensures Get(Set(q, name, value), other) == Get(q, other)
  {
    if q != [] {
      if q[0].0 == name {
        DeleteGetOther(q[1..], name, other);
      } else {
        SetGetOther(q[1..], name, value, other);
      }
    }
  }

  /** Deleting one name leaves what `get` sees of another. */
  lemma {:induction false} DeleteGetOther(q: Query, name: string, other: string)
    requires other != name
    ensures Get(Delete(q, name), other) == Get(q, other)
  {
    if q != [] {
      DeleteGetOther(q[1..], name, other);
    }
  }

  /** With no pair of the name, `set` appends one. */
  lemma {:induction false} SetAppends(q: Query, name: string, value: string)
    requires CountName(q, name) == 0
    ensures Set(q, name, value) == q + [(name, value)]
  {
    if q != [] {
      SetAppends(q[1..], name, value);
      assert [q[0]] + q[1..] == q;
    }
  }

  /** A later `set` of the same name overrides an earlier one. */
  lemma {:induction false} SetSet(q: Query, name: string, v: string, w: string)
    ensures Set(Set(q, name, v), name, w) == Set(q, name, w)
  {
    if q == [] {
    } else if q[0].0 == name {
      DeleteAbsent(Delete(q[1..], name), name);
    } else {
      SetSet(q[1..], name, v, w);
    }
  }

  // Rendering and reading back the query string.

  function EncodePair(p: Pair): string
  {
    UriComponent.FormEncode(p.0) + "=" + UriComponent.FormEncode(p.1)
  }

  function EncodePairs(q: Query): (r: seq<string>)
    ensures |r| == |q|
  {
    if q == [] then [] else [EncodePair(q[0])] + EncodePairs(q[1..])
  }

  /** The application/x-www-form-urlencoded serialization of the pairs. */
  function Serialize(q: Query): string
  {
    Text.Join(EncodePairs(q), "&")
  }

  /**
   * `url.href`: the protocol, `//`, the host and the path, then `?` and the
   * serialized pairs only when there are pairs, then the fragment. A
   * fragment-free URL whose leading part has no `?` reads its pairs back.
   */
  function Href(u: Url): (r: string)
    ensures u.query == [] ==> r == u.protocol + "//" + u.host + u.pathname + u.hash
    ensures '?' !in u.protocol + "//" + u.host + u.pathname && u.hash == "" ==> ParseQuery(QueryOf(r)) == Some(u.query)
  {
    HrefQuery(u);
    u.protocol + "//" + u.host + u.pathname
    + (if u.query == [] then "" else "?" + Serialize(u.query)) + u.hash
  }

  lemma HrefQuery(u: Url)
    ensures var lead := u.protocol + "//" + u.host + u.pathname;
      '?' !in lead && u.hash == "" ==>
      ParseQuery(QueryOf(lead + (if u.query == [] then "" else "?" + Serialize(u.query)) + u.hash)) == Some(u.query)
  {
    var lead := u.protocol + "//" + u.host + u.pathname;
    if '?' !in lead && u.hash == "" {
      if u.query == [] {
        assert lead + "" + u.hash == lead;
        Text.IndexOfFound(lead, '?');
        assert QueryOf(lead) == "";
        assert Text.Split("", '&') == [""];
      } else {
        assert lead + ("?" + Serialize(u.query)) + u.hash == lead + ['?'] + Serialize(u.query);
        QueryOfFirst(lead, Serialize(u.query));
        ParseSerialize(u.query);
      }
    }
  }

  /** One `name=value` piece: split at the first `=`, both halves form-decoded. */
  function ParsePair(part: string): Option<Pair>
  {
    var k := Text.IndexOf(part, '=');
    var name := UriComponent.FormDecode(part[..k]);
    var value := UriComponent.FormDecode(if k < |part| then part[k + 1..] else "");
    if name.Some? && value.Some? then Some((name.value, value.value)) else None
  }

  function ParseParts(parts: seq<string>): Option<Query>
  {
    if parts == [] then Some([])
    else if parts[0] == "" then ParseParts(parts[1..])
    else
      match ParsePair(parts[0])
      case None => None
      case Some(p) =>
        match ParseParts(parts[1..])
        case None => None
        case Some(rest) => Some([p] + rest)
  }

  /**
   * The query string read back as the form parser reads it (empty pieces
   * skipped), strictly: a malformed escape gives None where the standard's
   * lenient parser would keep it literally.
   */
  function ParseQuery(s: string): Option<Query>
  {
    ParseParts(Text.Split(s, '&'))
  }

  /** The first `=` of `name + "=" + value`, for a name without one, is right after the name. */
  lemma EqualsAfterName(name: string, value: string)
    requires '=' !in name
    ensures Text.IndexOf(name + "=" + value, '=') == |name|
  {
    var s := name + "=" + value;
    assert s[|name|] == '=';
    assert forall i :: 0 <= i < |name| ==> s[i] == name[i];
  }

  /** A piece `name=value` whose name has no `=` parses to the decoded name and value. */
  lemma ParsePairAt(name: string, value: string, p: Pair)
    requires '=' !in name
    requires UriComponent.FormDecode(name) == Some(p.0) && UriComponent.FormDecode(value) == Some(p.1)
    ensures ParsePair(name + "=" + value) == Some(p)
  {
    var s := name + "=" + value;
    EqualsAfterName(name, value);
    assert s[..|name|] == name;
    assert s[|name| + 1..] == value;
  }

  lemma ParseEncodedPair(p: Pair)
    ensures '&' !in EncodePair(p) && EncodePair(p) != ""
    ensures ParsePair(EncodePair(p)) == Some(p)
  {
    var n := UriComponent.FormEncode(p.0);
    var v := UriComponent.FormEncode(p.1);
    UriComponent.FormEncodedHasNoSeparators(p.0);
    UriComponent.FormEncodedHasNoSeparators(p.1);
    assert EncodePair(p) == n + "=" + v;
    UriComponent.FormDecodeEncode(p.0);
    UriComponent.FormDecodeEncode(p.1);
    ParsePairAt(n, v, p);
  }

  lemma {:induction false} ParseEncodedPairs(q: Query)
    ensures forall i :: 0 <= i < |q| ==> '&' !in EncodePairs(q)[i]
    ensures ParseParts(EncodePairs(q)) == Some(q)
  {
    if q != [] {
      ParseEncodedPair(q[0]);
      ParseEncodedPairs(q[1..]);
      assert EncodePairs(q)[1..] == EncodePairs(q[1..]);
      assert [q[0]] + q[1..] == q;
    }
  }

  /** Reading back a serialized query gives the same pairs in the same order. */
  lemma ParseSerialize(q: Query)
    ensures ParseQuery(Serialize(q)) == Some(q)
  {
    ParseEncodedPairs(q);
    if q != [] {
      Text.SplitJoin(EncodePairs(q), '&');
    }
  }

  /** The query string of a location: what follows its first `?` (the origins here carry no fragment). */
  function QueryOf(location: string): string
  {
    var k := Text.IndexOf(location, '?');
    if k < |location| then location[k + 1..] else ""
  }

  /** The part of a location before its first `?`: the whole location when it has none. */
  function BeforeQuery(location: string): string
  {
    location[..Text.IndexOf(location, '?')]
  }

  /** A location without `?` followed by `?` and a query keeps it as the part before the query. */
  lemma BeforeQueryFirst(origin: string, rest: string)
    requires '?' !in origin
    ensures BeforeQuery(origin + ['?'] + rest) == origin
  {
    var location := origin + ['?'] + rest;
    assert location == origin + (['?'] + rest);
    Text.IndexOfFound(origin, '?');
    Text.IndexOfConcat(origin, ['?'] + rest, '?');
    Text.TakeAppend(origin, ['?'] + rest);
  }

  /** Text appended to a location that has a query extends that query. */
  lemma QueryOfAppend(origin: string, rest: string)
    requires '?' in origin
    ensures QueryOf(origin + rest) == QueryOf(origin) + rest
  {
    var k := Text.IndexOf(origin, '?');
    Text.IndexOfFound(origin, '?');
    assert k < |origin|;
    Text.IndexOfConcat(origin, rest, '?');
    assert Text.IndexOf(origin + rest, '?') == k;
    assert QueryOf(origin + rest) == (origin + rest)[k + 1..];
    assert QueryOf(origin) == origin[k + 1..];
    Text.DropAppend(origin, rest, k + 1);
  }

  /** Text appended after a `?` to a location without one is its whole query. */
  lemma QueryOfFirst(origin: string, rest: string)
    requires '?' !in origin
    ensures QueryOf(origin + ['?'] + rest) == rest
  {
    var location := origin + ['?'] + rest;
    assert location == origin + (['?'] + rest);
    Text.IndexOfFound(origin, '?');
    Text.IndexOfConcat(origin, ['?'] + rest, '?');
    assert location[|origin| + 1..] == rest;
  }

  /** A name or value with neither `+` nor `%` reads back as itself. */
  lemma PlainDecodes(s: string)
    requires '+' !in s && '%' !in s
    ensures UriComponent.FormDecode(s) == Some(s)
  {
    assert UriComponent.PlusToSpace(s) == s;
    UriComponent.DecodePlain(s);
  }

  /** A query of one piece is read as that piece's pair. */
  lemma ParseSingle(piece: string, p: Pair)
    requires '&' !in piece && piece != ""
    requires ParsePair(piece) == Some(p)
    ensures ParseQuery(piece) == Some([p])
  {
    Text.SplitNone(piece, '&');
    assert [piece][1..] == [];
    assert ParseParts([]) == Some([]);
    assert [p] + [] == [p];
  }

  /** A location whose only `?` is followed by one `name=<escaped value>` piece carries just that pair. */
  lemma QueryCarries(base: string, name: string, value: string)
    requires '?' !in base
    requires '=' !in name && '&' !in name && '+' !in name && '%' !in name
    ensures ParseQuery(QueryOf(base + ['?'] + (name + "=" + UriComponent.Encode(value)))) == Some([(name, value)])
  {
    var e := UriComponent.Encode(value);
    var piece := name + "=" + e;
    QueryOfFirst(base, piece);
    UriComponent.EncodedHasNoAmpersand(value);
    assert '&' !in piece;
    PlainDecodes(name);
    UriComponent.FormDecodeComponent(value);
    ParsePairAt(name, e, (name, value));
    ParseSingle(piece, (name, value));
  }
}
