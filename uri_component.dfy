/**
 * Percent-encoding as the sources use it: `encodeURIComponent` and
 * `decodeURIComponent` (section 19.2.6 of ECMA-262), both over UTF-8, and the
 * application/x-www-form-urlencoded byte serializer that URLSearchParams uses
 * to render a query (section 5.2 of the WHATWG URL Standard). Strings are
 * sequences of Unicode scalar values.
 */
module UriComponent {
  import opened Wrappers
  import Text

  type Byte = b: int | 0 <= b < 256

  /** The UTF-8 encoding of one scalar value: one to four bytes. */
  function Utf8(c: char): (bs: seq<Byte>)
    ensures 1 <= |bs| <= 4
    ensures (|bs| == 1) == (c as int < 0x80)
  {
    var x := c as int;
    if x < 0x80 then [x]
    else if x < 0x800 then [0xC0 + x / 64, 0x80 + x % 64]
    else if x < 0x10000 then [0xE0 + x / 4096, 0x80 + (x / 64) % 64, 0x80 + x % 64]
    else [0xF0 + x / 262144, 0x80 + (x / 4096) % 64, 0x80 + (x / 64) % 64, 0x80 + x % 64]
  }

  function HexDigit(d: nat): (c: char)
    requires d < 16
  {
    "0123456789ABCDEF"[d]
  }

  /** The value of a hexadecimal digit of either case. */
  function HexValue(c: char): Option<nat>
  {
    if '0' <= c <= '9' then Some(c as int - '0' as int)
    else if 'A' <= c <= 'F' then Some(c as int - 'A' as int + 10)
    else if 'a' <= c <= 'f' then Some(c as int - 'a' as int + 10)
    else None
  }

  predicate IsUpperHex(c: char)
  {
    '0' <= c <= '9' || 'A' <= c <= 'F'
  }

  /** `%XX` with upper-case digits. */
  function PercentByte(b: Byte): (s: string)
    ensures |s| == 3 && s[0] == '%' && IsUpperHex(s[1]) && IsUpperHex(s[2])
  {
    ['%', HexDigit(b / 16), HexDigit(b % 16)]
  }

  function PercentBytes(bs: seq<Byte>): (s: string)
    ensures |s| == 3 * |bs|
    ensures forall i :: 0 <= i < |s| ==> s[i] == '%' || IsUpperHex(s[i])
  {
    if bs == [] then "" else PercentByte(bs[0]) + PercentBytes(bs[1..])
  }

  /** The characters `encodeURIComponent` leaves as they are. */
  predicate Unreserved(c: char)
  {
    'A' <= c <= 'Z' || 'a' <= c <= 'z' || '0' <= c <= '9' || c in "-_.!~*'()"
  }

  /** What may appear in the output of `encodeURIComponent`. */
  predicate ComponentSafe(c: char)
  {
    Unreserved(c) || c == '%'
  }

  function EncodeChar(c: char): string
  {
    if Unreserved(c) then [c] else PercentBytes(Utf8(c))
  }

  /**
   * `encodeURIComponent(s)`. Since the model's strings hold no lone
   * surrogates, the URIError case of the source cannot arise.
   */
  function Encode(s: string): (r: string)
    ensures forall i :: 0 <= i < |r| ==> ComponentSafe(r[i])
  {
    if s == [] then "" else EncodeChar(s[0]) + Encode(s[1..])
  }

  function Prepend(c: char, rest: Option<string>): Option<string>
  {
    match rest
    case None => None
    case Some(t) => Some([c] + t)
  }

  /** The byte written as `%XX` at the start of `s`, if that is what starts it. */
  function ReadByte(s: string): (r: Option<Byte>)
    ensures r.Some? ==> |s| >= 3
  {
    if |s| >= 3 && s[0] == '%' && HexValue(s[1]).Some? && HexValue(s[2]).Some?
    then Some(16 * HexValue(s[1]).value + HexValue(s[2]).value)
    else None
  }

  /** `n` consecutive `%XX` escapes at the start of `s`. */
  function ReadBytes(s: string, n: nat): (r: Option<seq<Byte>>)
    ensures r.Some? ==> |r.value| == n && |s| >= 3 * n
  {
    if n == 0 then Some([])
    else match ReadByte(s)
      case None => None
      case Some(b) =>
        match ReadBytes(s[3..], n - 1)
        case None => None
        case Some(rest) => Some([b] + rest)
  }

  /** The length of the UTF-8 sequence a leading byte starts; 0 for a byte that cannot lead one. */
  function SequenceLength(b: Byte): nat
  {
    if 0xC0 <= b < 0xE0 then 2 else if 0xE0 <= b < 0xF0 then 3 else if 0xF0 <= b < 0xF8 then 4 else 0
  }

  predicate IsContinuation(b: Byte)
  {
    0x80 <= b < 0xC0
  }

  /** The scalar value a multi-byte sequence encodes; None when it is not valid UTF-8. */
  function DecodeUtf8(bs: seq<Byte>): Option<char>
    requires 2 <= |bs| <= 4 && SequenceLength(bs[0]) == |bs|
  {
    if exists i :: 1 <= i < |bs| && !IsContinuation(bs[i]) then None
    else
      var b0, b1 := bs[0] as int, bs[1] as int;
      if |bs| == 2 then
        var x := (b0 - 0xC0) * 64 + (b1 - 0x80);
        if x < 0x80 then None else Some(x as char)
      else if |bs| == 3 then
        var x := (b0 - 0xE0) * 4096 + (b1 - 0x80) * 64 + (bs[2] as int - 0x80);
        if x < 0x800 || (0xD800 <= x < 0xE000) then None else Some(x as char)
      else
        var x := (b0 - 0xF0) * 262144 + (b1 - 0x80) * 4096 + (bs[2] as int - 0x80) * 64 + (bs[3] as int - 0x80);
        if x < 0x10000 || x >= 0x110000 then None else Some(x as char)
  }

  /**
   * `decodeURIComponent(s)`: every `%XX` escape, or run of escapes forming one
   * UTF-8 sequence, becomes the character it encodes; None stands for the
   * URIError thrown on a malformed escape or invalid UTF-8.
   */
  function Decode(s: string): (r: Option<string>)
    ensures r.Some? ==> |r.value| <= |s| <= 12 * |r.value|
    decreases |s|
  {
    if s == [] then Some([])
    else if s[0] != '%' then Prepend(s[0], Decode(s[1..]))
    else
      match ReadByte(s)
      case None => None
      case Some(b0) =>
        if b0 < 0x80 then Prepend(b0 as char, Decode(s[3..]))
        else
          var n := SequenceLength(b0);
          if n == 0 then None
          else
            match ReadBytes(s, n)
            case None => None
            case Some(bs) =>
              match DecodeUtf8(bs)
              case None => None
              case Some(c) => Prepend(c, Decode(s[3 * n..]))
  }

  lemma HexRoundTrip(d: nat)
    requires d < 16
    ensures HexValue(HexDigit(d)) == Some(d)
  {
  }

  lemma {:induction false} ReadPercentByte(b: Byte, rest: string)
    ensures ReadByte(PercentByte(b) + rest) == Some(b)
  {
    HexRoundTrip(b / 16);
    HexRoundTrip(b % 16);
  }

  lemma {:induction false} ReadPercentBytes(bs: seq<Byte>, rest: string)
    ensures ReadBytes(PercentBytes(bs) + rest, |bs|) == Some(bs)
  {
    if bs != [] {
      var head := PercentByte(bs[0]);
      var tail := PercentBytes(bs[1..]) + rest;
      var s := PercentBytes(bs) + rest;
      Text.AppendAssoc(head, PercentBytes(bs[1..]), rest);
      assert s == head + tail;
      ReadPercentByte(bs[0], tail);
      Text.DropAppend(head, tail, 3);
      assert s[3..] == tail;
      ReadPercentBytes(bs[1..], rest);
      assert [bs[0]] + bs[1..] == bs;
    }
  }

  /** A multi-byte UTF-8 encoding announces its length and decodes to its character. */
  lemma Utf8Decodes(c: char)
    requires c as int >= 0x80
    ensures SequenceLength(Utf8(c)[0]) == |Utf8(c)|
    ensures DecodeUtf8(Utf8(c)) == Some(c)
  {
    if c as int < 0x800 { Utf8DecodesTwo(c); }
    else if c as int < 0x10000 { Utf8DecodesThree(c); }
    else { Utf8DecodesFour(c); }
  }

  lemma Utf8DecodesTwo(c: char)
    requires 0x80 <= c as int < 0x800
    ensures SequenceLength(Utf8(c)[0]) == |Utf8(c)| == 2
    ensures DecodeUtf8(Utf8(c)) == Some(c)
  {
    var x := c as int;
    Digits2(x);
    assert Utf8(c) == [0xC0 + x / 64, 0x80 + x % 64];
  }

  lemma Utf8DecodesThree(c: char)
    requires 0x800 <= c as int < 0x10000
    ensures SequenceLength(Utf8(c)[0]) == |Utf8(c)| == 3
    ensures DecodeUtf8(Utf8(c)) == Some(c)
  {
    var x := c as int;
    Digits3(x);
    assert Utf8(c) == [0xE0 + x / 4096, 0x80 + (x / 64) % 64, 0x80 + x % 64];
  }

  lemma Utf8DecodesFour(c: char)
    requires 0x10000 <= c as int
    ensures SequenceLength(Utf8(c)[0]) == |Utf8(c)| == 4
    ensures DecodeUtf8(Utf8(c)) == Some(c)
  {
    var x := c as int;
    Digits4(x);
    assert Utf8(c) == [0xF0 + x / 262144, 0x80 + (x / 4096) % 64, 0x80 + (x / 64) % 64, 0x80 + x % 64];
  }

  /** Six-bit groups of a value below 2^11, 2^16 and 2^21 put back together. */
  lemma Digits2(x: nat)
    ensures x == (x / 64) * 64 + x % 64
  {
  }

  lemma Digits3(x: nat)
    ensures x == (x / 4096) * 4096 + ((x / 64) % 64) * 64 + x % 64
  {
    assert x / 64 == (x / 4096) * 64 + (x / 64) % 64;
    assert x == (x / 64) * 64 + x % 64;
  }

  lemma Digits4(x: nat)
    ensures x == (x / 262144) * 262144 + ((x / 4096) % 64) * 4096 + ((x / 64) % 64) * 64 + x % 64
  {
    assert x / 4096 == (x / 262144) * 64 + (x / 4096) % 64;
    Digits3(x);
  }

  /** Decoding the escapes of one character's UTF-8 bytes yields that character. */
  lemma {:induction false} DecodePercentChar(c: char, rest: string)
    ensures Decode(PercentBytes(Utf8(c)) + rest) == Prepend(c, Decode(rest))
  {
    var bs := Utf8(c);
    var s := PercentBytes(bs) + rest;
    assert s == PercentByte(bs[0]) + (PercentBytes(bs[1..]) + rest);
    ReadPercentByte(bs[0], PercentBytes(bs[1..]) + rest);
    if c as int < 0x80 {
      assert s[3..] == rest;
    } else {
      Utf8Decodes(c);
      ReadPercentBytes(bs, rest);
      assert s[3 * |bs|..] == rest;
    }
  }

  lemma {:induction false} DecodeEncodedChar(c: char, rest: string)
    ensures Decode(EncodeChar(c) + rest) == Prepend(c, Decode(rest))
  {
    if Unreserved(c) {
      assert (EncodeChar(c) + rest)[1..] == rest;
    } else {
      DecodePercentChar(c, rest);
    }
  }

  /** `decodeURIComponent(encodeURIComponent(s)) === s` for every string. */
  lemma {:induction false} DecodeEncode(s: string)
    ensures Decode(Encode(s)) == Some(s)
  {
    if s != [] {
      DecodeEncode(s[1..]);
      DecodeEncodedChar(s[0], Encode(s[1..]));
      assert [s[0]] + s[1..] == s;
    }
  }

  /** A string made of unreserved characters only is left unchanged by encoding. */
  lemma {:induction false} EncodeUnreserved(s: string)
    requires forall i :: 0 <= i < |s| ==> Unreserved(s[i])
    ensures Encode(s) == s
  {
    if s != [] {
      EncodeUnreserved(s[1..]);
      assert [s[0]] + s[1..] == s;
    }
  }

  /** A string with no `%` in it decodes to itself. */
  lemma {:induction false} DecodePlain(s: string)
    requires '%' !in s
    ensures Decode(s) == Some(s)
  {
    if s != [] {
      DecodePlain(s[1..]);
      assert [s[0]] + s[1..] == s;
    }
  }

  /** A prefix without `%` stays as it is in front of whatever follows decodes to. */
  lemma {:induction false} DecodePlainPrefix(a: string, b: string)
    requires '%' !in a
    ensures Decode(a + b) == (if Decode(b).Some? then Some(a + Decode(b).value) else None)
  {
    if a == [] {
      assert a + b == b;
      if Decode(b).Some? {
        assert a + Decode(b).value == Decode(b).value;
      }
    } else {
      DecodePlainPrefix(a[1..], b);
      assert a + b == [a[0]] + (a[1..] + b) by {
        assert a == [a[0]] + a[1..];
        Text.AppendAssoc([a[0]], a[1..], b);
      }
      DecodePlainHead(a[0], a[1..] + b);
      if Decode(b).Some? {
        Text.AppendAssoc([a[0]], a[1..], Decode(b).value);
        assert [a[0]] + a[1..] == a;
      }
    }
  }

  /** A character other than `%` is kept as it is. */
  lemma DecodePlainHead(c: char, t: string)
    requires c != '%'
    ensures Decode([c] + t) == Prepend(c, Decode(t))
  {
    assert ([c] + t)[0] == c;
    assert ([c] + t)[1..] == t;
  }

  // application/x-www-form-urlencoded

  /** The characters the form serializer leaves as they are. */
  predicate FormSafe(c: char)
  {
    'A' <= c <= 'Z' || 'a' <= c <= 'z' || '0' <= c <= '9' || c in "*-._"
  }

  function FormEncodeChar(c: char): string
  {
    if c == ' ' then "+" else if FormSafe(c) then [c] else PercentBytes(Utf8(c))
  }

  /** One name or value as the form serializer writes it: space as `+`, the rest percent-encoded. */
  function FormEncode(s: string): (r: string)
    ensures forall i :: 0 <= i < |r| ==> FormSafe(r[i]) || r[i] == '+' || r[i] == '%'
  {
    if s == [] then "" else FormEncodeChar(s[0]) + FormEncode(s[1..])
  }

  /** The form serializer writes neither of the query's separators `&` and `=`. */
  lemma FormEncodedHasNoSeparators(s: string)
    ensures '&' !in FormEncode(s) && '=' !in FormEncode(s)
  {
    var r := FormEncode(s);
    forall i | 0 <= i < |r| ensures r[i] != '&' && r[i] != '=' {
      assert FormSafe(r[i]) || r[i] == '+' || r[i] == '%';
    }
  }

  function PlusToSpace(s: string): (r: string)
    ensures |r| == |s|
    ensures forall i :: 0 <= i < |s| ==> r[i] == if s[i] == '+' then ' ' else s[i]
  {
    seq(|s|, i requires 0 <= i < |s| => if s[i] == '+' then ' ' else s[i])
  }

  /** A form-encoded name or value read back: `+` as space, then percent-decoding (strict). */
  function FormDecode(s: string): Option<string>
  {
    Decode(PlusToSpace(s))
  }

  lemma {:induction false} FormDecodeEncodedChar(c: char, rest: string)
    ensures Decode(PlusToSpace(FormEncodeChar(c)) + rest) == Prepend(c, Decode(rest))
  {
    var e := FormEncodeChar(c);
    if c == ' ' || FormSafe(c) {
      assert PlusToSpace(e) == [c];
      assert ([c] + rest)[1..] == rest;
    } else {
      assert PlusToSpace(e) == e;
      DecodePercentChar(c, rest);
    }
  }

  lemma PlusToSpaceAppend(a: string, b: string)
    ensures PlusToSpace(a + b) == PlusToSpace(a) + PlusToSpace(b)
  {
    assert forall i :: 0 <= i < |a + b| ==> PlusToSpace(a + b)[i] == (PlusToSpace(a) + PlusToSpace(b))[i];
  }

  /** Reading back a form-encoded string gives the string. */
  lemma {:induction false} FormDecodeEncode(s: string)
    ensures FormDecode(FormEncode(s)) == Some(s)
  {
    if s != [] {
      FormDecodeEncode(s[1..]);
      var head := FormEncodeChar(s[0]);
      var tail := FormEncode(s[1..]);
      PlusToSpaceAppend(head, tail);
      FormDecodeEncodedChar(s[0], PlusToSpace(tail));
      assert [s[0]] + s[1..] == s;
    }
  }

  /** A prefix without `+` or `%` stays as it is in front of whatever follows reads back as. */
  lemma FormDecodePlainPrefix(a: string, b: string)
    requires '+' !in a && '%' !in a
    ensures FormDecode(a + b) == (if FormDecode(b).Some? then Some(a + FormDecode(b).value) else None)
  {
    PlusToSpaceAppend(a, b);
    assert PlusToSpace(a) == a;
    DecodePlainPrefix(a, PlusToSpace(b));
  }

  /** A form reader reading what `encodeURIComponent` wrote gets back the original string. */
  lemma FormDecodeComponent(s: string)
    ensures FormDecode(Encode(s)) == Some(s)
  {
    var e := Encode(s);
    assert PlusToSpace(e) == e;
    DecodeEncode(s);
  }

  /** The output of `encodeURIComponent` holds no `&`. */
  lemma EncodedHasNoAmpersand(id: string)
    ensures '&' !in Encode(id)
  {
    var e := Encode(id);
    forall i | 0 <= i < |e| ensures e[i] != '&' {
      assert ComponentSafe(e[i]);
    }
  }
}
