/**
 * The few JavaScript values and conversions the sources depend on: `== null`,
 * property lookup of `length` and `size`, `String(v)` (template literals,
 * `decodeURIComponent`'s argument) and the loose comparison `v == 0`.
 * Numbers are integers here; objects are plain objects without their own
 * `toString`/`valueOf`.
 */
module Js {
  import Text

  datatype JsValue =
    | Undefined
    | Null
    | Bool(b: bool)
    | Num(n: int)
    | Str(s: string)
    | Arr(items: seq<JsValue>)
    | Obj(fields: map<string, JsValue>)

  /** `v == null`: true for `undefined` and `null` alone. */
  predicate IsNullish(v: JsValue)
  {
    v.Undefined? || v.Null?
  }

  /** `String(n)` for an integral Number. */
  function IntString(n: int): string
  {
    if n < 0 then "-" + Text.DecimalString(-n) else Text.DecimalString(n)
  }

  /**
   * `String(v)`. An array is the join of its elements with ",", where
   * `undefined` and `null` elements contribute the empty string.
   */
  function ToJsString(v: JsValue): (r: string)
    ensures v.Str? ==> r == v.s
    ensures v == Undefined ==> r == "undefined"
    ensures v == Null ==> r == "null"
    ensures v.Num? && v.n >= 0 ==> Text.AllDigits(r) && Text.DecimalValue(r) == v.n
    ensures v.Num? && v.n < 0 ==> |r| >= 2 && r[0] == '-' && Text.AllDigits(r[1..]) && Text.DecimalValue(r[1..]) == -v.n
    ensures v.Arr? && v.items == [] ==> r == ""
  {
    Text.DecimalRoundTrip(if v.Num? && v.n < 0 then -v.n else if v.Num? then v.n else 0);
    match v
    case Undefined => "undefined"
    case Null => "null"
    case Bool(b) => if b then "true" else "false"
    case Num(n) => IntString(n)
    case Str(s) => s
    case Arr(items) =>
      Text.Join(seq(|items|, i requires 0 <= i < |items| =>
                      if IsNullish(items[i]) then "" else ToJsString(items[i])), ",")
    case Obj(_) => "[object Object]"
  }

  /**
   * `v[key]` for a value that is not nullish (on `undefined` and `null` the
   * lookup throws). Strings and arrays have a `length`; an object has its own
   * fields; nothing else has `length` or `size`.
   */
  function Property(v: JsValue, key: string): JsValue
    requires !IsNullish(v)
  {
    match v
    case Str(s) => if key == "length" then Num(|s|) else Undefined
    case Arr(items) => if key == "length" then Num(|items|) else Undefined
    case Obj(fields) => if key in fields then fields[key] else Undefined
    case _ => Undefined
  }

  /** The white space and line terminators that `Number(s)` trims. */
  predicate IsJsSpace(c: char)
  {
    var x := c as int;
    x == 0x09 || x == 0x0A || x == 0x0B || x == 0x0C || x == 0x0D || x == 0x20 ||
    x == 0xA0 || x == 0x1680 || (0x2000 <= x <= 0x200A) || x == 0x2028 || x == 0x2029 ||
    x == 0x202F || x == 0x205F || x == 0x3000 || x == 0xFEFF
  }

  function TrimStart(s: string): string
  {
    if s != [] && IsJsSpace(s[0]) then TrimStart(s[1..]) else s
  }

  function TrimEnd(s: string): string
  {
    if s != [] && IsJsSpace(s[|s| - 1]) then TrimEnd(s[..|s| - 1]) else s
  }

  function Trim(s: string): string
  {
    TrimEnd(TrimStart(s))
  }

  predicate AllZeros(s: string)
  {
    forall i :: 0 <= i < |s| ==> s[i] == '0'
  }

  function StripSign(t: string): string
  {
    if t != [] && (t[0] == '+' || t[0] == '-') then t[1..] else t
  }

  /** Index of the first `e` or `E` in `u`, or `|u|` when there is none. */
  function ExponentIndex(u: string): (k: nat)
    ensures k <= |u|
    ensures forall i :: 0 <= i < k ==> u[i] != 'e' && u[i] != 'E'
  {
    if u == [] then 0 else if u[0] == 'e' || u[0] == 'E' then 0 else 1 + ExponentIndex(u[1..])
  }

  /** A mantissa `D`, `D.`, `.D` or `D.D` with at least one digit, every digit `0`. */
  predicate ZeroMantissa(m: string)
  {
    var i := Text.IndexOf(m, '.');
    if i < |m| then AllZeros(m[..i]) && AllZeros(m[i + 1..]) && |m| > 1
    else m != [] && AllZeros(m)
  }

  predicate ValidExponent(e: string)
  {
    e == [] ||
    ((e[0] == 'e' || e[0] == 'E') && StripSign(e[1..]) != [] && Text.AllDigits(StripSign(e[1..])))
  }

  /** A trimmed string that is a decimal, hexadecimal, octal or binary literal of zero. */
  predicate IsZeroLiteral(t: string)
  {
    var u := StripSign(t);
    var k := ExponentIndex(u);
    (ZeroMantissa(u[..k]) && ValidExponent(u[k..])) ||
    (|t| >= 3 && t[0] == '0' && t[1] in "xXoObB" && AllZeros(t[2..]))
  }

  /** `Number(s) === 0`: the empty (or all-blank) string, or a literal of zero. */
  predicate StringIsZero(s: string)
  {
    var t := Trim(s);
    t == [] || IsZeroLiteral(t)
  }

  /** `v == 0` with JavaScript's loose equality. */
  predicate LooseEqualsZero(v: JsValue)
  {
    match v
    case Undefined => false
    case Null => false
    case Bool(b) => !b
    case Num(n) => n == 0
    case Str(s) => StringIsZero(s)
    case Arr(_) => StringIsZero(ToJsString(v))
    case Obj(_) => false
  }

  lemma {:induction false} TrimNoSpace(s: string)
    requires forall i :: 0 <= i < |s| ==> !IsJsSpace(s[i])
    ensures Trim(s) == s
  {
  }

  /** The rendering of a number compares equal to 0 exactly when the number is 0. */
  lemma NumberStringIsZero(n: int)
    ensures StringIsZero(IntString(n)) <==> n == 0
  {
    var d := Text.DecimalString(if n < 0 then -n else n);
    var t := IntString(n);
    IntStringShape(n);
    TrimNoSpace(t);
    ExponentAfterDigits(d);
    DotAfterDigits(d);
    assert d[..|d|] == d && d[|d|..] == [];
    if n == 0 {
      assert d == "0";
    } else {
      assert d[0] != '0';
      assert !AllZeros(d);
    }
  }

  /** `String(n)` has no blank, its first character is no `0` unless `n` is 0, and without its sign it is the magnitude's digits. */
  lemma IntStringShape(n: int)
    ensures forall i :: 0 <= i < |IntString(n)| ==> !IsJsSpace(IntString(n)[i])
    ensures StripSign(IntString(n)) == Text.DecimalString(if n < 0 then -n else n)
    ensures n != 0 ==> IntString(n)[0] != '0'
  {
    var d := Text.DecimalString(if n < 0 then -n else n);
    var t := IntString(n);
    forall i | 0 <= i < |t| ensures !IsJsSpace(t[i]) {
      if n < 0 && i > 0 { assert t[i] == d[i - 1]; }
    }
  }

  lemma {:induction false} ExponentAfterDigits(d: string)
    requires Text.AllDigits(d)
    ensures ExponentIndex(d) == |d|
  {
    if d != [] { ExponentAfterDigits(d[1..]); }
  }

  lemma {:induction false} DotAfterDigits(d: string)
    requires Text.AllDigits(d)
    ensures Text.IndexOf(d, '.') == |d|
  {
    if d != [] { DotAfterDigits(d[1..]); }
  }
}
