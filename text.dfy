/**
 * Character-level helpers that the JavaScript sources get from the language:
 * decimal rendering of integers (`toString()`), ASCII lower-casing
 * (`toLowerCase()` restricted to ASCII), splitting on a one-character pattern
 * (`split(/@/g)`) and joining, and the `substr` of a string.
 */
module Text {

  function Pow10(k: nat): (p: nat)
    ensures p >= 1
  {
    if k == 0 then 1 else 10 * Pow10(k - 1)
  }

  predicate IsDigit(c: char)
  {
    '0' <= c <= '9'
  }

  predicate AllDigits(s: string)
  {
    forall i :: 0 <= i < |s| ==> IsDigit(s[i])
  }

  function DigitChar(d: nat): (c: char)
    requires d < 10
    ensures IsDigit(c) && c as int - '0' as int == d
  {
    ('0' as int + d) as char
  }

  /** The decimal digits of `n`, most significant first, with no leading zero. */
  function DecimalString(n: nat): (s: string)
    ensures |s| >= 1 && AllDigits(s)
    ensures (s[0] == '0') == (n == 0)
  {
    if n < 10 then [DigitChar(n)] else DecimalString(n / 10) + [DigitChar(n % 10)]
  }

  /** The number a string of decimal digits denotes. */
  function DecimalValue(s: string): nat
    requires AllDigits(s)
  {
    if s == [] then 0 else 10 * DecimalValue(s[..|s| - 1]) + (s[|s| - 1] as int - '0' as int)
  }

  /** Reading back the rendered digits gives the number. */
  lemma {:induction false} DecimalRoundTrip(n: nat)
    ensures DecimalValue(DecimalString(n)) == n
  {
    if n >= 10 {
      DecimalRoundTrip(n / 10);
      var s := DecimalString(n);
      assert s[..|s| - 1] == DecimalString(n / 10);
    }
  }

  /** `n` has more than `k` digits exactly when it is at least 10^k (and "0" has one digit). */
  lemma {:induction false} DecimalLength(n: nat, k: nat)
    ensures |DecimalString(n)| > k <==> k == 0 || n >= Pow10(k)
  {
    if n >= 10 && k > 0 {
      DecimalLength(n / 10, k - 1);
    } else if k > 0 {
      assert Pow10(k) >= 10 by { if k > 1 { assert Pow10(k) == 10 * Pow10(k - 1); } }
    }
  }

  /** ASCII lower-casing of one character; every other character is left alone. */
  function LowerChar(c: char): char
  {
    if 'A' <= c <= 'Z' then (c as int + 32) as char else c
  }

  function ToLowerAscii(s: string): string
  {
    seq(|s|, i requires 0 <= i < |s| => LowerChar(s[i]))
  }

  /** Lower-casing twice is lower-casing once, and it keeps every non-letter in place. */
  lemma LowerIdempotent(s: string)
    ensures |ToLowerAscii(s)| == |s|
    ensures ToLowerAscii(ToLowerAscii(s)) == ToLowerAscii(s)
    ensures forall i :: 0 <= i < |s| && !('A' <= s[i] <= 'Z') ==> ToLowerAscii(s)[i] == s[i]
    ensures forall i :: 0 <= i < |s| ==> !('A' <= ToLowerAscii(s)[i] <= 'Z')
  {
  }

  /** Lower-casing does not add or remove any occurrence of a non-letter. */
  lemma {:induction false} LowerKeepsCount(s: string, c: char)
    requires !('A' <= c <= 'Z') && !('a' <= c <= 'z')
    ensures multiset(ToLowerAscii(s))[c] == multiset(s)[c]
  {
    if s != [] {
      LowerKeepsCount(s[1..], c);
      assert s == [s[0]] + s[1..];
      assert ToLowerAscii(s) == [LowerChar(s[0])] + ToLowerAscii(s[1..]);
    }
  }

  /**
   * The pieces of `s` between occurrences of `sep`, as `s.split(/sep/g)`
   * gives them: one more piece than there are separators, empty pieces kept.
   */
  function Split(s: string, sep: char): (parts: seq<string>)
    ensures |parts| >= 1
  {
    if s == [] then [""]
    else if s[0] == sep then [""] + Split(s[1..], sep)
    else
      var rest := Split(s[1..], sep);
      [[s[0]] + rest[0]] + rest[1..]
  }

  /** The pieces joined back with `sep` between them (`Array.prototype.join`). */
  function Join(parts: seq<string>, sep: string): string
  {
    if parts == [] then ""
    else if |parts| == 1 then parts[0]
    else parts[0] + sep + Join(parts[1..], sep)
  }

  /** There is one piece more than there are separators, and no piece holds one. */
  lemma {:induction false} SplitCount(s: string, sep: char)
    ensures |Split(s, sep)| == multiset(s)[sep] + 1
    ensures forall i :: 0 <= i < |Split(s, sep)| ==> sep !in Split(s, sep)[i]
  {
    if s != [] {
      SplitCount(s[1..], sep);
      assert s == [s[0]] + s[1..];
    }
  }

  /** Joining the pieces with the separator gives back the string. */
  lemma {:induction false} JoinSplit(s: string, sep: char)
    ensures Join(Split(s, sep), [sep]) == s
  {
    if s != [] {
      JoinSplit(s[1..], sep);
      var rest := Split(s[1..], sep);
      if s[0] == sep {
        assert Split(s, sep) == [""] + rest;
      } else {
        var parts := Split(s, sep);
        assert parts[1..] == rest[1..];
        if |rest| > 1 {
          assert Join(rest, [sep]) == rest[0] + [sep] + Join(rest[1..], [sep]);
        }
      }
    }
  }

  /** Splitting a string with no separator gives the string alone. */
  lemma {:induction false} SplitNone(s: string, sep: char)
    requires sep !in s
    ensures Split(s, sep) == [s]
  {
    if s != [] {
      SplitNone(s[1..], sep);
      assert [s[0]] + s[1..] == s;
    }
  }

  /** Splitting a joined list of separator-free pieces gives the pieces back. */
  lemma {:induction false} SplitJoin(parts: seq<string>, sep: char)
    requires |parts| >= 1
    requires forall i :: 0 <= i < |parts| ==> sep !in parts[i]
    ensures Split(Join(parts, [sep]), sep) == parts
  {
    if |parts| == 1 {
      SplitNone(parts[0], sep);
    } else {
      SplitJoin(parts[1..], sep);
      SplitAfter(parts[0], Join(parts[1..], [sep]), sep);
    }
  }

  /** Splitting `a + sep + b`, with no separator in `a`, splits off `a` first. */
  lemma {:induction false} SplitAfter(a: string, b: string, sep: char)
    requires sep !in a
    ensures Split(a + [sep] + b, sep) == [a] + Split(b, sep)
  {
    if a == [] {
      assert a + [sep] + b == [sep] + b;
      assert ([sep] + b)[1..] == b;
    } else {
      SplitAfter(a[1..], b, sep);
      assert (a + [sep] + b)[1..] == a[1..] + [sep] + b;
      assert [a[0]] + a[1..] == a;
    }
  }

  /** Appending a piece to a non-empty list adds the separator and the piece to the join. */
  lemma {:induction false} JoinSnoc(parts: seq<string>, x: string, sep: string)
    requires parts != []
    ensures Join(parts + [x], sep) == Join(parts, sep) + sep + x
  {
    if |parts| == 1 {
      assert parts + [x] == [parts[0], x];
    } else {
      JoinSnoc(parts[1..], x, sep);
      assert (parts + [x])[1..] == parts[1..] + [x];
    }
  }

  /** Text after a join extends its last piece. */
  lemma {:induction false} JoinExtendLast(parts: seq<string>, x: string, y: string, sep: string)
    ensures Join(parts + [x], sep) + y == Join(parts + [x + y], sep)
  {
    if parts == [] {
      assert parts + [x] == [x] && parts + [x + y] == [x + y];
    } else {
      JoinSnoc(parts, x, sep);
      JoinSnoc(parts, x + y, sep);
      AppendAssoc(Join(parts, sep) + sep, x, y);
    }
  }

  /** A separator between `a` and `b` splits them apart without merging any piece. */
  lemma {:induction false} SplitConcat(a: string, b: string, sep: char)
    ensures Split(a + [sep] + b, sep) == Split(a, sep) + Split(b, sep)
  {
    if a == [] {
      assert a + [sep] + b == [sep] + b;
      SplitCons(sep, b, sep);
    } else {
      var tail := a[1..] + [sep] + b;
      assert a + [sep] + b == [a[0]] + tail by {
        assert a == [a[0]] + a[1..];
        AppendAssoc([a[0]], a[1..], [sep]);
        AppendAssoc([a[0]], a[1..] + [sep], b);
      }
      SplitConcat(a[1..], b, sep);
      SplitCons(a[0], tail, sep);
      assert [a[0]] + a[1..] == a;
      SplitCons(a[0], a[1..], sep);
      SplitStep(a[0], Split(a[1..], sep), Split(b, sep), sep);
    }
  }

  /** One step of `Split` on a head character commutes with appending further pieces. */
  lemma SplitStep(c: char, l: seq<string>, r: seq<string>, sep: char)
    requires |l| >= 1
    ensures (if c == sep then [""] + (l + r) else [[c] + (l + r)[0]] + (l + r)[1..])
         == (if c == sep then [""] + l else [[c] + l[0]] + l[1..]) + r
  {
    if c == sep {
      ConsAssoc("", l, r);
    } else {
      assert (l + r)[0] == l[0];
      assert (l + r)[1..] == l[1..] + r;
      ConsAssoc([c] + l[0], l[1..], r);
    }
  }

  lemma AppendAssoc<T>(a: seq<T>, b: seq<T>, c: seq<T>)
    ensures (a + b) + c == a + (b + c)
  {
  }

  lemma DropAppend<T>(a: seq<T>, b: seq<T>, k: nat)
    requires k <= |a|
    ensures (a + b)[k..] == a[k..] + b
  {
  }

  lemma TakeAppend<T>(a: seq<T>, b: seq<T>)
    ensures (a + b)[..|a|] == a
  {
  }

  lemma ConsAssoc<T>(x: T, l: seq<T>, r: seq<T>)
    ensures [x] + (l + r) == ([x] + l) + r
  {
  }

  /** Splitting a string that starts with `c`: either a fresh empty piece, or `c` joins the first piece. */
  lemma SplitCons(c: char, t: string, sep: char)
    ensures Split([c] + t, sep) ==
      if c == sep then [""] + Split(t, sep) else [[c] + Split(t, sep)[0]] + Split(t, sep)[1..]
  {
    assert ([c] + t)[0] == c;
    assert ([c] + t)[1..] == t;
  }

  /** The position of the first `c` in `s`, or `|s|` when there is none (`indexOf`, with -1 as `|s|`). */
  function IndexOf(s: string, c: char): (k: nat)
    ensures k <= |s|
    ensures forall i :: 0 <= i < k ==> s[i] != c
    ensures k < |s| ==> s[k] == c
  {
    if s == [] then 0 else if s[0] == c then 0 else 1 + IndexOf(s[1..], c)
  }

  /** `IndexOf` finds a position inside `s` exactly when `c` occurs in it. */
  lemma IndexOfFound(s: string, c: char)
    ensures IndexOf(s, c) < |s| <==> c in s
  {
    if c in s {
      var i :| 0 <= i < |s| && s[i] == c;
    }
  }

  /** The first `c` of `a + b` is the first of `a` when `a` has one, else the first of `b` shifted. */
  lemma {:induction false} IndexOfConcat(a: string, b: string, c: char)
    ensures IndexOf(a + b, c) == if c in a then IndexOf(a, c) else |a| + IndexOf(b, c)
  {
    if a == [] {
      assert a + b == b;
    } else if a[0] == c {
      assert (a + b)[0] == c;
    } else {
      IndexOfConcat(a[1..], b, c);
      assert (a + b)[0] == a[0];
      assert (a + b)[1..] == a[1..] + b;
      assert a == [a[0]] + a[1..];
      assert c in a <==> c in a[1..];
    }
  }

  /** The first piece of a split is everything before the first separator. */
  lemma {:induction false} SplitFirst(s: string, sep: char)
    ensures Split(s, sep)[0] == s[..IndexOf(s, sep)]
  {
    if s != [] && s[0] != sep {
      SplitFirst(s[1..], sep);
      assert s[..IndexOf(s, sep)] == [s[0]] + s[1..][..IndexOf(s[1..], sep)];
    }
  }

  /** `s.substr(start, length)` for non-negative arguments: clipped at the end of `s`. */
  function Substr(s: string, start: nat, length: nat): (r: string)
    ensures |r| == if start >= |s| then 0 else if start + length <= |s| then length else |s| - start
    ensures forall i :: 0 <= i < |r| ==> r[i] == s[start + i]
  {
    if start >= |s| then "" else if start + length <= |s| then s[start..start + length] else s[start..]
  }
}
