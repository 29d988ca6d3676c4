/** String primitives shared by the backend normaliser and the frontend
    formatters: ECMAScript white space (as matched by `\s` and stripped by
    `String.prototype.trim`), trimming, decimal rendering of integers and
    `Array.prototype.join`. */
module Text {

  import opened Wrappers

  /** ECMAScript WhiteSpace and LineTerminator code points: exactly the
      characters `\s` matches and `trim` removes. */
  predicate IsSpace(c: char) {
    || c == '\t' || c == '\U{B}' || c == '\U{C}' || c == ' ' || c == '\U{A0}'
    || c == '\U{FEFF}' || c == '\U{1680}' || ('\U{2000}' <= c <= '\U{200A}')
    || c == '\U{202F}' || c == '\U{205F}' || c == '\U{3000}'
    || c == '\n' || c == '\r' || c == '\U{2028}' || c == '\U{2029}'
  }

  /** Every character is white space (vacuously true of ""). */
  predicate Blank(s: string) {
    forall i :: 0 <= i < |s| ==> IsSpace(s[i])
  }

  /** Neither end of `s` is white space. */
  predicate Trimmed(s: string) {
    s == [] || (!IsSpace(s[0]) && !IsSpace(s[|s| - 1]))
  }

  /** `trimStart`: the longest suffix of `s` that does not start with white space. */
  function TrimStart(s: string): (r: string)
    ensures |r| <= |s| && r == s[|s| - |r|..]
    ensures r == [] || !IsSpace(r[0])
  {
    if |s| > 0 && IsSpace(s[0]) then TrimStart(s[1..]) else s
  }

  /** `trimEnd`: the longest prefix of `s` that does not end with white space. */
  function TrimEnd(s: string): (r: string)
    ensures |r| <= |s| && r == s[..|r|]
    ensures r == [] || !IsSpace(r[|r| - 1])
  {
    if |s| > 0 && IsSpace(s[|s| - 1]) then TrimEnd(s[..|s| - 1]) else s
  }

  /** `String.prototype.trim`: `s` without its leading and trailing white space. */
  function Trim(s: string): (r: string)
    ensures Trimmed(r)
    ensures |r| <= |s|
    ensures r == [] <==> Blank(s)
  {
    TrimEmptyIffBlank(s);
    var t := TrimStart(s);
    var r := TrimEnd(t);
    assert r != [] ==> r[0] == t[0];
    r
  }

  lemma {:induction false} TrimStartEmptyIffBlank(s: string)
    ensures TrimStart(s) == [] <==> Blank(s)
    decreases |s|
  {
    if |s| > 0 && IsSpace(s[0]) {
      TrimStartEmptyIffBlank(s[1..]);
      assert forall k :: 1 <= k < |s| ==> s[k] == s[1..][k - 1];
    }
  }

  lemma {:induction false} TrimEndEmptyIffBlank(s: string)
    ensures TrimEnd(s) == [] <==> Blank(s)
    decreases |s|
  {
    if |s| > 0 && IsSpace(s[|s| - 1]) {
      TrimEndEmptyIffBlank(s[..|s| - 1]);
      assert forall k :: 0 <= k < |s| - 1 ==> s[k] == s[..|s| - 1][k];
    }
  }

  lemma TrimEmptyIffBlank(s: string)
    ensures TrimEnd(TrimStart(s)) == [] <==> Blank(s)
  {
    TrimStartEmptyIffBlank(s);
    TrimEndEmptyIffBlank(TrimStart(s));
  }

  /** Trimming text that is already trimmed changes nothing. */
  lemma {:induction false} TrimOfTrimmed(s: string)
    requires Trimmed(s)
    ensures Trim(s) == s
  {
    if s != [] {
      assert TrimStart(s) == s;
      assert TrimEnd(s) == s;
    }
  }

  /** Blank padding on either side of trimmed text is exactly what `trim` removes. */
  lemma {:induction false} TrimPadded(a: string, s: string, b: string)
    requires Blank(a) && Blank(b) && Trimmed(s) && s != []
    ensures Trim(a + s + b) == s
  {
    var t := s + b;
    assert a + s + b == a + t;
    TrimStartPadded(a, t);
    TrimEndPadded(s, b);
    assert TrimEnd(TrimStart(a + s + b)) == s;
  }

  lemma {:induction false} TrimStartPadded(a: string, t: string)
    requires Blank(a) && t != [] && !IsSpace(t[0])
    ensures TrimStart(a + t) == t
    decreases |a|
  {
    if a == [] {
      assert a + t == t;
    } else {
      assert (a + t)[1..] == a[1..] + t;
      TrimStartPadded(a[1..], t);
    }
  }

  lemma {:induction false} TrimEndPadded(t: string, b: string)
    requires Blank(b) && t != [] && !IsSpace(t[|t| - 1])
    ensures TrimEnd(t + b) == t
    decreases |b|
  {
    if b == [] {
      assert t + b == t;
    } else {
      assert (t + b)[..|t + b| - 1] == t + b[..|b| - 1];
      TrimEndPadded(t, b[..|b| - 1]);
    }
  }

  predicate IsDigit(c: char) {
    '0' as int <= c as int <= '9' as int
  }

  function DigitChar(d: nat): (c: char)
    requires d < 10
    ensures IsDigit(c) && c as int - '0' as int == d
  {
    ('0' as int + d) as char
  }

  /** Decimal digits of `n`, most significant first, without leading zeros. */
  function NatToString(n: nat): (r: string)
    ensures |r| > 0
    ensures forall i :: 0 <= i < |r| ==> IsDigit(r[i])
    ensures |r| > 1 ==> r[0] != '0'
    decreases n
  {
    if n < 10 then [DigitChar(n)] else NatToString(n / 10) + [DigitChar(n % 10)]
  }

  /** The number a string of decimal digits denotes. */
  function DigitsValue(s: string): nat
    requires forall i :: 0 <= i < |s| ==> IsDigit(s[i])
  {
    if s == [] then 0
    else
      var d := s[|s| - 1];
      assert IsDigit(d);
      DigitsValue(s[..|s| - 1]) * 10 + (d as int - '0' as int)
  }

  /** ECMAScript's `String(n)` for an integral Number below 10^21 in
      magnitude: an optional minus sign followed by the decimal digits of
      the magnitude. */
  function IntToString(n: int): (r: string)
    ensures |r| > 0 && !IsSpace(r[0]) && !IsSpace(r[|r| - 1])
    ensures r[0] == '-' <==> n < 0
  {
    if n < 0 then "-" + NatToString(-n) else NatToString(n)
  }

  /** Reads back an optional minus sign followed by one or more decimal digits. */
  function ParseInt(s: string): Option<int> {
    if |s| > 0 && s[0] == '-' then
      if |s| > 1 && forall i :: 1 <= i < |s| ==> IsDigit(s[i]) then (var v: int := DigitsValue(s[1..]); Some(-v)) else None
    else if |s| > 0 && forall i :: 0 <= i < |s| ==> IsDigit(s[i]) then Some(DigitsValue(s))
    else None
  }

  lemma {:induction false} NatToStringRoundTrip(n: nat)
    ensures DigitsValue(NatToString(n)) == n
    decreases n
  {
    if n >= 10 {
      var s := NatToString(n);
      NatToStringRoundTrip(n / 10);
      assert s[..|s| - 1] == NatToString(n / 10);
    }
  }

  /** Decimal rendering of an integer is read back as the same integer. */
  lemma IntToStringRoundTrip(n: int)
    ensures ParseInt(IntToString(n)) == Some(n)
  {
    if n < 0 {
      NatToStringRoundTrip(-n);
      assert IntToString(n)[1..] == NatToString(-n);
    } else {
      NatToStringRoundTrip(n);
    }
  }

  /** `parts.join(sep)`. */
  function Join(parts: seq<string>, sep: string): (r: string)
    ensures |parts| == 1 ==> r == parts[0]
    ensures parts == [] ==> r == ""
  {
    if |parts| == 0 then ""
    else if |parts| == 1 then parts[0]
    else parts[0] + sep + Join(parts[1..], sep)
  }

  /** The longest prefix of `s` made of decimal digits. */
  function DigitPrefix(s: string): (r: string)
    ensures |r| <= |s| && r == s[..|r|]
    ensures forall i :: 0 <= i < |r| ==> IsDigit(r[i])
    ensures |r| < |s| ==> !IsDigit(s[|r|])
  {
    if |s| > 0 && IsDigit(s[0]) then [s[0]] + DigitPrefix(s[1..]) else []
  }

  /** `Number.parseInt(s, 10)`: leading white space is skipped, then an
      optional `+` or `-`, then the longest run of decimal digits; `None`
      stands for `NaN`, which is the result when that run is empty. */
  function ParseIntPrefix(s: string): Option<int> {
    ParseSigned(TrimStart(s))
  }

  /** `parseInt` once the leading white space is gone. */
  function ParseSigned(t: string): Option<int> {
    var u := if |t| > 0 && (t[0] == '-' || t[0] == '+') then t[1..] else t;
    var d := DigitPrefix(u);
    if d == [] then None
    else
      var v: int := DigitsValue(d);
      Some(if |t| > 0 && t[0] == '-' then -v else v)
  }

  /** Digits followed by a non-digit: the prefix stops at the digits. */
  lemma {:induction false} DigitPrefixOfDigits(d: string, tail: string)
    requires forall i :: 0 <= i < |d| ==> IsDigit(d[i])
    requires tail == [] || !IsDigit(tail[0])
    ensures DigitPrefix(d + tail) == d
  {
    if |d| > 0 {
      assert (d + tail)[1..] == d[1..] + tail;
      DigitPrefixOfDigits(d[1..], tail);
    } else {
      assert d + tail == tail;
    }
  }

  /** `parseInt` reads back the decimal rendering of an integer after any
      blank prefix and before any tail that does not start with a digit. */
  lemma ParseIntPrefixOfIntToString(a: string, n: int, tail: string)
    requires Blank(a)
    requires tail == [] || !IsDigit(tail[0])
    ensures ParseIntPrefix(a + IntToString(n) + tail) == Some(n)
  {
    var body := IntToString(n) + tail;
    assert a + IntToString(n) + tail == a + body;
    ParseIntPrefixSkipsBlank(a, body);
    ParseIntPrefixUnpadded(n, tail);
  }

  lemma ParseIntPrefixSkipsBlank(a: string, body: string)
    requires Blank(a) && body != [] && !IsSpace(body[0])
    ensures ParseIntPrefix(a + body) == ParseSigned(body)
  {
    TrimStartPadded(a, body);
  }

  lemma ParseIntPrefixUnpadded(n: int, tail: string)
    requires tail == [] || !IsDigit(tail[0])
    ensures ParseSigned(IntToString(n) + tail) == Some(n)
  {
    if n < 0 {
      assert IntToString(n) + tail == "-" + NatToString(-n) + tail;
      ParseNegative(-n, tail);
    } else {
      assert IntToString(n) == NatToString(n);
      ParseNonNegative(n, tail);
    }
  }

  lemma ParseNegative(m: nat, tail: string)
    requires m > 0
    requires tail == [] || !IsDigit(tail[0])
    ensures ParseSigned("-" + NatToString(m) + tail) == Some(-(m as int))
  {
    var d := NatToString(m);
    assert "-" + d + tail == "-" + (d + tail);
    DigitPrefixOfDigits(d, tail);
    NatToStringRoundTrip(m);
    ParseSignedMinus(d + tail);
  }

  /** After a minus sign, `parseInt` negates the value of the digit run. */
  lemma ParseSignedMinus(u: string)
    ensures var d := DigitPrefix(u);
      ParseSigned("-" + u) == if d == [] then None else Some(-(DigitsValue(d) as int))
  {
    assert ("-" + u)[1..] == u;
  }

  lemma ParseNonNegative(n: nat, tail: string)
    requires tail == [] || !IsDigit(tail[0])
    ensures ParseSigned(NatToString(n) + tail) == Some(n)
  {
    var body := NatToString(n) + tail;
    DigitPrefixOfDigits(NatToString(n), tail);
    NatToStringRoundTrip(n);
    assert body[0] == NatToString(n)[0];
  }

  /** A string with no digit at all parses to `NaN`. */
  lemma ParseIntPrefixNoDigits(s: string)
    requires forall i :: 0 <= i < |s| ==> !IsDigit(s[i])
    ensures ParseIntPrefix(s) == None
  {
    var t := TrimStart(s);
    assert t == s[|s| - |t|..];
    if t != [] {
      assert t[0] == s[|s| - |t|];
      assert t[0] != '-' && t[0] != '+' ==> DigitPrefix(t) == [];
      if t[0] == '-' || t[0] == '+' {
        var u := t[1..];
        assert u == [] || u[0] == s[|s| - |t| + 1];
        assert DigitPrefix(u) == [];
      }
    }
  }
}
