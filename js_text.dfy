/**
 * The JavaScript string built-ins that the middleware and the contact route
 * rely on: the whitespace class shared by `String.prototype.trim` and the
 * regular-expression escape `\s`, `trim` itself, the first field of
 * `split(',')`, `startsWith`, and `Number.prototype.toString` on integers.
 */
module JsText {

  /** ECMAScript WhiteSpace and LineTerminator code points. */
  const JsWhitespace: set<char> := {
    '\t', '\n', '\U{B}', '\U{C}', '\r', ' ', '\U{A0}', '\U{1680}',
    '\U{2000}', '\U{2001}', '\U{2002}', '\U{2003}', '\U{2004}', '\U{2005}',
    '\U{2006}', '\U{2007}', '\U{2008}', '\U{2009}', '\U{200A}',
    '\U{2028}', '\U{2029}', '\U{202F}', '\U{205F}', '\U{3000}', '\U{FEFF}'
  }

  predicate IsJsWhitespace(c: char) {
    c in JsWhitespace
  }

  /** Every character of `s` at positions `lo` to `hi - 1` is whitespace. */
  predicate WhitespaceBetween(s: string, lo: int, hi: int)
    requires 0 <= lo <= hi <= |s|
  {
    forall i :: lo <= i < hi ==> IsJsWhitespace(s[i])
  }

  /** `s` has no whitespace at either end. */
  predicate IsTrimmed(s: string) {
    s != [] ==> !IsJsWhitespace(s[0]) && !IsJsWhitespace(s[|s| - 1])
  }

  /** `sub` occurs in `s` starting at index `i`. */
  predicate InfixAt(sub: string, s: string, i: int) {
    0 <= i <= |s| - |sub| && sub == s[i..i + |sub|]
  }

  /** Both parts of a concatenation occur in it, at offsets 0 and `|a|`. */
  lemma InfixOfConcat(a: string, b: string)
    ensures InfixAt(a, a + b, 0) && InfixAt(b, a + b, |a|)
  {
    assert (a + b)[..|a|] == a;
    assert (a + b)[|a|..|a| + |b|] == b;
  }

  /** An infix of an infix is an infix, at the sum of the offsets. */
  lemma InfixTrans(x: string, s: string, t: string, i: int, j: int)
    requires InfixAt(x, s, i) && InfixAt(s, t, j)
    ensures InfixAt(x, t, j + i)
  {
    forall k | 0 <= k < |x| ensures x[k] == t[j + i + k] {
      assert x[k] == s[i + k] == t[j + i + k];
    }
  }

  /** Leading whitespace removed: what remains is a suffix of `s`, and only whitespace was dropped. */
  function TrimStart(s: string): (r: string)
    ensures |r| <= |s| && InfixAt(r, s, |s| - |r|)
    ensures WhitespaceBetween(s, 0, |s| - |r|)
    ensures r != [] ==> !IsJsWhitespace(r[0])
  {
    if s != [] && IsJsWhitespace(s[0]) then
      var r := TrimStart(s[1..]);
      assert r == s[|s| - |r|..];
      r
    else s
  }

  /** Trailing whitespace removed: what remains is a prefix of `s`, and only whitespace was dropped. */
  function TrimEnd(s: string): (r: string)
    ensures InfixAt(r, s, 0)
    ensures WhitespaceBetween(s, |r|, |s|)
    ensures r != [] ==> !IsJsWhitespace(r[|r| - 1])
  {
    if s != [] && IsJsWhitespace(s[|s| - 1]) then
      var r := TrimEnd(s[..|s| - 1]);
      assert r == s[..|r|];
      r
    else s
  }

  /** `String.prototype.trim`: the slice of `s` left after dropping whitespace at both ends. */
  function Trim(s: string): (r: string)
    ensures IsTrimmed(r)
    ensures exists i :: InfixAt(r, s, i) && WhitespaceBetween(s, 0, i) && WhitespaceBetween(s, i + |r|, |s|)
  {
    var t := TrimStart(s);
    var r := TrimEnd(t);
    TrimSlices(s, t, r);
    r
  }

  lemma TrimSlices(s: string, t: string, r: string)
    requires |t| <= |s| && InfixAt(t, s, |s| - |t|) && InfixAt(r, t, 0)
    requires WhitespaceBetween(s, 0, |s| - |t|) && WhitespaceBetween(t, |r|, |t|)
    requires t != [] ==> !IsJsWhitespace(t[0])
    requires r != [] ==> !IsJsWhitespace(r[|r| - 1])
    ensures IsTrimmed(r)
    ensures exists i :: InfixAt(r, s, i) && WhitespaceBetween(s, 0, i) && WhitespaceBetween(s, i + |r|, |s|)
  {
    var i := |s| - |t|;
    forall k | i + |r| <= k < |s| ensures IsJsWhitespace(s[k]) {
      assert s[k] == t[k - i];
    }
    assert InfixAt(r, s, i);
    if r != [] {
      assert r[0] == t[0];
    }
  }

  /** `s.split(',')[0]`: everything before the first comma, or all of `s` when it has none. */
  function FirstField(s: string): (r: string)
    ensures InfixAt(r, s, 0)
    ensures ',' !in r
    ensures |r| == |s| || s[|r|] == ','
  {
    if s == [] || s[0] == ',' then [] else [s[0]] + FirstField(s[1..])
  }

  predicate StartsWith(s: string, prefix: string) {
    |prefix| <= |s| && s[..|prefix|] == prefix
  }

  function DigitChar(d: nat): (c: char)
    requires d < 10
    ensures '0' <= c <= '9'
  {
    ['0', '1', '2', '3', '4', '5', '6', '7', '8', '9'][d]
  }

  function DigitValue(c: char): nat
    requires '0' <= c <= '9'
  {
    c as int - '0' as int
  }

  lemma DigitRoundTrip(d: nat)
    requires d < 10
    ensures DigitValue(DigitChar(d)) == d
  {
  }

  /** Decimal digits of a natural number, most significant first, without leading zeros. */
  function Decimal(n: nat): (s: string)
    ensures s != []
    ensures forall i :: 0 <= i < |s| ==> '0' <= s[i] <= '9'
    ensures s[0] == '0' ==> s == "0"
    ensures n < 10 ==> |s| == 1
  {
    if n < 10 then [DigitChar(n)] else Decimal(n / 10) + [DigitChar(n % 10)]
  }

  /** The value of a string of decimal digits. */
  function ParseDecimal(s: string): nat
    requires forall i :: 0 <= i < |s| ==> '0' <= s[i] <= '9'
  {
    if s == [] then 0 else 10 * ParseDecimal(s[..|s| - 1]) + DigitValue(s[|s| - 1])
  }

  /** Reading the digits back gives the number: `Decimal` loses nothing. */
  lemma {:induction false} ParseDecimalOfDecimal(n: nat)
    ensures ParseDecimal(Decimal(n)) == n
  {
    var s := Decimal(n);
    if n < 10 {
      DigitRoundTrip(n);
    } else {
      ParseDecimalOfDecimal(n / 10);
      DigitRoundTrip(n % 10);
      assert s == Decimal(n / 10) + [DigitChar(n % 10)];
      assert s[..|s| - 1] == Decimal(n / 10);
    }
  }

  /** Canonical decimal: non-empty, only digits, and no leading zero unless it is `0` itself. */
  predicate IsCanonicalDecimal(s: string) {
    && s != []
    && (forall i :: 0 <= i < |s| ==> '0' <= s[i] <= '9')
    && (s[0] == '0' ==> s == "0")
  }

  /**
   * `Number.prototype.toString` on an integer-valued number: the canonical
   * decimal of its magnitude, preceded by `-` when it is negative.
   */
  function NumberString(n: int): (s: string)
    ensures n >= 0 ==> IsCanonicalDecimal(s) && ParseDecimal(s) == n
    ensures n < 0 ==> s != [] && s[0] == '-' && IsCanonicalDecimal(s[1..]) && ParseDecimal(s[1..]) == -n
  {
    if n < 0 then
      var d := Decimal(-n);
      ParseDecimalOfDecimal(-n);
      assert ("-" + d)[1..] == d;
      "-" + d
    else
      ParseDecimalOfDecimal(n);
      Decimal(n)
  }

  const ErrorJsonHead: string := "{\"error\":\""

  /** `JSON.stringify({ error: message })` for a message without quotes, backslashes or control characters. */
  function ErrorJson(message: string): (json: string)
    ensures StartsWith(json, ErrorJsonHead) && |json| == |ErrorJsonHead| + |message| + 2
    ensures json[|ErrorJsonHead|..|json| - 2] == message && json[|json| - 2..] == "\"}"
  {
    ErrorJsonHead + message + "\"}"
  }

}
