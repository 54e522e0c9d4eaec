/**
 * The small slice of JavaScript value semantics the loan services rely on:
 * dynamically typed request fields, truthiness, `String.prototype.trim`,
 * the `\s` and `\d` regular-expression classes, and the number results of
 * `parseFloat` (which may be NaN or infinite).
 */
module Js {

  /** A field of a parsed JSON request body. Numbers are finite; NaN and
      Infinity cannot come out of JSON parsing. */
  datatype JsValue =
    | Undefined
    | JsNull
    | JsBool(b: bool)
    | JsString(s: string)
    | JsNumber(n: real)
    | JsObject         // arrays and objects

  /** JavaScript truthiness of a field: `!v` is true exactly when this is false. */
  predicate Truthy(v: JsValue) {
    match v
    case Undefined => false
    case JsNull => false
    case JsBool(b) => b
    case JsString(s) => s != ""
    case JsNumber(n) => n != 0.0
    case JsObject => true
  }

  /** A non-empty string field: the guard `!v || typeof v !== 'string'` fails. */
  predicate IsNonEmptyString(v: JsValue) {
    Truthy(v) && v.JsString?
  }

  /** A positive number field: the guard `!v || typeof v !== 'number' || v <= 0` fails. */
  predicate IsPositiveNumber(v: JsValue) {
    Truthy(v) && v.JsNumber? && v.n > 0.0
  }

  /** A number as produced by `parseFloat`. */
  datatype JsNum = Finite(v: real) | PosInfinity | NegInfinity | NaN

  /** JavaScript division of two finite numbers: a zero divisor gives the
      infinity of the dividend's sign, or NaN when the dividend is 0 too. */
  function Divide(a: real, b: real): JsNum {
    if b != 0.0 then Finite(a / b)
    else if a > 0.0 then PosInfinity
    else if a < 0.0 then NegInfinity
    else NaN
  }

  /** ECMAScript WhiteSpace and LineTerminator code points: the set matched by
      the regular-expression class `\s` and removed by `trim`. */
  predicate IsWhitespace(c: char) {
    || c == '\t' || c == '\n' || c == '\U{B}' || c == '\U{C}' || c == '\r'
    || c == ' ' || c == '\U{A0}' || c == '\U{1680}'
    || ('\U{2000}' <= c <= '\U{200A}')
    || c == '\U{2028}' || c == '\U{2029}' || c == '\U{202F}' || c == '\U{205F}'
    || c == '\U{3000}' || c == '\U{FEFF}'
  }

  /** The regular-expression class `\d`. */
  predicate IsDigit(c: char) {
    '0' <= c <= '9'
  }

  predicate AllWhitespace(s: string) {
    forall i :: 0 <= i < |s| ==> IsWhitespace(s[i])
  }

  predicate AllDigits(s: string) {
    forall i :: 0 <= i < |s| ==> IsDigit(s[i])
  }

  /** `trimStart`: drops leading whitespace. */
  function TrimStart(s: string): (r: string)
    ensures |r| <= |s| && r == s[|s| - |r|..]
    ensures AllWhitespace(s[..|s| - |r|])
    ensures r == [] || !IsWhitespace(r[0])
  {
    if |s| > 0 && IsWhitespace(s[0]) then TrimStart(s[1..]) else s
  }

  /** `trimEnd`: drops trailing whitespace. */
  function TrimEnd(s: string): (r: string)
    ensures |r| <= |s| && r == s[..|r|]
    ensures AllWhitespace(s[|r|..])
    ensures r == [] || !IsWhitespace(r[|r| - 1])
  {
    if |s| > 0 && IsWhitespace(s[|s| - 1]) then
      var r := TrimEnd(s[..|s| - 1]);
      assert s[|r|..] == s[..|s| - 1][|r|..] + [s[|s| - 1]];
      r
    else s
  }

  /** `String.prototype.trim`: the result neither starts nor ends with
      whitespace; `TrimCut` states that it is the piece of `s` between its
      leading and its trailing whitespace. */
  function Trim(s: string): (r: string)
    ensures |r| <= |s|
    ensures r == [] || (!IsWhitespace(r[0]) && !IsWhitespace(r[|r| - 1]))
  {
    TrimEnd(TrimStart(s))
  }

  /** Trimming only removes whitespace, and only at the two ends: the result
      is a slice of `s` with nothing but whitespace before and after it. */
  lemma TrimCut(s: string)
    ensures exists k :: 0 <= k && k + |Trim(s)| <= |s| && Trim(s) == s[k..k + |Trim(s)|]
                        && AllWhitespace(s[..k]) && AllWhitespace(s[k + |Trim(s)|..])
  {
    CutBetween(s, TrimStart(s), Trim(s));
  }

  /** A prefix `r` of a suffix `t` of `s`, with whitespace before `t` and
      after `r`, is a slice of `s` with whitespace around it. */
  lemma CutBetween(s: string, t: string, r: string)
    requires |t| <= |s| && t == s[|s| - |t|..] && AllWhitespace(s[..|s| - |t|])
    requires |r| <= |t| && r == t[..|r|] && AllWhitespace(t[|r|..])
    ensures exists k :: 0 <= k && k + |r| <= |s| && r == s[k..k + |r|]
                        && AllWhitespace(s[..k]) && AllWhitespace(s[k + |r|..])
  {
    var k := |s| - |t|;
    assert s[k..k + |r|] == r;
    assert s[k + |r|..] == t[|r|..];
  }

  /** `s.trim().length === 0` holds exactly for strings made only of whitespace. */
  lemma TrimEmptyIffBlank(s: string)
    ensures Trim(s) == [] <==> AllWhitespace(s)
  {
    var t := TrimStart(s);
    var k := |s| - |t|;
    if Trim(s) == [] {
      assert AllWhitespace(t[0..]);
      assert s == s[..k];
    }
  }

  /** Trimming leaves a string with neither leading nor trailing whitespace
      untouched, so trimming twice is the same as trimming once. */
  lemma TrimIdempotent(s: string)
    ensures Trim(Trim(s)) == Trim(s)
  {
    var t := Trim(s);
    var u := TrimStart(s);
    if t != [] {
      assert t[0] == u[0];
    }
  }

  /** The digit character for `d`. */
  function DigitChar(d: nat): (c: char)
    requires d < 10
    ensures IsDigit(c) && (c as int) - ('0' as int) == d
  {
    (('0' as int) + d) as char
  }

  /** The number a string of decimal digits spells (leading zeros allowed),
      as `parseInt(s, 10)` reads it on exact integers. */
  function DigitsValue(s: string): nat
    requires AllDigits(s)
  {
    if s == [] then 0
    else DigitsValue(s[..|s| - 1]) * 10 + ((s[|s| - 1] as int) - ('0' as int))
  }

  /** `String(n)` for a natural number: its decimal digits, without leading
      zeros. */
  function NatToString(n: nat): (r: string)
    ensures AllDigits(r) && |r| >= 1
    ensures |r| > 1 ==> r[0] != '0'
  {
    if n < 10 then [DigitChar(n)] else NatToString(n / 10) + [DigitChar(n % 10)]
  }

  /** Reading back the digits of `String(n)` gives `n`. */
  lemma {:induction false} NatToStringValue(n: nat)
    ensures DigitsValue(NatToString(n)) == n
  {
    var r := NatToString(n);
    if n >= 10 {
      NatToStringValue(n / 10);
      assert r[..|r| - 1] == NatToString(n / 10);
    }
  }

  /** Two numbers with the same text are the same number. */
  lemma NatToStringInjective(a: nat, b: nat)
    requires NatToString(a) == NatToString(b)
    ensures a == b
  {
    NatToStringValue(a);
    NatToStringValue(b);
  }
}
