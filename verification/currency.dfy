/**
 * The app's Brazilian-real text handling (`utils/currency.ts`): reading an
 * amount typed as "R$ 1.234,56", the digits-only input mask that turns
 * "123456" into "1.234,56", the shape check on currency text and the range
 * check on the amount it denotes.
 *
 * Amounts that are formatted are whole numbers of cents (`int`); text is
 * `seq<char>`. `parseFloat` is modelled on exact reals, so precision loss and
 * overflow to Infinity on huge inputs are not.
 */
module Currency {
  import opened Wrappers
  import opened Js

  /** `CURRENCY_CONSTRAINTS`. */
  const MinValue: real := 0.01
  const MaxValue: real := 999999999.99
  const MaxInputLength: nat := 15

  /** The same bounds in cents. */
  const MinCents: int := 1
  const MaxCents: int := 99999999999

  const InvalidValue: string := "Valor inválido"

  // ---------------------------------------------------------------------
  // Character-level rewriting

  /** The characters of `s` that satisfy `keep`, in order. */
  function Keep(s: string, keep: char -> bool): (r: string)
    ensures |r| <= |s|
    ensures forall i :: 0 <= i < |r| ==> keep(r[i])
  {
    if s == [] then [] else (if keep(s[0]) then [s[0]] else []) + Keep(s[1..], keep)
  }

  lemma {:induction false} KeepAppend(a: string, b: string, keep: char -> bool)
    ensures Keep(a + b, keep) == Keep(a, keep) + Keep(b, keep)
  {
    if a != [] {
      var head := if keep(a[0]) then [a[0]] else [];
      assert (a + b)[0] == a[0];
      assert (a + b)[1..] == a[1..] + b;
      KeepAppend(a[1..], b, keep);
      assert Keep(a + b, keep) == head + Keep(a[1..] + b, keep);
      assert Keep(a, keep) == head + Keep(a[1..], keep);
    } else {
      assert a + b == b;
    }
  }

  lemma {:induction false} KeepEverything(s: string, keep: char -> bool)
    requires forall i :: 0 <= i < |s| ==> keep(s[i])
    ensures Keep(s, keep) == s
  {
    if s != [] {
      KeepEverything(s[1..], keep);
    }
  }

  predicate NotDot(c: char) {
    c != '.'
  }

  /** `replace(/\D/g, '')`: only the decimal digits. */
  function Digits(s: string): (r: string)
    ensures AllDigits(r)
  {
    Keep(s, IsDigit)
  }

  /** `replace(/\./g, '')`. */
  function RemoveDots(s: string): (r: string)
    ensures forall i :: 0 <= i < |r| ==> r[i] != '.'
  {
    Keep(s, NotDot)
  }

  /** `replace(/,/g, '.')`. */
  function CommasToPoints(s: string): (r: string)
    ensures |r| == |s|
    ensures forall i :: 0 <= i < |s| ==> r[i] == (if s[i] == ',' then '.' else s[i])
  {
    seq(|s|, i requires 0 <= i < |s| => if s[i] == ',' then '.' else s[i])
  }

  lemma CommasToPointsAppend(a: string, b: string)
    ensures CommasToPoints(a + b) == CommasToPoints(a) + CommasToPoints(b)
  {
  }

  /** `replace(/R\$\s?/g, '')`: every "R$" met in a left-to-right scan is
      removed together with one whitespace character after it, if any. The
      scan does not revisit its output, so "RR$$" leaves "R$". */
  function StripCurrencySymbol(s: string): (r: string)
    ensures |r| <= |s|
  {
    if |s| >= 2 && s[0] == 'R' && s[1] == '$' then
      if |s| >= 3 && IsWhitespace(s[2]) then StripCurrencySymbol(s[3..]) else StripCurrencySymbol(s[2..])
    else if s == [] then []
    else [s[0]] + StripCurrencySymbol(s[1..])
  }

  /** Text without an 'R' has nothing to strip. */
  lemma {:induction false} StripWithoutSymbol(s: string)
    requires forall i :: 0 <= i < |s| ==> s[i] != 'R'
    ensures StripCurrencySymbol(s) == s
  {
    if s != [] {
      StripWithoutSymbol(s[1..]);
    }
  }

  // ---------------------------------------------------------------------
  // Digit strings and their values

  function Pow10(n: nat): (r: nat)
    ensures r >= 1
  {
    if n == 0 then 1 else 10 * Pow10(n - 1)
  }

  /** Multiplication by ten to an integer power. */
  function Scale(e: int): (r: real)
    ensures r > 0.0
  {
    if e >= 0 then Pow10(e) as real else 1.0 / Pow10(-e) as real
  }

  lemma AllDigitsAppend(a: string, b: string)
    requires AllDigits(a) && AllDigits(b)
    ensures AllDigits(a + b)
  {
  }

  /** Reading `a + b` digit by digit: the value of `a` shifted left by `|b|`
      places, plus the value of `b`. */
  lemma {:induction false} DigitsValueAppend(a: string, b: string)
    requires AllDigits(a) && AllDigits(b)
    ensures AllDigits(a + b)
    ensures DigitsValue(a + b) == DigitsValue(a) * Pow10(|b|) + DigitsValue(b)
  {
    if b == [] {
      assert a + b == a;
    } else {
      var c := b[..|b| - 1];
      var last := (b[|b| - 1] as int) - ('0' as int);
      assert (a + b)[..|a + b| - 1] == a + c;
      DigitsValueAppend(a, c);
      assert DigitsValue(a + b) == DigitsValue(a + c) * 10 + last;
      assert Pow10(|b|) == Pow10(|c|) * 10;
      assert DigitsValue(b) == DigitsValue(c) * 10 + last;
      ShiftStep(DigitsValue(a), Pow10(|c|), DigitsValue(c), last);
    }
  }

  lemma ShiftStep(a: int, p: int, c: int, last: int)
    ensures (a * p + c) * 10 + last == a * (p * 10) + (c * 10 + last)
  {
  }

  /** The two digits of a number below 100, with a leading zero. */
  function TwoDigits(n: nat): (r: string)
    requires n < 100
    ensures |r| == 2 && AllDigits(r)
    ensures DigitsValue(r) == n
  {
    var r := [DigitChar(n / 10), DigitChar(n % 10)];
    assert r[..1] == [DigitChar(n / 10)];
    assert r[..1][..0] == [];
    assert DigitsValue(r[..1]) == n / 10;
    r
  }

  /** The digits of `n` with a '.' before every group of three, counted from
      the right: the pt-BR thousands grouping. */
  function Grouped(d: string): (r: string)
    decreases |d|
  {
    if |d| <= 3 then d else Grouped(d[..|d| - 3]) + "." + d[|d| - 3..]
  }

  /** The regular expression `\d{1,3}(\.\d{3})*`. */
  predicate IsGroupedDigits(g: string)
    decreases |g|
  {
    if |g| <= 3 then 1 <= |g| && AllDigits(g)
    else g[|g| - 4] == '.' && AllDigits(g[|g| - 3..]) && IsGroupedDigits(g[..|g| - 4])
  }

  /** Grouping a non-empty digit string gives text of the grouped shape. */
  lemma {:induction false} GroupedShape(d: string)
    requires AllDigits(d) && |d| >= 1
    ensures IsGroupedDigits(Grouped(d))
  {
    if |d| > 3 {
      var g := Grouped(d);
      var gh := Grouped(d[..|d| - 3]);
      GroupedShape(d[..|d| - 3]);
      assert g == gh + "." + d[|d| - 3..];
      assert g[..|g| - 4] == gh;
      assert g[|g| - 3..] == d[|d| - 3..];
    }
  }

  /** Grouping only inserts dots: dropping the dots, or keeping only the
      digits, gives the digits back. */
  lemma GroupedContents(d: string)
    requires AllDigits(d)
    ensures RemoveDots(Grouped(d)) == d
    ensures Digits(Grouped(d)) == d
  {
    GroupedKeep(d, NotDot);
    GroupedKeep(d, IsDigit);
  }

  lemma {:induction false} GroupedKeep(d: string, keep: char -> bool)
    requires forall i :: 0 <= i < |d| ==> keep(d[i])
    requires !keep('.')
    ensures Keep(Grouped(d), keep) == d
  {
    if |d| <= 3 {
      KeepEverything(d, keep);
    } else {
      var head := d[..|d| - 3];
      var tail := d[|d| - 3..];
      GroupedKeep(head, keep);
      assert Grouped(d) == Grouped(head) + "." + tail;
      KeepEverything(tail, keep);
      KeepAround(Grouped(head), tail, keep);
      assert d == head + tail;
    }
  }

  /** Keeping from `g + "." + t` drops the dot and keeps the rest. */
  lemma KeepAround(g: string, t: string, keep: char -> bool)
    requires !keep('.')
    ensures Keep(g + "." + t, keep) == Keep(g, keep) + Keep(t, keep)
  {
    var dot: string := ".";
    KeepAppend(g + dot, t, keep);
    KeepAppend(g, dot, keep);
    KeepDot(dot, keep);
    assert Keep(g, keep) + [] == Keep(g, keep);
  }

  lemma KeepDot(dot: string, keep: char -> bool)
    requires dot == "." && !keep('.')
    ensures Keep(dot, keep) == []
  {
    assert dot[1..] == [];
    assert dot[0] == '.';
  }

  /** Grouped text holds only digits and dots. */
  lemma {:induction false} GroupedCharacters(d: string)
    requires AllDigits(d)
    ensures forall i :: 0 <= i < |Grouped(d)| ==> IsDigit(Grouped(d)[i]) || Grouped(d)[i] == '.'
  {
    if |d| > 3 {
      GroupedCharacters(d[..|d| - 3]);
    }
  }

  // ---------------------------------------------------------------------
  // parseFloat

  /** The longest prefix of decimal digits. */
  function LeadingDigits(s: string): (r: string)
    ensures AllDigits(r) && |r| <= |s| && r == s[..|r|]
    ensures |r| < |s| ==> !IsDigit(s[|r|])
  {
    if s != [] && IsDigit(s[0]) then [s[0]] + LeadingDigits(s[1..]) else []
  }

  /** The value of an exponent part `[eE][+-]?\d+` at the start of `s`, or 0
      when there is none (the text after the number is then ignored). */
  function ExponentOf(s: string): int {
    if |s| >= 2 && (s[0] == 'e' || s[0] == 'E') then
      var signed := s[1] == '+' || s[1] == '-';
      var digits := LeadingDigits(if signed then s[2..] else s[1..]);
      var magnitude: int := if digits == [] then 0 else DigitsValue(digits);
      if s[1] == '-' then -magnitude else magnitude
    else 0
  }

  /** An unsigned number at the start of `t`: "Infinity", or digits with an
      optional fraction after '.', then an optional exponent. NaN when `t`
      starts with neither. */
  function ParseUnsigned(t: string): JsNum {
    if |t| >= 8 && t[..8] == "Infinity" then PosInfinity
    else
      var whole := LeadingDigits(t);
      ParseDecimal(whole, t[|whole|..])
  }

  /** The number whose integer digits are `whole`, read on from `rest`. */
  function ParseDecimal(whole: string, rest: string): JsNum
    requires AllDigits(whole)
  {
    if rest != [] && rest[0] == '.' then
      var fraction := LeadingDigits(rest[1..]);
      DecimalValue(whole, fraction, rest[1 + |fraction|..])
    else DecimalValue(whole, [], rest)
  }

  /** Integer digits, fraction digits and the text after them; NaN when
      there are no digits at all. */
  function DecimalValue(whole: string, fraction: string, tail: string): JsNum
    requires AllDigits(whole) && AllDigits(fraction)
  {
    if whole == [] && fraction == [] then NaN
    else
      AllDigitsAppend(whole, fraction);
      Finite(DigitsValue(whole + fraction) as real * Scale(ExponentOf(tail) - |fraction|))
  }

  function Negate(x: JsNum): JsNum {
    match x
    case Finite(v) => Finite(-v)
    case PosInfinity => NegInfinity
    case NegInfinity => PosInfinity
    case NaN => NaN
  }

  /** `parseFloat`: leading whitespace is skipped, one sign is read, then the
      longest number prefix; the rest of the text is ignored. */
  function ParseFloat(s: string): JsNum {
    var t := TrimStart(s);
    if t != [] && t[0] == '-' then Negate(ParseUnsigned(t[1..]))
    else if t != [] && t[0] == '+' then ParseUnsigned(t[1..])
    else ParseUnsigned(t)
  }

  /** The text after one leading sign, if there is one. */
  function Unsigned(t: string): (r: string)
    ensures r == t || (t != [] && (t[0] == '-' || t[0] == '+') && r == t[1..])
  {
    if t != [] && (t[0] == '-' || t[0] == '+') then t[1..] else t
  }

  /** `parseFloat` gives NaN exactly when, after the whitespace and an
      optional sign, the text starts with neither "Infinity", a digit, nor a
      '.' followed by a digit. */
  lemma ParseFloatNaN(s: string)
    ensures ParseFloat(s) == NaN <==> !StartsNumber(Unsigned(TrimStart(s)))
  {
    var u := Unsigned(TrimStart(s));
    assert ParseFloat(s) == NaN <==> ParseUnsigned(u) == NaN;
    UnsignedNaN(u);
  }

  /** Text that starts with "Infinity", a digit, or '.' and a digit. */
  predicate StartsNumber(u: string) {
    || (|u| >= 8 && u[..8] == "Infinity")
    || (u != [] && IsDigit(u[0]))
    || (|u| >= 2 && u[0] == '.' && IsDigit(u[1]))
  }

  lemma UnsignedNaN(u: string)
    ensures ParseUnsigned(u) == NaN <==> !StartsNumber(u)
  {
    if !(|u| >= 8 && u[..8] == "Infinity") {
      var whole := LeadingDigits(u);
      if u != [] && IsDigit(u[0]) {
        assert whole != [];
      } else {
        assert whole == [];
        assert u[|whole|..] == u;
        if |u| >= 2 && u[0] == '.' && IsDigit(u[1]) {
          assert u[1..][0] == u[1];
          assert LeadingDigits(u[1..]) != [];
        }
      }
    }
  }

  /** A digit string, a '.', and a digit string with no exponent after it
      reads as the number the digits spell, divided by ten to the length of
      the fraction. */
  lemma ReadDecimal(whole: string, fraction: string)
    requires AllDigits(whole) && AllDigits(fraction) && whole != []
    ensures AllDigits(whole + fraction)
    ensures ParseFloat(whole + "." + fraction)
         == Finite(DigitsValue(whole + fraction) as real / Pow10(|fraction|) as real)
  {
    var t := whole + "." + fraction;
    assert t[0] == whole[0];
    StartsWithDigit(t);
    ReadUnsignedDecimal(whole, fraction);
  }

  /** Text that starts with a digit is read without whitespace or sign. */
  lemma StartsWithDigit(t: string)
    requires t != [] && IsDigit(t[0])
    ensures ParseFloat(t) == ParseUnsigned(t)
  {
    DigitIsNotSign(t[0]);
    assert TrimStart(t) == t;
  }

  lemma DigitIsNotSign(c: char)
    requires IsDigit(c)
    ensures !IsWhitespace(c) && c != '-' && c != '+'
  {
  }

  lemma ReadUnsignedDecimal(whole: string, fraction: string)
    requires AllDigits(whole) && AllDigits(fraction) && whole != []
    ensures AllDigits(whole + fraction)
    ensures ParseUnsigned(whole + "." + fraction)
         == Finite(DigitsValue(whole + fraction) as real / Pow10(|fraction|) as real)
  {
    var rest := "." + fraction;
    var t := whole + rest;
    assert whole + "." + fraction == t;
    assert t[0] == whole[0];
    UnsignedStartsWithDigit(t);
    LeadingDigitsStop(whole, rest);
    assert t[|whole|..] == rest;
    ReadFraction(whole, fraction);
    ExactDecimal(whole, fraction);
  }

  /** Text that starts with a digit is not "Infinity". */
  lemma UnsignedStartsWithDigit(t: string)
    requires t != [] && IsDigit(t[0])
    ensures ParseUnsigned(t) == ParseDecimal(LeadingDigits(t), t[|LeadingDigits(t)|..])
  {
    if |t| >= 8 {
      assert t[..8][0] == t[0];
    }
  }

  lemma ReadFraction(whole: string, fraction: string)
    requires AllDigits(whole) && AllDigits(fraction)
    ensures ParseDecimal(whole, "." + fraction) == DecimalValue(whole, fraction, [])
  {
    var rest := "." + fraction;
    LeadingDigitsAll(fraction);
    assert rest[1..] == fraction;
    assert rest[1 + |fraction|..] == [];
  }

  lemma ExactDecimal(whole: string, fraction: string)
    requires AllDigits(whole) && AllDigits(fraction) && whole != []
    ensures AllDigits(whole + fraction)
    ensures DecimalValue(whole, fraction, []) == Finite(DigitsValue(whole + fraction) as real / Pow10(|fraction|) as real)
  {
    AllDigitsAppend(whole, fraction);
    assert ExponentOf([]) == 0;
    ScaleDown(DigitsValue(whole + fraction) as real, |fraction|);
  }

  lemma ScaleDown(v: real, n: nat)
    ensures v * Scale(0 - n) == v / Pow10(n) as real
  {
  }

  /** A digit string reads as the whole number it spells. */
  lemma ReadWholeNumber(d: string)
    requires d != [] && AllDigits(d)
    ensures ParseFloat(d) == Finite(DigitsValue(d) as real)
  {
    StartsWithDigit(d);
    ReadUnsignedWhole(d);
  }

  lemma ReadUnsignedWhole(d: string)
    requires d != [] && AllDigits(d)
    ensures ParseUnsigned(d) == Finite(DigitsValue(d) as real)
  {
    UnsignedStartsWithDigit(d);
    LeadingDigitsAll(d);
    var none: string := [];
    assert d[|d|..] == none;
    assert ParseDecimal(d, none) == DecimalValue(d, none, none);
    WholeValue(d);
  }

  lemma WholeValue(d: string)
    requires d != [] && AllDigits(d)
    ensures DecimalValue(d, [], []) == Finite(DigitsValue(d) as real)
  {
    var none: string := [];
    assert d + none == d;
    assert ExponentOf(none) == 0;
    assert Scale(0) == 1.0;
  }

  lemma {:induction false} LeadingDigitsStop(a: string, b: string)
    requires AllDigits(a) && b != [] && !IsDigit(b[0])
    ensures LeadingDigits(a + b) == a
  {
    if a != [] {
      assert (a + b)[1..] == a[1..] + b;
      LeadingDigitsStop(a[1..], b);
    }
  }

  lemma {:induction false} LeadingDigitsAll(a: string)
    requires AllDigits(a)
    ensures LeadingDigits(a) == a
  {
    if a != [] {
      LeadingDigitsAll(a[1..]);
    }
  }

  // ---------------------------------------------------------------------
  // Formatting whole numbers of cents

  /** The pt-BR text of `cents / 100` for non-negative `cents`: grouped reais,
      a decimal comma, two digits of centavos. */
  function Amount(cents: nat): (r: string)
    ensures |r| >= 4 && r[|r| - 3] == ','
  {
    Grouped(NatToString(cents / 100)) + "," + TwoDigits(cents % 100)
  }

  /** `formatCurrencyValue` on a whole number of cents: a leading '-' for
      negative amounts, no currency symbol. */
  function FormatCurrencyValue(cents: int): string {
    if cents < 0 then "-" + Amount(-cents) else Amount(cents)
  }

  /** `formatCurrency` on a whole number of cents: "R$ " before the amount,
      and the minus sign before the symbol. */
  function FormatCurrency(cents: int): string {
    if cents < 0 then "-R$ " + Amount(-cents) else "R$ " + Amount(cents)
  }

  /** The pieces of `Amount(c)`. */
  lemma AmountParts(cents: nat)
    ensures var whole := NatToString(cents / 100);
      && AllDigits(whole) && |whole| >= 1
      && Amount(cents) == Grouped(whole) + "," + TwoDigits(cents % 100)
      && IsGroupedDigits(Grouped(whole))
      && RemoveDots(Grouped(whole)) == whole
      && Digits(Grouped(whole)) == whole
      && DigitsValue(whole + TwoDigits(cents % 100)) == cents
  {
    var whole := NatToString(cents / 100);
    GroupedShape(whole);
    GroupedContents(whole);
    NatToStringValue(cents / 100);
    DigitsValueAppend(whole, TwoDigits(cents % 100));
    assert Pow10(2) == 100;
  }

  /** Amount text holds only digits, dots and the comma: no 'R', no
      whitespace. */
  lemma AmountCharacters(cents: nat)
    ensures forall i :: 0 <= i < |Amount(cents)| ==>
      IsDigit(Amount(cents)[i]) || Amount(cents)[i] == '.' || Amount(cents)[i] == ','
  {
    GroupedCharacters(NatToString(cents / 100));
  }

  /** The amount text is grouped reais, a comma and two digits; every
      character is a digit, a dot or the comma. */
  lemma AmountIsNumericText(cents: nat)
    ensures forall i :: 0 <= i < |Amount(cents)| ==> Amount(cents)[i] != 'R'
    ensures !IsWhitespace(Amount(cents)[0]) && !IsWhitespace(Amount(cents)[|Amount(cents)| - 1])
    ensures IsDigit(Amount(cents)[0])
  {
    AmountCharacters(cents);
    AmountParts(cents);
    var whole := NatToString(cents / 100);
    assert Grouped(whole)[0] == Amount(cents)[0];
    assert IsGroupedDigits(Grouped(whole));
    GroupedStartsWithDigit(Grouped(whole));
  }

  lemma {:induction false} GroupedStartsWithDigit(g: string)
    requires IsGroupedDigits(g)
    ensures g != [] && IsDigit(g[0])
    decreases |g|
  {
    if |g| > 3 {
      GroupedStartsWithDigit(g[..|g| - 4]);
    }
  }

  // ---------------------------------------------------------------------
  // parseCurrency

  predicate IsComma(c: char) {
    c == ','
  }

  predicate IsPoint(c: char) {
    c == '.'
  }

  /** The text `parseFloat` is given: symbol stripped, thousands dots
      dropped, decimal comma turned into a point. `CleanedKeeps` states which
      characters survive. */
  function Cleaned(v: string): (r: string)
    ensures |r| <= |v|
    ensures forall i :: 0 <= i < |r| ==> r[i] != ','
  {
    CommasToPoints(RemoveDots(StripCurrencySymbol(v)))
  }

  /** Cleaning keeps every digit, in order, and the points it leaves are
      exactly the commas of the input turned into points. */
  lemma CleanedKeeps(v: string)
    ensures Digits(Cleaned(v)) == Digits(v)
    ensures |Keep(Cleaned(v), IsPoint)| == |Keep(v, IsComma)|
  {
    var stripped := StripCurrencySymbol(v);
    StripKeep(v, IsDigit);
    StripKeep(v, IsComma);
    var undotted := RemoveDots(stripped);
    DotsKeep(stripped, IsDigit);
    DotsKeep(stripped, IsComma);
    CommasKeepDigits(undotted);
    CommasBecomePoints(undotted);
  }

  /** Stripping the symbol keeps every character that is not 'R', '$' or
      whitespace. */
  lemma {:induction false} StripKeep(s: string, keep: char -> bool)
    requires !keep('R') && !keep('$')
    requires forall c :: IsWhitespace(c) ==> !keep(c)
    ensures Keep(StripCurrencySymbol(s), keep) == Keep(s, keep)
    decreases |s|
  {
    if |s| >= 2 && s[0] == 'R' && s[1] == '$' {
      assert Keep(s, keep) == Keep(s[1..], keep);
      assert s[1..][1..] == s[2..];
      assert Keep(s[1..], keep) == Keep(s[2..], keep);
      if |s| >= 3 && IsWhitespace(s[2]) {
        assert s[2..][1..] == s[3..];
        assert Keep(s[2..], keep) == Keep(s[3..], keep);
        StripKeep(s[3..], keep);
      } else {
        StripKeep(s[2..], keep);
      }
    } else if s != [] {
      var rest := StripCurrencySymbol(s[1..]);
      StripKeep(s[1..], keep);
      assert ([s[0]] + rest)[0] == s[0] && ([s[0]] + rest)[1..] == rest;
    }
  }

  /** Dropping the dots keeps every character that is not a dot. */
  lemma {:induction false} DotsKeep(s: string, keep: char -> bool)
    requires !keep('.')
    ensures Keep(RemoveDots(s), keep) == Keep(s, keep)
  {
    if s != [] {
      var head := if NotDot(s[0]) then [s[0]] else [];
      DotsKeep(s[1..], keep);
      KeepAppend(head, Keep(s[1..], NotDot), keep);
    }
  }

  /** Turning commas into points changes no digit. */
  lemma {:induction false} CommasKeepDigits(s: string)
    ensures Keep(CommasToPoints(s), IsDigit) == Keep(s, IsDigit)
  {
    if s != [] {
      assert s == [s[0]] + s[1..];
      CommasToPointsAppend([s[0]], s[1..]);
      CommasKeepDigits(s[1..]);
      KeepAppend(CommasToPoints([s[0]]), CommasToPoints(s[1..]), IsDigit);
    }
  }

  /** In text without points, the points after the rewrite are the commas. */
  lemma {:induction false} CommasBecomePoints(s: string)
    requires forall i :: 0 <= i < |s| ==> s[i] != '.'
    ensures |Keep(CommasToPoints(s), IsPoint)| == |Keep(s, IsComma)|
  {
    if s != [] {
      assert s == [s[0]] + s[1..];
      CommasToPointsAppend([s[0]], s[1..]);
      CommasBecomePoints(s[1..]);
      KeepAppend(CommasToPoints([s[0]]), CommasToPoints(s[1..]), IsPoint);
    }
  }

  /** `parseCurrency`: 0 for empty text, otherwise `parseFloat` of the
      cleaned text; `ParseCurrencyReads` states what it yields. */
  function ParseCurrency(v: string): JsNum {
    if v == "" then Finite(0.0) else ParseFloat(Cleaned(v))
  }

  /** Empty text is 0, text of digits alone is the whole number they spell,
      and the result is NaN exactly when the cleaned text, after whitespace
      and one sign, does not start a number. */
  lemma ParseCurrencyReads(v: string)
    ensures v == "" ==> ParseCurrency(v) == Finite(0.0)
    ensures v != "" && AllDigits(v) ==> ParseCurrency(v) == Finite(DigitsValue(v) as real)
    ensures ParseCurrency(v).NaN? <==> v != "" && !StartsNumber(Unsigned(TrimStart(Cleaned(v))))
  {
    if v != "" {
      ParseCurrencyNaN(v);
      ReadDigitText(v);
    }
  }

  /** Text of digits alone reads as the whole number they spell. */
  lemma ParseDigitText(v: string)
    requires v != "" && AllDigits(v)
    ensures ParseCurrency(v) == Finite(DigitsValue(v) as real)
  {
    ReadDigitText(v);
  }

  /** `parseCurrency` gives NaN exactly when the text is not empty and the
      cleaned text, after whitespace and one sign, does not start a number. */
  lemma ParseCurrencyNaN(v: string)
    ensures ParseCurrency(v).NaN? <==> v != "" && !StartsNumber(Unsigned(TrimStart(Cleaned(v))))
  {
    if v != "" {
      ParseFloatNaN(Cleaned(v));
    }
  }

  /** Digit text is left alone by cleaning and reads as its whole number. */
  lemma ReadDigitText(v: string)
    ensures v != [] && AllDigits(v) ==> ParseFloat(Cleaned(v)) == Finite(DigitsValue(v) as real)
  {
    if v != [] && AllDigits(v) {
      CleanedUntouched(v);
      ReadWholeNumber(v);
    }
  }

  /** Text with no number left after cleaning reads as NaN: the bare
      symbol, and words that start with a letter. */
  lemma UnreadableText()
    ensures ParseCurrency("R$") == NaN
    ensures ParseCurrency("invalid") == NaN
    ensures ParseCurrency("abc123") == NaN
  {
    SymbolAlone();
    InvalidWord();
    LettersThenDigits();
  }

  lemma InvalidWord()
    ensures ParseCurrency("invalid") == NaN
  {
    Unreadable("invalid");
  }

  lemma LettersThenDigits()
    ensures ParseCurrency("abc123") == NaN
  {
    Unreadable("abc123");
  }

  lemma SymbolAlone()
    ensures ParseCurrency("R$") == NaN
  {
    var symbol: string := "R$";
    assert StripCurrencySymbol(symbol) == StripCurrencySymbol(symbol[2..]);
    assert symbol[2..] == [];
    NothingLeft(symbol);
  }

  lemma NothingLeft(t: string)
    requires t != [] && StripCurrencySymbol(t) == []
    ensures ParseCurrency(t) == NaN
  {
    var e: string := [];
    assert Cleaned(t) == e;
    assert TrimStart(e) == e;
    UnsignedNaN(e);
  }

  /** Text without an 'R', a '.' or a ',' whose first character is a
      lower-case letter is not a number. */
  lemma Unreadable(w: string)
    requires w != [] && 'a' <= w[0] <= 'z'
    requires forall i :: 0 <= i < |w| ==> w[i] != 'R' && w[i] != '.' && w[i] != ','
    ensures ParseCurrency(w) == NaN
  {
    CleanedUntouched(w);
    LetterIsNaN(w);
  }

  lemma CleanedUntouched(w: string)
    requires forall i :: 0 <= i < |w| ==> w[i] != 'R' && w[i] != '.' && w[i] != ','
    ensures Cleaned(w) == w
  {
    StripWithoutSymbol(w);
    KeepEverything(w, NotDot);
    assert CommasToPoints(w) == w;
  }

  lemma LetterIsNaN(w: string)
    requires w != [] && 'a' <= w[0] <= 'z'
    ensures ParseFloat(w) == NaN
  {
    assert !IsWhitespace(w[0]);
    assert TrimStart(w) == w;
    assert ParseFloat(w) == ParseUnsigned(w);
    if |w| >= 8 {
      assert w[..8][0] == w[0];
    }
    UnsignedNaN(w);
  }

  /** Cleaning an amount removes the dots and turns its comma into a point. */
  lemma CleanAmount(cents: nat)
    ensures AllDigits(NatToString(cents / 100))
    ensures Cleaned(Amount(cents)) == NatToString(cents / 100) + "." + TwoDigits(cents % 100)
  {
    var whole := NatToString(cents / 100);
    var g := Grouped(whole);
    GroupedContents(whole);
    GroupedCharacters(whole);
    CleanJoin(g, whole, TwoDigits(cents % 100));
  }

  lemma CleanJoin(g: string, whole: string, tt: string)
    requires forall i :: 0 <= i < |g| ==> IsDigit(g[i]) || g[i] == '.'
    requires RemoveDots(g) == whole && AllDigits(whole) && AllDigits(tt)
    ensures Cleaned(g + "," + tt) == whole + "." + tt
  {
    var a := g + "," + tt;
    assert forall i :: 0 <= i < |a| ==> a[i] != 'R';
    StripWithoutSymbol(a);
    DropDotsJoin(g, whole, tt);
    CommaJoin(whole, tt);
  }

  lemma DropDotsJoin(g: string, whole: string, tt: string)
    requires RemoveDots(g) == whole && AllDigits(tt)
    ensures RemoveDots(g + "," + tt) == whole + "," + tt
  {
    KeepAppend(g + ",", tt, NotDot);
    KeepAppend(g, ",", NotDot);
    KeepEverything(tt, NotDot);
    KeepEverything(",", NotDot);
  }

  lemma CommaJoin(whole: string, tt: string)
    requires AllDigits(whole) && AllDigits(tt)
    ensures CommasToPoints(whole + "," + tt) == whole + "." + tt
  {
    var c := CommasToPoints(whole + "," + tt);
    assert forall i :: 0 <= i < |whole| ==> c[i] == whole[i];
    assert forall i :: 0 <= i < |tt| ==> c[|whole| + 1 + i] == tt[i];
  }

  /** Reading an amount gives its cents divided by 100. */
  lemma ReadAmount(cents: nat)
    ensures ParseFloat(Cleaned(Amount(cents))) == Finite(cents as real / 100.0)
  {
    var whole := NatToString(cents / 100);
    var tt := TwoDigits(cents % 100);
    CleanAmount(cents);
    ReadDecimal(whole, tt);
    NatToStringValue(cents / 100);
    DigitsValueAppend(whole, tt);
    assert Pow10(2) == 100;
    CentsValue(cents, DigitsValue(whole + tt));
  }

  lemma CentsValue(cents: nat, d: nat)
    requires d == (cents / 100) * 100 + cents % 100
    ensures d as real / 100 as real == cents as real / 100.0
  {
  }

  /** A minus sign in front is kept by the cleaning and negates the number. */
  lemma ReadNegated(a: string)
    requires a != [] && IsDigit(a[0])
    ensures Cleaned("-" + a) == "-" + Cleaned(a)
    ensures Cleaned(a) != [] ==> ParseFloat("-" + Cleaned(a)) == Negate(ParseFloat(Cleaned(a)))
  {
    CleanedNegated(a);
    var c := Cleaned(a);
    if c != [] {
      CleanedStart(a);
      ParseNegated(c);
    }
  }

  lemma CleanedNegated(a: string)
    requires a != [] && IsDigit(a[0])
    ensures Cleaned("-" + a) == "-" + Cleaned(a)
  {
    assert ("-" + a)[1..] == a;
    assert StripCurrencySymbol("-" + a) == "-" + StripCurrencySymbol(a);
    KeepAppend("-", StripCurrencySymbol(a), NotDot);
    assert Keep("-", NotDot) == "-";
    var r := RemoveDots(StripCurrencySymbol(a));
    assert CommasToPoints("-" + r) == "-" + CommasToPoints(r);
  }

  /** Cleaning keeps a leading digit in front. */
  lemma CleanedStart(a: string)
    requires a != [] && IsDigit(a[0])
    ensures Cleaned(a) != [] && Cleaned(a)[0] == a[0]
  {
    var s := StripCurrencySymbol(a);
    assert s == [a[0]] + StripCurrencySymbol(a[1..]);
    KeepAppend([a[0]], StripCurrencySymbol(a[1..]), NotDot);
    assert Keep([a[0]], NotDot) == [a[0]];
  }

  /** A minus sign before text starting with a digit negates what it reads. */
  lemma ParseNegated(c: string)
    requires c != [] && IsDigit(c[0])
    ensures ParseFloat("-" + c) == Negate(ParseFloat(c))
  {
    var t := "-" + c;
    assert TrimStart(t) == t;
    assert t[1..] == c;
    StartsWithDigit(c);
  }

  /** "R$" and the space after it are stripped. */
  lemma StripSymbol(a: string)
    ensures StripCurrencySymbol("R$ " + a) == StripCurrencySymbol(a)
  {
    assert ("R$ " + a)[3..] == a;
  }

  /** `parseCurrency(formatCurrencyValue(c / 100)) == c / 100`. */
  lemma ParseFormattedValue(cents: int)
    ensures ParseCurrency(FormatCurrencyValue(cents)) == Finite(cents as real / 100.0)
  {
    if cents >= 0 {
      ReadAmount(cents);
    } else {
      ReadNegativeAmount(-cents);
    }
  }

  lemma ReadNegativeAmount(n: nat)
    ensures ParseCurrency("-" + Amount(n)) == Finite(-(n as real / 100.0))
  {
    AmountIsNumericText(n);
    CleanAmount(n);
    ReadAmount(n);
    ReadNegatedValue(Amount(n), n as real / 100.0);
  }

  lemma ReadNegatedValue(a: string, v: real)
    requires a != [] && IsDigit(a[0]) && Cleaned(a) != []
    requires ParseFloat(Cleaned(a)) == Finite(v)
    ensures ParseCurrency("-" + a) == Finite(-v)
  {
    var c := Cleaned(a);
    ReadNegated(a);
    NegateFinite(ParseFloat(c), v);
    var t := "-" + a;
    assert t != "";
    assert ParseCurrency(t) == ParseFloat(Cleaned(t));
  }

  lemma NegateFinite(x: JsNum, v: real)
    requires x == Finite(v)
    ensures Negate(x) == Finite(-v)
  {
  }

  /** `parseCurrency(formatCurrency(c / 100)) == c / 100`: the symbol and the
      space after it are stripped, the sign is kept. */
  lemma ParseFormatted(cents: int)
    ensures ParseCurrency(FormatCurrency(cents)) == Finite(cents as real / 100.0)
  {
    if cents >= 0 {
      StripSymbolOfAmount(cents);
      ReadAmount(cents);
    } else {
      StripNegativeSymbol(-cents);
      ParseFormattedValue(cents);
    }
  }

  lemma StripSymbolOfAmount(n: nat)
    ensures Cleaned("R$ " + Amount(n)) == Cleaned(Amount(n))
  {
    var a := Amount(n);
    StripSymbol(a);
  }

  lemma StripNegativeSymbol(n: nat)
    ensures Cleaned("-R$ " + Amount(n)) == Cleaned("-" + Amount(n))
  {
    AmountIsNumericText(n);
    StripNegative(Amount(n));
  }

  lemma StripNegative(a: string)
    requires forall i :: 0 <= i < |a| ==> a[i] != 'R'
    ensures Cleaned("-R$ " + a) == Cleaned("-" + a)
  {
    StripWithoutSymbol(a);
    StripSymbol(a);
    var b := "R$ " + a;
    assert "-R$ " + a == "-" + b;
    assert ("-" + b)[1..] == b;
    assert ("-" + a)[1..] == a;
    assert StripCurrencySymbol("-" + b) == "-" + StripCurrencySymbol(b);
    assert StripCurrencySymbol("-" + a) == "-" + a;
  }

  // ---------------------------------------------------------------------
  // applyCurrencyMask

  /** `applyCurrencyMask`: the digits typed so far, read as a number of
      cents and shown as an amount without the symbol. */
  function ApplyCurrencyMask(v: string): (r: string)
    ensures r == "" <==> Digits(v) == ""
  {
    if v == "" then ""
    else
      var digits := Digits(v);
      if digits == "" then "" else FormatCurrencyValue(DigitsValue(digits))
  }

  /** Keeping only the digits of an amount gives its reais and centavos. */
  lemma DigitsOfAmount(cents: nat)
    ensures Digits(Amount(cents)) == NatToString(cents / 100) + TwoDigits(cents % 100)
    ensures DigitsValue(Digits(Amount(cents))) == cents
  {
    var whole := NatToString(cents / 100);
    var tt := TwoDigits(cents % 100);
    GroupedContents(whole);
    DropComma(Grouped(whole), whole, tt);
    NatToStringValue(cents / 100);
    DigitsValueAppend(whole, tt);
    assert Pow10(2) == 100;
  }

  lemma DropComma(g: string, whole: string, tt: string)
    requires Digits(g) == whole && AllDigits(tt)
    ensures Digits(g + "," + tt) == whole + tt
  {
    KeepAppend(g + ",", tt, IsDigit);
    KeepAppend(g, ",", IsDigit);
    KeepEverything(tt, IsDigit);
    assert Keep(",", IsDigit) == [];
  }

  /** The mask of text with digits is the amount those digits spell in cents. */
  lemma MaskIsAmount(v: string)
    requires Digits(v) != ""
    ensures ApplyCurrencyMask(v) == Amount(DigitsValue(Digits(v)))
  {
  }

  /** Round trip: reading the masked text gives the typed digits as cents,
      divided by 100 (0 when nothing was typed). */
  lemma MaskRoundTrip(v: string)
    ensures ParseCurrency(ApplyCurrencyMask(v)) == Finite(DigitsValue(Digits(v)) as real / 100.0)
  {
    if Digits(v) != "" {
      var n := DigitsValue(Digits(v));
      MaskIsAmount(v);
      ReadAmount(n);
    }
  }

  /** Masking masked text changes nothing. */
  lemma MaskIdempotent(v: string)
    ensures ApplyCurrencyMask(ApplyCurrencyMask(v)) == ApplyCurrencyMask(v)
  {
    if Digits(v) != "" {
      var n := DigitsValue(Digits(v));
      MaskIsAmount(v);
      DigitsOfAmount(n);
      MaskIsAmount(Amount(n));
    }
  }

  /** One typed digit is one centavo; text without digits masks to "". */
  lemma MaskExamples()
    ensures ApplyCurrencyMask("1") == "0,01"
    ensures ApplyCurrencyMask("abc") == ""
  {
    KeepEverything("1", IsDigit);
    assert NatToString(1) == "1";
    NatToStringValue(1);
    MaskIsAmount("1");
    assert NatToString(0) == "0";
    assert TwoDigits(1) == "01";
  }

  /** Digits are grouped in threes. */
  lemma MaskGroupsThousands()
    ensures ApplyCurrencyMask("123456") == "1.234,56"
  {
    MaskOfSixDigits();
    AmountOfSixDigits();
  }

  lemma MaskOfSixDigits()
    ensures ApplyCurrencyMask("123456") == Amount(123456)
  {
    var d := "123456";
    SixDigits();
    NatToStringValue(123456);
    MaskOfDigits(d);
  }

  /** Digit text is masked as the amount of cents it spells. */
  lemma MaskOfDigits(d: string)
    requires d != [] && AllDigits(d)
    ensures ApplyCurrencyMask(d) == Amount(DigitsValue(d))
  {
    KeepEverything(d, IsDigit);
    MaskIsAmount(d);
  }

  lemma AmountOfSixDigits()
    ensures Amount(123456) == "1.234,56"
  {
    assert 123456 / 100 == 1234 && 123456 % 100 == 56;
    GroupedThousand();
    assert TwoDigits(56) == "56";
  }

  lemma SixDigits()
    ensures NatToString(123456) == "123456"
  {
  }

  lemma GroupedThousand()
    ensures Grouped(NatToString(1234)) == "1.234"
  {
    var d := "1234";
    assert NatToString(1234) == d;
    assert d[..1] == "1" && d[1..] == "234";
  }

  // ---------------------------------------------------------------------
  // isValidCurrency

  /** Drops a leading `c`, the regular expression `c?`. */
  function SkipChar(t: string, c: char): string {
    if t != [] && t[0] == c then t[1..] else t
  }

  /** Drops a leading whitespace character, the regular expression `\s?`. */
  function SkipSpace(t: string): string {
    if t != [] && IsWhitespace(t[0]) then t[1..] else t
  }

  /** Text ending in `,\d{2}`. */
  predicate EndsWithCentavos(u: string) {
    |u| >= 3 && u[|u| - 3] == ',' && IsDigit(u[|u| - 2]) && IsDigit(u[|u| - 1])
  }

  /** The first alternative, `^-?R?\$?\s?\d{1,3}(\.\d{3})*,\d{2}$`. Each
      optional character differs from everything that may follow it, so
      taking it whenever it is present is the only way to match. */
  predicate MatchesSymbolPattern(t: string) {
    var u := SkipSpace(SkipChar(SkipChar(SkipChar(t, '-'), 'R'), '$'));
    EndsWithCentavos(u) && IsGroupedDigits(u[..|u| - 3])
  }

  /** The second alternative, `^-?\d+(,\d{2})?$`. */
  predicate MatchesPlainPattern(t: string) {
    var u := SkipChar(t, '-');
    || (u != [] && AllDigits(u))
    || (EndsWithCentavos(u) && |u| >= 4 && AllDigits(u[..|u| - 3]))
  }

  /** `!isNaN(x) && x >= 0`. */
  predicate NotNegative(x: JsNum) {
    x.PosInfinity? || (x.Finite? && x.v >= 0.0)
  }

  /** `isValidCurrency`: non-empty text whose trimmed form has one of the two
      shapes and which reads as a number that is not negative. */
  predicate IsValidCurrency(v: string) {
    && v != ""
    && (MatchesSymbolPattern(Trim(v)) || MatchesPlainPattern(Trim(v)))
    && NotNegative(ParseCurrency(v))
  }

  /** Empty text, a word, and a negative amount are all refused. */
  lemma RejectedCurrencyText()
    ensures !IsValidCurrency("")
    ensures !IsValidCurrency("invalid")
    ensures !IsValidCurrency("-1.000,00")
  {
    EmptyRejected();
    WordRejected();
    NegativeThousand();
  }

  lemma EmptyRejected()
    ensures !IsValidCurrency("")
  {
  }

  lemma WordRejected()
    ensures !IsValidCurrency("invalid")
  {
    InvalidWord();
  }

  lemma NegativeThousand()
    ensures !IsValidCurrency("-1.000,00")
  {
    ThousandAmount();
    NegativeAmountInvalid(100000);
    MinusThousand(Amount(100000));
  }

  lemma MinusThousand(a: string)
    requires a == "1.000,00"
    ensures "-" + a == "-1.000,00"
  {
  }

  /** A minus sign before a non-zero amount reads as a negative number. */
  lemma NegativeAmountInvalid(n: nat)
    requires n > 0
    ensures !IsValidCurrency("-" + Amount(n))
  {
    ReadNegativeAmount(n);
  }

  lemma ThousandAmount()
    ensures Amount(100000) == "1.000,00"
  {
    assert 100000 / 100 == 1000 && 100000 % 100 == 0;
    var d := "1000";
    assert NatToString(1000) == d;
    assert d[..1] == "1" && d[1..] == "000";
    assert Grouped(NatToString(1000)) == "1.000";
    assert TwoDigits(0) == "00";
  }

  /** Text with no whitespace at either end is its own trim. */
  lemma TrimUntouched(s: string)
    requires s != [] && !IsWhitespace(s[0]) && !IsWhitespace(s[|s| - 1])
    ensures Trim(s) == s
  {
  }

  /** An amount has the grouped shape after its symbol. */
  lemma AmountMatches(n: nat)
    ensures EndsWithCentavos(Amount(n))
    ensures IsGroupedDigits(Amount(n)[..|Amount(n)| - 3])
  {
    var whole := NatToString(n / 100);
    GroupedShape(whole);
    var a := Amount(n);
    assert a[..|a| - 3] == Grouped(whole);
    assert a[|a| - 2..] == TwoDigits(n % 100);
  }

  /** Untrimmed text of the symbol shape that reads as a number that is
      not negative is valid currency text. */
  lemma ValidBySymbolPattern(t: string)
    requires t != [] && Trim(t) == t && MatchesSymbolPattern(t) && NotNegative(ParseCurrency(t))
    ensures IsValidCurrency(t)
  {
  }

  /** An amount has no whitespace at either end. */
  lemma AmountTrimmed(n: nat)
    ensures Trim(Amount(n)) == Amount(n)
    ensures Trim("R$ " + Amount(n)) == "R$ " + Amount(n)
  {
    var a := Amount(n);
    AmountIsNumericText(n);
    TrimUntouched(a);
    var t := "R$ " + a;
    assert t[|t| - 1] == a[|a| - 1];
    TrimUntouched(t);
  }

  /** "R$ " and an amount have the symbol shape; so does the bare amount. */
  lemma SymbolPatternOfAmount(n: nat)
    ensures MatchesSymbolPattern(Amount(n))
    ensures MatchesSymbolPattern("R$ " + Amount(n))
  {
    var a := Amount(n);
    AmountIsNumericText(n);
    AmountMatches(n);
    assert SkipSpace(SkipChar(SkipChar(SkipChar(a, '-'), 'R'), '$')) == a;
    var t := "R$ " + a;
    assert SkipChar(t, '-') == t;
    assert SkipChar(t, 'R') == "$ " + a;
    assert SkipChar("$ " + a, '$') == " " + a;
    assert SkipSpace(" " + a) == a;
  }

  /** Formatted amounts are valid currency text exactly when they are not
      negative. */
  lemma FormattedIsValid(cents: int)
    ensures IsValidCurrency(FormatCurrency(cents)) <==> cents >= 0
  {
    ParseFormatted(cents);
    if cents >= 0 {
      AmountTrimmed(cents);
      SymbolPatternOfAmount(cents);
      ValidBySymbolPattern(FormatCurrency(cents));
    }
  }

  /** Masked text is valid currency text exactly when some digit was typed. */
  lemma MaskedIsValid(v: string)
    ensures IsValidCurrency(ApplyCurrencyMask(v)) <==> Digits(v) != ""
  {
    if Digits(v) != "" {
      MaskIsAmount(v);
      AmountIsValid(DigitsValue(Digits(v)));
    }
  }

  lemma AmountIsValid(n: nat)
    ensures IsValidCurrency(Amount(n))
  {
    var a := Amount(n);
    ReadAmount(n);
    assert a != [];
    assert ParseCurrency(a) == Finite(n as real / 100.0);
    assert NotNegative(ParseCurrency(a));
    AmountTrimmed(n);
    SymbolPatternOfAmount(n);
    ValidBySymbolPattern(a);
  }

  // ---------------------------------------------------------------------
  // validateCurrencyAmount

  /** The result of `validateCurrencyAmount`. */
  datatype AmountCheck = AmountCheck(isValid: bool, error: Option<string>, numericValue: JsNum)

  /** `x < bound` in JavaScript; false for NaN. */
  predicate Below(x: JsNum, bound: real) {
    x.NegInfinity? || (x.Finite? && x.v < bound)
  }

  /** `x > bound` in JavaScript; false for NaN. */
  predicate Exceeds(x: JsNum, bound: real) {
    x.PosInfinity? || (x.Finite? && x.v > bound)
  }

  function MinimumMessage(): string {
    "Valor mínimo: " + FormatCurrency(MinCents)
  }

  function MaximumMessage(): string {
    "Valor máximo: " + FormatCurrency(MaxCents)
  }

  /** `validateCurrencyAmount`. */
  function ValidateCurrencyAmount(v: string): (r: AmountCheck)
    ensures r.isValid <==> r.error.None?
    ensures r.isValid <==> ParseCurrency(v).Finite? && MinValue <= ParseCurrency(v).v <= MaxValue
    ensures ParseCurrency(v).NaN? ==> r == AmountCheck(false, Some(InvalidValue), Finite(0.0))
    ensures !ParseCurrency(v).NaN? ==> r.numericValue == ParseCurrency(v)
    ensures Below(ParseCurrency(v), MinValue) ==> r.error == Some(MinimumMessage())
    ensures Exceeds(ParseCurrency(v), MaxValue) ==> r.error == Some(MaximumMessage())
  {
    var x := ParseCurrency(v);
    if x.NaN? then AmountCheck(false, Some(InvalidValue), Finite(0.0))
    else if Below(x, MinValue) then AmountCheck(false, Some(MinimumMessage()), x)
    else if Exceeds(x, MaxValue) then AmountCheck(false, Some(MaximumMessage()), x)
    else AmountCheck(true, None, x)
  }

  /** The bounds in cents are the bounds in reais. */
  lemma CentBounds()
    ensures MinCents as real / 100.0 == MinValue && MaxCents as real / 100.0 == MaxValue
  {
  }

  /** The two range messages quote the bounds, formatted as currency. */
  lemma RangeMessages()
    ensures MinimumMessage() == "Valor mínimo: " + "R$ 0,01"
    ensures MaximumMessage() == "Valor máximo: " + "R$ 999.999.999,99"
  {
    MinimumText();
    MaximumText();
  }

  lemma MinimumText()
    ensures FormatCurrency(MinCents) == "R$ 0,01"
  {
    assert NatToString(0) == "0";
    assert Grouped("0") == "0";
    assert TwoDigits(1) == "01";
    assert Amount(1) == "0,01";
  }

  lemma MaximumText()
    ensures FormatCurrency(MaxCents) == "R$ 999.999.999,99"
  {
    LargestAmount();
  }

  /** The largest amount, "999.999.999,99", fits the input length. */
  lemma LargestAmount()
    ensures Amount(MaxCents) == "999.999.999,99"
    ensures |FormatCurrencyValue(MaxCents)| <= MaxInputLength
  {
    var whole := NatToString(999999999);
    assert MaxCents / 100 == 999999999 && MaxCents % 100 == 99;
    GroupedMillions();
    assert TwoDigits(99) == "99";
    assert Amount(MaxCents) == Grouped(whole) + "," + TwoDigits(99);
  }

  lemma GroupedMillions()
    ensures Grouped(NatToString(999999999)) == "999.999.999"
  {
    NineNines();
    GroupedNines();
  }

  lemma NineNines()
    ensures NatToString(999999999) == "999999999"
  {
  }

  lemma GroupedNines()
    ensures Grouped("999999999") == "999.999.999"
  {
    var d := "999999999";
    GroupedNine(d);
    assert d[..3] == "999" && d[3..6] == "999" && d[6..] == "999";
  }

  /** Nine digits group as three, three and three. */
  lemma GroupedNine(d: string)
    requires |d| == 9
    ensures Grouped(d) == d[..3] + "." + d[3..6] + "." + d[6..]
  {
    assert Grouped(d[..6]) == Grouped(d[..6][..3]) + "." + d[..6][3..];
    assert d[..6][..3] == d[..3];
    assert d[..6][3..] == d[3..6];
  }

  /** Typed digits pass the range check exactly when, read as cents, they
      lie between the minimum and the maximum. */
  lemma MaskedAmountInRange(v: string)
    ensures ValidateCurrencyAmount(ApplyCurrencyMask(v)).isValid
        <==> MinCents <= DigitsValue(Digits(v)) <= MaxCents
  {
    MaskRoundTrip(v);
  }
}
