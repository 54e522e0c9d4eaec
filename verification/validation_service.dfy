/**
 * The app's form validators (`ValidationService`). Each field is checked on
 * its own and contributes at most one message; the messages are collected
 * in field order and the form is valid exactly when none was collected.
 *
 * A field the form left out is `None`; a number field holds a JavaScript
 * number, which may be NaN or infinite (the forms fill these fields from
 * `parseFloat`, `parseInt` and `parseCurrency`). JavaScript's falsy test on a
 * number (`!x`) rejects `undefined`, NaN and `0`; since `0` is also `<= 0`, a
 * number field fails its first check exactly when it is absent, NaN, or at
 * most 0 (which includes -Infinity). +Infinity passes that check and fails
 * the upper bound.
 */
module ValidationService {
  import opened Wrappers
  import opened Js
  import Currency

  /** The messages the validators can report, one constructor each. */
  datatype Issue =
    | NameRequired | RateNotPositive | RateTooHigh | MaxTermNotPositive | MaxTermTooLong
    | ProductNotSelected | AmountNotPositive | AmountTooHigh | TermNotPositive | TermTooLong

  /** The text shown for each issue. */
  function Message(issue: Issue): string {
    match issue
    case NameRequired => "Nome do produto é obrigatório"
    case RateNotPositive => "Taxa de juros anual deve ser maior que zero"
    case RateTooHigh => "Taxa de juros anual não pode ser maior que 100%"
    case MaxTermNotPositive => "Prazo máximo deve ser maior que zero"
    case MaxTermTooLong => "Prazo máximo não pode ser maior que 600 meses"
    case ProductNotSelected => "Produto deve ser selecionado"
    case AmountNotPositive => "Valor do empréstimo deve ser maior que zero"
    case AmountTooHigh => "Valor do empréstimo não pode ser maior que R$ 10.000.000,00"
    case TermNotPositive => "Prazo deve ser maior que zero"
    case TermTooLong => "Prazo não pode ser maior que 600 meses"
  }

  /** The form field an issue is about: 0, 1 or 2 in form order. */
  function Field(issue: Issue): (r: int)
    ensures 0 <= r <= 2
  {
    match issue
    case NameRequired | ProductNotSelected => 0
    case RateNotPositive | RateTooHigh | AmountNotPositive | AmountTooHigh => 1
    case MaxTermNotPositive | MaxTermTooLong | TermNotPositive | TermTooLong => 2
  }

  /** The inclusive upper bounds. */
  const MaxAnnualRate: real := 100.0
  const MaxTermMonths: real := 600.0
  const MaxLoanAmount: real := 10000000.0

  /** A partially filled product form. */
  datatype ProductForm = ProductForm(name: Option<string>, annualInterestRate: Option<JsNum>, maxTermMonths: Option<JsNum>)

  /** A partially filled simulation form. */
  datatype RequestForm = RequestForm(productId: Option<string>, loanAmount: Option<JsNum>, termMonths: Option<JsNum>)

  /** The outcome of a validator; the source reports `Message` of each issue. */
  datatype Validation = Validation(isValid: bool, errors: seq<Issue>)

  /** A text field that is absent, empty or only whitespace. */
  predicate Blank(s: Option<string>) {
    s.None? || Trim(s.value) == ""
  }

  /** A number field that is absent, NaN, zero or negative (-Infinity included). */
  predicate NotPositive(v: Option<JsNum>) {
    v.None? || v.value.NaN? || v.value.NegInfinity? || (v.value.Finite? && v.value.v <= 0.0)
  }

  /** A number field that is present and above `max` (+Infinity included). */
  predicate Above(v: Option<JsNum>, max: real) {
    v.Some? && (v.value.PosInfinity? || (v.value.Finite? && v.value.v > max))
  }

  /** The acceptance condition of a number field, stated on its own: a
      finite number, positive and at most `max`. */
  predicate InRange(v: Option<JsNum>, max: real) {
    v.Some? && v.value.Finite? && 0.0 < v.value.v && v.value.v <= max
  }

  /** JavaScript's `x <= bound` on a number: false for NaN. */
  predicate AtMost(x: JsNum, bound: real) {
    x.NegInfinity? || (x.Finite? && x.v <= bound)
  }

  /** JavaScript's `x > bound` on a number: false for NaN. */
  predicate Greater(x: JsNum, bound: real) {
    x.PosInfinity? || (x.Finite? && x.v > bound)
  }

  /** The issue of a text field, if it is blank. */
  function TextCheck(s: Option<string>, required: Issue): (r: seq<Issue>)
    ensures r == [] <==> !Blank(s)
    ensures required in r <==> Blank(s)
    ensures forall x :: x in r ==> x == required
    ensures forall i :: 0 <= i < |r| ==> r[i] == required
    ensures |r| <= 1
  {
    if s.None? || |Trim(s.value)| == 0 then [required] else []
  }

  /** The issue of a number field: not positive, or else above `max`. */
  function RangeCheck(v: Option<JsNum>, max: real, notPositive: Issue, tooLarge: Issue): (r: seq<Issue>)
    requires notPositive != tooLarge && max > 0.0
    ensures r == [] <==> InRange(v, max)
    ensures notPositive in r <==> NotPositive(v)
    ensures tooLarge in r <==> Above(v, max)
    ensures forall x :: x in r ==> x == notPositive || x == tooLarge
    ensures forall i :: 0 <= i < |r| ==> r[i] == notPositive || r[i] == tooLarge
    ensures |r| <= 1
  {
    if v.None? || v.value.NaN? || AtMost(v.value, 0.0) then [notPositive]
    else if Greater(v.value, max) then [tooLarge]
    else []
  }

  /** Three per-field results, joined: each issue in one of them belongs to
      that field, so the joined list is in field order. */
  lemma Joined(a: seq<Issue>, b: seq<Issue>, c: seq<Issue>)
    requires |a| <= 1 && |b| <= 1 && |c| <= 1
    requires forall i :: 0 <= i < |a| ==> Field(a[i]) == 0
    requires forall i :: 0 <= i < |b| ==> Field(b[i]) == 1
    requires forall i :: 0 <= i < |c| ==> Field(c[i]) == 2
    ensures forall i, j :: 0 <= i < j < |Collect(a, b, c).errors| ==>
      Field(Collect(a, b, c).errors[i]) < Field(Collect(a, b, c).errors[j])
    ensures |Collect(a, b, c).errors| <= 3
  {
  }

  /** The outcome of three per-field results: their issues in field order,
      valid exactly when there is none. */
  function Collect(a: seq<Issue>, b: seq<Issue>, c: seq<Issue>): (r: Validation)
    ensures r.isValid <==> r.errors == []
    ensures r.isValid <==> a == [] && b == [] && c == []
    ensures forall x :: x in r.errors <==> x in a || x in b || x in c
  {
    var errors := a + b + c;
    Validation(|errors| == 0, errors)
  }

  /** `validateProduct`. */
  function ValidateProduct(form: ProductForm): (r: Validation)
    ensures r.isValid <==> r.errors == []
    ensures r.isValid <==>
      !Blank(form.name) && InRange(form.annualInterestRate, MaxAnnualRate) && InRange(form.maxTermMonths, MaxTermMonths)
  {
    var name := TextCheck(form.name, NameRequired);
    var rate := RangeCheck(form.annualInterestRate, MaxAnnualRate, RateNotPositive, RateTooHigh);
    var term := RangeCheck(form.maxTermMonths, MaxTermMonths, MaxTermNotPositive, MaxTermTooLong);
    Collect(name, rate, term)
  }

  /** `validateSimulationRequest`. */
  function ValidateSimulationRequest(form: RequestForm): (r: Validation)
    ensures r.isValid <==> r.errors == []
    ensures r.isValid <==>
      !Blank(form.productId) && InRange(form.loanAmount, MaxLoanAmount) && InRange(form.termMonths, MaxTermMonths)
  {
    var product := TextCheck(form.productId, ProductNotSelected);
    var amount := RangeCheck(form.loanAmount, MaxLoanAmount, AmountNotPositive, AmountTooHigh);
    var term := RangeCheck(form.termMonths, MaxTermMonths, TermNotPositive, TermTooLong);
    Collect(product, amount, term)
  }

  /** Each product issue is reported exactly when its field fails its check. */
  lemma ProductIssues(form: ProductForm)
    ensures NameRequired in ValidateProduct(form).errors <==> Blank(form.name)
    ensures RateNotPositive in ValidateProduct(form).errors <==> NotPositive(form.annualInterestRate)
    ensures RateTooHigh in ValidateProduct(form).errors <==> Above(form.annualInterestRate, MaxAnnualRate)
    ensures MaxTermNotPositive in ValidateProduct(form).errors <==> NotPositive(form.maxTermMonths)
    ensures MaxTermTooLong in ValidateProduct(form).errors <==> Above(form.maxTermMonths, MaxTermMonths)
  {
    ProductNameIssue(form);
    ProductRateIssues(form);
    ProductTermIssues(form);
  }

  lemma ProductNameIssue(form: ProductForm)
    ensures NameRequired in ValidateProduct(form).errors <==> Blank(form.name)
  {
    var name := TextCheck(form.name, NameRequired);
    var rate := RangeCheck(form.annualInterestRate, MaxAnnualRate, RateNotPositive, RateTooHigh);
    var term := RangeCheck(form.maxTermMonths, MaxTermMonths, MaxTermNotPositive, MaxTermTooLong);
    assert ValidateProduct(form) == Collect(name, rate, term);
    assert NameRequired !in rate && NameRequired !in term;
  }

  lemma ProductRateIssues(form: ProductForm)
    ensures RateNotPositive in ValidateProduct(form).errors <==> NotPositive(form.annualInterestRate)
    ensures RateTooHigh in ValidateProduct(form).errors <==> Above(form.annualInterestRate, MaxAnnualRate)
  {
    var name := TextCheck(form.name, NameRequired);
    var rate := RangeCheck(form.annualInterestRate, MaxAnnualRate, RateNotPositive, RateTooHigh);
    var term := RangeCheck(form.maxTermMonths, MaxTermMonths, MaxTermNotPositive, MaxTermTooLong);
    assert ValidateProduct(form) == Collect(name, rate, term);
  }

  lemma ProductTermIssues(form: ProductForm)
    ensures MaxTermNotPositive in ValidateProduct(form).errors <==> NotPositive(form.maxTermMonths)
    ensures MaxTermTooLong in ValidateProduct(form).errors <==> Above(form.maxTermMonths, MaxTermMonths)
  {
    var name := TextCheck(form.name, NameRequired);
    var rate := RangeCheck(form.annualInterestRate, MaxAnnualRate, RateNotPositive, RateTooHigh);
    var term := RangeCheck(form.maxTermMonths, MaxTermMonths, MaxTermNotPositive, MaxTermTooLong);
    assert ValidateProduct(form) == Collect(name, rate, term);
  }

  /** Each request issue is reported exactly when its field fails its check. */
  lemma RequestIssues(form: RequestForm)
    ensures ProductNotSelected in ValidateSimulationRequest(form).errors <==> Blank(form.productId)
    ensures AmountNotPositive in ValidateSimulationRequest(form).errors <==> NotPositive(form.loanAmount)
    ensures AmountTooHigh in ValidateSimulationRequest(form).errors <==> Above(form.loanAmount, MaxLoanAmount)
    ensures TermNotPositive in ValidateSimulationRequest(form).errors <==> NotPositive(form.termMonths)
    ensures TermTooLong in ValidateSimulationRequest(form).errors <==> Above(form.termMonths, MaxTermMonths)
  {
    RequestProductIssue(form);
    RequestAmountIssues(form);
    RequestTermIssues(form);
  }

  lemma RequestProductIssue(form: RequestForm)
    ensures ProductNotSelected in ValidateSimulationRequest(form).errors <==> Blank(form.productId)
  {
    var product := TextCheck(form.productId, ProductNotSelected);
    var amount := RangeCheck(form.loanAmount, MaxLoanAmount, AmountNotPositive, AmountTooHigh);
    var term := RangeCheck(form.termMonths, MaxTermMonths, TermNotPositive, TermTooLong);
    assert ValidateSimulationRequest(form) == Collect(product, amount, term);
    assert ProductNotSelected !in amount && ProductNotSelected !in term;
  }

  lemma RequestAmountIssues(form: RequestForm)
    ensures AmountNotPositive in ValidateSimulationRequest(form).errors <==> NotPositive(form.loanAmount)
    ensures AmountTooHigh in ValidateSimulationRequest(form).errors <==> Above(form.loanAmount, MaxLoanAmount)
  {
    var product := TextCheck(form.productId, ProductNotSelected);
    var amount := RangeCheck(form.loanAmount, MaxLoanAmount, AmountNotPositive, AmountTooHigh);
    var term := RangeCheck(form.termMonths, MaxTermMonths, TermNotPositive, TermTooLong);
    assert ValidateSimulationRequest(form) == Collect(product, amount, term);
  }

  lemma RequestTermIssues(form: RequestForm)
    ensures TermNotPositive in ValidateSimulationRequest(form).errors <==> NotPositive(form.termMonths)
    ensures TermTooLong in ValidateSimulationRequest(form).errors <==> Above(form.termMonths, MaxTermMonths)
  {
    var product := TextCheck(form.productId, ProductNotSelected);
    var amount := RangeCheck(form.loanAmount, MaxLoanAmount, AmountNotPositive, AmountTooHigh);
    var term := RangeCheck(form.termMonths, MaxTermMonths, TermNotPositive, TermTooLong);
    assert ValidateSimulationRequest(form) == Collect(product, amount, term);
  }

  /** The product validator reports only product issues. */
  lemma ProductIssuesKnown(form: ProductForm)
    ensures forall i :: 0 <= i < |ValidateProduct(form).errors| ==>
      ValidateProduct(form).errors[i] in {NameRequired, RateNotPositive, RateTooHigh, MaxTermNotPositive, MaxTermTooLong}
  {
    var name := TextCheck(form.name, NameRequired);
    var rate := RangeCheck(form.annualInterestRate, MaxAnnualRate, RateNotPositive, RateTooHigh);
    var term := RangeCheck(form.maxTermMonths, MaxTermMonths, MaxTermNotPositive, MaxTermTooLong);
    assert ValidateProduct(form) == Collect(name, rate, term);
  }

  /** The product validator reports at most one issue per field, in field order. */
  lemma ProductIssuesInOrder(form: ProductForm)
    ensures forall i, j :: 0 <= i < j < |ValidateProduct(form).errors| ==>
      Field(ValidateProduct(form).errors[i]) < Field(ValidateProduct(form).errors[j])
    ensures |ValidateProduct(form).errors| <= 3
  {
    var name := TextCheck(form.name, NameRequired);
    var rate := RangeCheck(form.annualInterestRate, MaxAnnualRate, RateNotPositive, RateTooHigh);
    var term := RangeCheck(form.maxTermMonths, MaxTermMonths, MaxTermNotPositive, MaxTermTooLong);
    assert ValidateProduct(form) == Collect(name, rate, term);
    Joined(name, rate, term);
  }

  /** The request validator reports only request issues. */
  lemma RequestIssuesKnown(form: RequestForm)
    ensures forall i :: 0 <= i < |ValidateSimulationRequest(form).errors| ==>
      ValidateSimulationRequest(form).errors[i] in {ProductNotSelected, AmountNotPositive, AmountTooHigh, TermNotPositive, TermTooLong}
  {
    var product := TextCheck(form.productId, ProductNotSelected);
    var amount := RangeCheck(form.loanAmount, MaxLoanAmount, AmountNotPositive, AmountTooHigh);
    var term := RangeCheck(form.termMonths, MaxTermMonths, TermNotPositive, TermTooLong);
    assert ValidateSimulationRequest(form) == Collect(product, amount, term);
  }

  /** The request validator reports at most one issue per field, in field order. */
  lemma RequestIssuesInOrder(form: RequestForm)
    ensures forall i, j :: 0 <= i < j < |ValidateSimulationRequest(form).errors| ==>
      Field(ValidateSimulationRequest(form).errors[i]) < Field(ValidateSimulationRequest(form).errors[j])
    ensures |ValidateSimulationRequest(form).errors| <= 3
  {
    var product := TextCheck(form.productId, ProductNotSelected);
    var amount := RangeCheck(form.loanAmount, MaxLoanAmount, AmountNotPositive, AmountTooHigh);
    var term := RangeCheck(form.termMonths, MaxTermMonths, TermNotPositive, TermTooLong);
    assert ValidateSimulationRequest(form) == Collect(product, amount, term);
    Joined(product, amount, term);
  }

  /** `validateCurrency` is the currency module's range validation, unchanged:
      the text is accepted exactly when it reads as a number between the
      minimum and the maximum amount, and unreadable text is reported as such. */
  function ValidateCurrency(value: string): (r: Currency.AmountCheck)
    ensures r == Currency.ValidateCurrencyAmount(value)
    ensures r.isValid <==>
      Currency.ParseCurrency(value).Finite?
      && Currency.MinValue <= Currency.ParseCurrency(value).v <= Currency.MaxValue
    ensures Currency.ParseCurrency(value).NaN? ==> r.error == Some(Currency.InvalidValue)
  {
    Currency.ValidateCurrencyAmount(value)
  }

  /** The two issues of a number field exclude each other. */
  lemma NumberMessagesExclusive(form: ProductForm, request: RequestForm)
    ensures !(RateNotPositive in ValidateProduct(form).errors && RateTooHigh in ValidateProduct(form).errors)
    ensures !(MaxTermNotPositive in ValidateProduct(form).errors && MaxTermTooLong in ValidateProduct(form).errors)
    ensures !(AmountNotPositive in ValidateSimulationRequest(request).errors && AmountTooHigh in ValidateSimulationRequest(request).errors)
    ensures !(TermNotPositive in ValidateSimulationRequest(request).errors && TermTooLong in ValidateSimulationRequest(request).errors)
  {
    ProductIssues(form);
    RequestIssues(request);
  }

  /** A name that is not blank. */
  lemma NamedProduct()
    ensures !Blank(Some("Produto"))
  {
    assert !IsWhitespace("Produto"[0]);
    assert TrimStart("Produto") == "Produto";
    assert !IsWhitespace("Produto"[6]);
    assert TrimEnd("Produto") == "Produto";
  }

  /** A name made of spaces is blank. */
  lemma SpacesAreBlank()
    ensures Blank(Some("  "))
  {
    TrimEmptyIffBlank("  ");
  }

  /** The product bounds are inclusive and fractional values pass: a rate of
      exactly 100% with a term of exactly 600 months, or 12.5% over 36.5
      months, is accepted. */
  lemma ProductBoundsAreInclusive()
    ensures ValidateProduct(ProductForm(Some("Produto"), Some(Finite(100.0)), Some(Finite(600.0)))).isValid
    ensures ValidateProduct(ProductForm(Some("Produto"), Some(Finite(12.5)), Some(Finite(36.5)))).isValid
  {
    NamedProduct();
  }

  /** With any product chosen, an amount of exactly R$ 10,000,000.00 is
      accepted and one cent more is not. */
  lemma AmountBoundIsInclusive(productId: string)
    requires !Blank(Some(productId))
    ensures ValidateSimulationRequest(RequestForm(Some(productId), Some(Finite(10000000.0)), Some(Finite(600.0)))).isValid
    ensures ValidateSimulationRequest(RequestForm(Some(productId), Some(Finite(10000000.01)), Some(Finite(600.0)))).errors == [AmountTooHigh]
  {
    assert RangeCheck(Some(Finite(10000000.01)), MaxLoanAmount, AmountNotPositive, AmountTooHigh) == [AmountTooHigh];
    assert RangeCheck(Some(Finite(600.0)), MaxTermMonths, TermNotPositive, TermTooLong) == [];
  }

  /** A product form wrong in every field gets one issue per field, in order. */
  lemma EveryProductFieldWrong()
    ensures ValidateProduct(ProductForm(Some("  "), Some(Finite(0.0)), Some(Finite(601.0)))).errors
         == [NameRequired, RateNotPositive, MaxTermTooLong]
  {
    SpacesAreBlank();
  }

  /** A request form wrong in every field gets one issue per field, in order. */
  lemma EveryRequestFieldWrong()
    ensures ValidateSimulationRequest(RequestForm(None, Some(Finite(-5.0)), Some(Finite(700.0)))).errors
         == [ProductNotSelected, AmountNotPositive, TermTooLong]
  {
  }

  /** NaN counts as missing, -Infinity as not positive and +Infinity as too
      large: the falsy test and the comparisons treat them as JavaScript does. */
  lemma NonFiniteProductNumbers(name: string)
    requires !Blank(Some(name))
    ensures ValidateProduct(ProductForm(Some(name), Some(NaN), Some(PosInfinity))).errors
         == [RateNotPositive, MaxTermTooLong]
  {
    assert RangeCheck(Some(NaN), MaxAnnualRate, RateNotPositive, RateTooHigh) == [RateNotPositive];
    assert RangeCheck(Some(PosInfinity), MaxTermMonths, MaxTermNotPositive, MaxTermTooLong) == [MaxTermTooLong];
  }

  lemma NonFiniteRequestNumbers(productId: string)
    requires !Blank(Some(productId))
    ensures ValidateSimulationRequest(RequestForm(Some(productId), Some(NegInfinity), Some(NaN))).errors
         == [AmountNotPositive, TermNotPositive]
  {
    assert RangeCheck(Some(NegInfinity), MaxLoanAmount, AmountNotPositive, AmountTooHigh) == [AmountNotPositive];
    assert RangeCheck(Some(NaN), MaxTermMonths, TermNotPositive, TermTooLong) == [TermNotPositive];
  }
}
