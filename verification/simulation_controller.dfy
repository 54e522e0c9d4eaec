/**
 * The server's simulation endpoint (`SimulationController.simulateLoan`) as a
 * pure function from the request body and the product store to the response.
 *
 * Five checks run in a fixed order and the first failure decides the
 * response; otherwise the loan is priced with the annuity engine and every
 * top-level figure is rounded from the UNROUNDED monthly payment.
 *
 * The twelfth root behind `calculateMonthlyInterestRate` is not computed: the
 * caller supplies `monthlyRateOf`, constrained to return the monthly rate
 * that compounds to the yearly one (`IsMonthlyRate`).
 */
module SimulationController {
  import opened Wrappers
  import opened Js
  import opened Rounding
  import opened LoanTypes
  import opened LoanCalculations
  import Storage
  import ProductController

  const ProductIdRequired: string := "ID do produto é obrigatório"
  const AmountNotPositive: string := "Valor do empréstimo deve ser um número positivo"
  const TermNotPositive: string := "Prazo deve ser um número positivo"
  const ProductNotFound: string := "Produto não encontrado"

  /** The fields of a simulation request body. */
  datatype SimulationBody = SimulationBody(productId: JsValue, loanAmount: JsValue, termMonths: JsValue)

  /** The `LoanSimulationResult` of a successful simulation. */
  datatype SimulationResult = SimulationResult(
    product: Product,
    loanAmount: real,
    termMonths: real,
    monthlyInterestRate: real,   // percent, two decimals
    monthlyPayment: real,
    totalAmount: real,
    totalInterest: real,
    monthlyBreakdown: seq<Entry>)

  /** Why a simulation was refused. */
  datatype Rejection =
    | MissingProductId
    | InvalidAmount
    | InvalidTerm
    | UnknownProduct
    | TermAboveMaximum(maxTermMonths: real)

  /** The response: a result with status 200, or a refusal with its status. */
  datatype Response =
    | Simulated(result: SimulationResult)
    | Refused(status: int, reason: Rejection)

  /** The message sent with a refusal. The maximum term is written the way
      JavaScript prints a whole number. */
  function Message(reason: Rejection): string
    requires reason.TermAboveMaximum? ==> IsWholeNonNegative(reason.maxTermMonths)
  {
    match reason
    case MissingProductId => ProductIdRequired
    case InvalidAmount => AmountNotPositive
    case InvalidTerm => TermNotPositive
    case UnknownProduct => ProductNotFound
    case TermAboveMaximum(max) => "Prazo máximo para este produto é " + NatToString(max.Floor) + " meses"
  }

  predicate IsWholeNonNegative(x: real) {
    x >= 0.0 && x.Floor as real == x
  }

  /** `monthlyRateOf` converts every positive yearly rate to its monthly rate. */
  ghost predicate SoundRateConversion(monthlyRateOf: real -> real) {
    forall a :: a > 0.0 ==> IsMonthlyRate(a, monthlyRateOf(a))
  }

  /** The term in the body, when it is a number, is a whole number of months. */
  predicate WholeTerm(body: SimulationBody) {
    body.termMonths.JsNumber? ==> body.termMonths.n.Floor as real == body.termMonths.n
  }

  /** The checks before the product lookup all pass. */
  predicate FieldsValid(body: SimulationBody) {
    IsNonEmptyString(body.productId) && IsPositiveNumber(body.loanAmount) && IsPositiveNumber(body.termMonths)
  }

  /** The figures reported for a loan of `amount` over `term` months at the
      monthly rate `m`, given the unrounded monthly payment. */
  function Price(product: Product, amount: real, term: nat, m: real, payment: real): (r: SimulationResult)
    ensures |r.monthlyBreakdown| == term
  {
    var totalAmount := payment * term as real;
    var totalInterest := totalAmount - amount;
    SimulationResult(
      product, amount, term as real,
      RatePercent(m),
      Round2(payment),
      Round2(totalAmount),
      Round2(totalInterest),
      AmortizationSchedule(amount, payment, m, term))
  }

  /** `simulateLoan`. */
  function Simulate(body: SimulationBody, store: seq<Product>, monthlyRateOf: real -> real): (r: Response)
    requires ProductController.ValidStore(store)
    requires SoundRateConversion(monthlyRateOf)
    requires WholeTerm(body)
    // a refusal is a 404 for an unknown product and a 400 otherwise
    ensures r.Refused? ==> (r.status == 404 <==> r.reason == UnknownProduct)
    ensures r.Refused? ==> r.status == 400 || r.status == 404
    // on success: the product found, the amount and the term are echoed, one row per month
    ensures r.Simulated? ==>
      && FieldsValid(body)
      && Storage.GetProductById(store, body.productId.s) == Some(r.result.product)
      && r.result.loanAmount == body.loanAmount.n
      && r.result.termMonths == body.termMonths.n
      && |r.result.monthlyBreakdown| as real == body.termMonths.n
  {
    if !IsNonEmptyString(body.productId) then Refused(400, MissingProductId)
    else if !IsPositiveNumber(body.loanAmount) then Refused(400, InvalidAmount)
    else if !IsPositiveNumber(body.termMonths) then Refused(400, InvalidTerm)
    else
      var found := Storage.GetProductById(store, body.productId.s);
      if found.None? then Refused(404, UnknownProduct)
      else if body.termMonths.n > found.value.maxTermMonths then Refused(400, TermAboveMaximum(found.value.maxTermMonths))
      else
        var product := found.value;
        var m := monthlyRateOf(product.annualInterestRate);
        ProductRateIsPositive(store, body.productId.s);
        MonthlyRateSign(product.annualInterestRate, m);
        var term: nat := body.termMonths.n.Floor;
        MonthlyPaymentFinite(body.loanAmount.n, m, term);
        Simulated(Price(product, body.loanAmount.n, term, m, MonthlyPayment(body.loanAmount.n, m, term).v))
  }

  /** A product found in a valid store has a positive rate and term. */
  lemma ProductRateIsPositive(store: seq<Product>, id: string)
    requires ProductController.ValidStore(store)
    ensures Storage.GetProductById(store, id).Some? ==>
      Storage.GetProductById(store, id).value.annualInterestRate > 0.0
      && Storage.GetProductById(store, id).value.maxTermMonths > 0.0
  {
  }

  /** A simulation is priced exactly when the fields are valid, the product
      exists and the term does not exceed its maximum; otherwise the FIRST
      failing check, in source order, names the refusal. */
  lemma SimulateDecision(body: SimulationBody, store: seq<Product>, monthlyRateOf: real -> real)
    requires ProductController.ValidStore(store)
    requires SoundRateConversion(monthlyRateOf)
    requires WholeTerm(body)
    ensures var r := Simulate(body, store, monthlyRateOf);
      && (r.Simulated? <==>
            FieldsValid(body)
            && Storage.GetProductById(store, body.productId.s).Some?
            && body.termMonths.n <= Storage.GetProductById(store, body.productId.s).value.maxTermMonths)
      && (!IsNonEmptyString(body.productId) ==> r == Refused(400, MissingProductId))
      && ((IsNonEmptyString(body.productId) && !IsPositiveNumber(body.loanAmount)) ==> r == Refused(400, InvalidAmount))
      && ((IsNonEmptyString(body.productId) && IsPositiveNumber(body.loanAmount) && !IsPositiveNumber(body.termMonths))
            ==> r == Refused(400, InvalidTerm))
      && ((FieldsValid(body) && Storage.GetProductById(store, body.productId.s).None?) ==> r == Refused(404, UnknownProduct))
      && ((FieldsValid(body) && Storage.GetProductById(store, body.productId.s).Some?
            && body.termMonths.n > Storage.GetProductById(store, body.productId.s).value.maxTermMonths)
            ==> r == Refused(400, TermAboveMaximum(Storage.GetProductById(store, body.productId.s).value.maxTermMonths)))
  {
  }

  /** The maximum term itself is accepted: the comparison is strict. */
  lemma TermAtMaximumAccepted(body: SimulationBody, store: seq<Product>, monthlyRateOf: real -> real)
    requires ProductController.ValidStore(store)
    requires SoundRateConversion(monthlyRateOf)
    requires WholeTerm(body)
    requires FieldsValid(body) && Storage.GetProductById(store, body.productId.s).Some?
    requires body.termMonths.n == Storage.GetProductById(store, body.productId.s).value.maxTermMonths
    ensures Simulate(body, store, monthlyRateOf).Simulated?
  {
  }

  /** What a priced loan promises, for a positive amount and a positive
      monthly rate with `p` the unrounded annuity payment: the reported
      payment is `p` to the cent; the totals are rounded from `p` itself, not
      from the rounded payment; the interest paid is never negative; and the
      schedule shows no negative balance and ends at exactly 0.00. */
  lemma PriceFigures(product: Product, amount: real, term: nat, m: real, p: real)
    requires term >= 1 && m > 0.0 && amount > 0.0
    requires MonthlyPayment(amount, m, term) == Finite(p)
    ensures var r := Price(product, amount, term, m, p);
      && r.product == product && r.loanAmount == amount && r.termMonths == term as real
      && r.monthlyInterestRate == RatePercent(m)
      && IsCents(r.monthlyPayment) && -0.005 < r.monthlyPayment - p <= 0.005
      && IsCents(r.totalAmount) && -0.005 < r.totalAmount - p * term as real <= 0.005
      && r.totalInterest >= 0.0
    ensures var s := Price(product, amount, term, m, p).monthlyBreakdown;
      && s[term - 1].balance == 0.0
      && (forall i :: 0 <= i < term ==> s[i].balance >= 0.0)
  {
    PriceTotals(amount, term, m, p);
    PriceSchedule(amount, term, m, p);
  }

  lemma PriceTotals(amount: real, term: nat, m: real, p: real)
    requires term >= 1 && m > 0.0 && amount > 0.0
    requires MonthlyPayment(amount, m, term) == Finite(p)
    ensures Round2(p * term as real - amount) >= 0.0
  {
    TotalPaidExceeds(amount, m, term, p);
    NonNegativeInterest(p * term as real - amount);
  }

  lemma PriceSchedule(amount: real, term: nat, m: real, p: real)
    requires term >= 1 && m > -1.0
    requires MonthlyPayment(amount, m, term) == Finite(p)
    ensures var s := AmortizationSchedule(amount, p, m, term);
      && s[term - 1].balance == 0.0
      && (forall i :: 0 <= i < term ==> s[i].balance >= 0.0)
  {
    LastReportedBalanceIsZero(amount, m, term);
    var s := AmortizationSchedule(amount, p, m, term);
    forall i | 0 <= i < term
      ensures s[i].balance >= 0.0
    {
      ReportedBalancesNonNegative(amount, p, m, term, i);
    }
  }

  /** Rounding a positive amount of interest never makes it negative. */
  lemma NonNegativeInterest(x: real)
    requires x > 0.0
    ensures Round2(x) >= 0.0
  {
    Round2Monotone(0.0, x);
    Round2OfCents(0.0);
  }

  /** The success path end to end: a priced simulation shows the payment to
      the cent, non-negative interest and a schedule that ends at 0.00. */
  lemma SimulatedLoanPaysOff(body: SimulationBody, store: seq<Product>, monthlyRateOf: real -> real)
    requires ProductController.ValidStore(store)
    requires SoundRateConversion(monthlyRateOf)
    requires WholeTerm(body)
    requires Simulate(body, store, monthlyRateOf).Simulated?
    ensures var r := Simulate(body, store, monthlyRateOf).result;
      && |r.monthlyBreakdown| >= 1
      && r.totalInterest >= 0.0
      && IsCents(r.monthlyPayment)
      && r.monthlyBreakdown[|r.monthlyBreakdown| - 1].balance == 0.0
  {
    var product := Storage.GetProductById(store, body.productId.s).value;
    ProductRateIsPositive(store, body.productId.s);
    var m := monthlyRateOf(product.annualInterestRate);
    MonthlyRateSign(product.annualInterestRate, m);
    var term: nat := body.termMonths.n.Floor;
    MonthlyPaymentFinite(body.loanAmount.n, m, term);
    PriceFigures(product, body.loanAmount.n, term, m, MonthlyPayment(body.loanAmount.n, m, term).v);
  }

  /** The refusal for a term above the maximum quotes the maximum in months. */
  lemma TermAboveMaximumMessage()
    ensures Message(TermAboveMaximum(60.0)) == "Prazo máximo para este produto é 60 meses"
    ensures Message(TermAboveMaximum(360.0)) == "Prazo máximo para este produto é 360 meses"
  {
    assert NatToString(60) == "60";
    assert NatToString(360) == "360";
  }
}
