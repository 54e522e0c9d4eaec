# Personal-loan simulation core, modelled in Dafny

This project models the deterministic core of a personal-loan simulator.
The simulator has two parts: a small Express API (`personal-loan-api`) and a
React Native client (`simulation-app`). The model covers:

- **The client's rounding amortization scheduler** (`LoanCalculator`).
  - Price-system rows rounded to cents with banker's rounding.
  - The rounded balance is carried from month to month.
  - The whole remainder is paid in the last month.
- **The API's annuity engine** (`LoanCalculations`).
  - The monthly rate is equivalent to the yearly rate.
  - The annuity payment, with a zero-rate branch.
  - A schedule whose running balance is never rounded and whose reported
    figures are rounded half-up.
- **The API's simulation endpoint** (`SimulationController`).
  - An ordered validation chain in which the first failure decides the
    status and message.
  - Assembly of the priced result.
- **The API's product endpoints and in-memory store** (`ProductController`,
  `Storage`).
  - Product creation is a three-step check followed by an append.
  - The store is an append-only sequence with a first-match lookup by id.
- **The client's form validators** (`ValidationService`).
  - Field-by-field checks that accumulate an error list.
  - Inclusive upper bounds: rate 100, term 600, amount 10,000,000.
  - Number fields are JavaScript numbers: NaN fails the falsy test like a
    missing value, and ±Infinity are compared as JavaScript compares them.
- **The client's pt-BR currency text handling** (`Currency`).
  - `parseCurrency`, `applyCurrencyMask`, `formatCurrency` and
    `formatCurrencyValue` on whole numbers of cents.
  - `isValidCurrency`, `validateCurrencyAmount` and the currency constraints.

Money is an exact `real`. The source's two rounding rules are written out
with `.Floor` (module `Rounding`):

- `bankersRound(v, 2)` is round-half-to-even to cents.
- `Math.round(x * 100) / 100` is `floor(x * 100 + 0.5) / 100`.

JavaScript numbers that can be NaN or infinite are the datatype
`Js.JsNum`. `parseFloat` and `trim` are modelled character by character
(module `Js` and `Currency.ParseFloat`).

Files:

- `wrappers.dfy`: `Option`.
- `api.dfy`: the HTTP outcome (status and data, or status and message).
- `loan_types.dfy`: `Product` and schedule `Entry`.
- `js.dfy`: the JavaScript values and string primitives used.
- `rounding.dfy`: cents, banker's rounding and half-up rounding.
- `loan_calculator.dfy`: the client scheduler.
- `loan_calculations.dfy`: the annuity engine.
- `storage.dfy`, `product_controller.dfy`, `simulation_controller.dfy`: the
  API.
- `validation_service.dfy`, `currency.dfy`: the client's validators and
  currency text.

Where the code and its description differ, the model follows the code:

- The product endpoint's name check only asks for a non-empty string. A name
  of spaces passes the check and is stored trimmed, as "".
- The reported monthly rate for the seeded 18.5% product is 1.42, the
  rounded percent of the exact monthly rate.

## Model

| member | source | states |
|---|---|---|
| Rounding.BankersRound | simulation-app/services/implementations/LoanCalculator.ts:46-57 | the result is a whole number of cents within half a cent of the value; it is strictly within half a cent unless the value lies exactly on a half cent, and then the even cent is chosen |
| Rounding.BankersMonotone | simulation-app/services/implementations/LoanCalculator.ts:46-57 | banker's rounding never reverses the order of two values |
| Rounding.BankersRoundOfCents | simulation-app/services/implementations/LoanCalculator.ts:46-57 | a value already in whole cents is left unchanged |
| Rounding.Round2 | personal-loan-api/src/utils/loanCalculations.ts:33-36 | half-up rounding to cents lands in whole cents, above the value by at most half a cent and below it by less than half a cent |
| Rounding.Round2Monotone | personal-loan-api/src/utils/loanCalculations.ts:33-36 | half-up rounding never reverses the order of two values |
| LoanCalculator.Schedule | simulation-app/services/implementations/LoanCalculator.ts:21-43 | the schedule has one row per month, numbered 1 to months in order, and is empty when months is 0 or less |
| LoanCalculator.GenerateAmortizationSchedule | simulation-app/services/implementations/LoanCalculator.ts:18-44 | the loop that carries the rounded balance builds exactly the recursive schedule, which has one row per month |
| LoanCalculator.ScheduleRow | simulation-app/services/implementations/LoanCalculator.ts:18-42 | row i's interest is the rounded product of the previous rounded balance (the principal in month 1) and the rate divided by 100; its amortization is the rounded payment minus interest, or the whole previous balance in the last month; its balance is the rounded difference; all three are in cents |
| LoanCalculator.ScheduleFollowsLoop | simulation-app/services/implementations/LoanCalculator.ts:21-43 | every row of the schedule obeys the loop body's rules |
| LoanCalculator.RulesDetermineSchedule | simulation-app/services/implementations/LoanCalculator.ts:21-43 | any sequence with the right length and numbering whose rows obey the loop body's rules is exactly the schedule |
| LoanCalculator.ScheduleInCents | simulation-app/services/implementations/LoanCalculator.ts:23-34 | every interest, amortization and balance of the schedule is a whole number of cents |
| LoanCalculator.FinalBalanceIsZero | simulation-app/services/implementations/LoanCalculator.ts:27-34 | the last row's balance is 0.00, whatever the payment and rate |
| LoanCalculator.PaymentSplitsExactly | simulation-app/services/implementations/LoanCalculator.ts:27-30 | for a payment in whole cents, every row except the last has interest plus amortization equal to the payment |
| LoanCalculator.AmortizationsSumToPrincipal | simulation-app/services/implementations/LoanCalculator.ts:33-42 | for a principal in whole cents, the amortizations of all rows sum exactly to the principal |
| LoanCalculator.BalanceNonIncreasing | simulation-app/services/implementations/LoanCalculator.ts:21-42 | a row's balance is no larger than the balance carried in: before the last row whenever the payment covers the row's interest, and in the last row whenever the balance carried in is not negative; the first row needs a principal in whole cents, because rounding the principal itself can raise it |
| LoanCalculator.SingleMonth | simulation-app/services/implementations/LoanCalculator.ts:21-43 | a one-month loan pays the whole principal in month 1 and ends at 0.00 |
| LoanCalculator.ReferenceRow | simulation-app/__tests__/services/implementations/LoanCalculator.test.ts:13-38 | each of the twelve reference rows (principal 10000, payment 910.53, rate 1.39) obeys the loop body's rules |
| LoanCalculator.ReferenceScheduleMatches | simulation-app/__tests__/services/implementations/LoanCalculator.test.ts:13-38 | the schedule for principal 10000, payment 910.53, rate 1.39 over 12 months is the reference table, from {139.00, 771.53, 9228.47} to {12.48, 898.05, 0.00} |
| LoanCalculations.IsMonthlyRate | personal-loan-api/src/utils/loanCalculations.ts:3-5 | no contract of its own (a relation, not a computation): m is the monthly rate of a yearly rate when (1 + m)^12 = 1 + rate/100; LoanCalculations.MonthlyRateUnique and LoanCalculations.MonthlyRateSign state that it has at most one solution, of the yearly rate's sign |
| LoanCalculations.MonthlyRateUnique | personal-loan-api/src/utils/loanCalculations.ts:3-5 | a yearly rate has at most one monthly rate m with (1 + m)^12 = 1 + rate/100 |
| LoanCalculations.MonthlyRateSign | personal-loan-api/src/utils/loanCalculations.ts:3-5 | the monthly rate is zero, positive or negative exactly when the yearly rate is |
| LoanCalculations.MonthlyRateBelowSimpleTwelfth | personal-loan-api/src/utils/loanCalculations.ts:3-5 | for a positive yearly rate the compound monthly rate lies strictly between 0 and a twelfth of the yearly rate |
| LoanCalculations.PersonalLoanMonthlyRate | simulation-app/__tests__/services/api.test.ts:454-481 | the monthly rate of 18.5% a year lies between 1.415% and 1.425%, and is reported as 1.42 |
| LoanCalculations.RatePercent | personal-loan-api/src/controllers/simulationController.ts:71 | the reported monthly rate is in whole hundredths of a percent and within half a hundredth of the exact percent |
| LoanCalculations.MonthlyPayment | personal-loan-api/src/utils/loanCalculations.ts:7-16 | no contract of its own; LoanCalculations.MonthlyPaymentFinite, LoanCalculations.ZeroRatePaysOff, LoanCalculations.AnnuityFormula and LoanCalculations.PaymentPaysOff state when it is finite, its two formulas, and that it pays the loan off exactly |
| LoanCalculations.MonthlyPaymentFinite | personal-loan-api/src/utils/loanCalculations.ts:7-16 | the payment is a finite number whenever there is at least one month and the rate is above -100%; with no months and a non-zero principal it is not |
| LoanCalculations.ZeroRatePaysOff | personal-loan-api/src/utils/loanCalculations.ts:12 | at a zero rate the payment is principal / months, and that payment brings the balance to exactly 0 after months months |
| LoanCalculations.AnnuityFormula | personal-loan-api/src/utils/loanCalculations.ts:14-15 | for a non-zero rate the payment is P·r·f/(f−1) with f = (1+r)^months, and f is above 1 for a positive rate and between 0 and 1 for a negative one |
| LoanCalculations.PaymentPaysOff | personal-loan-api/src/utils/loanCalculations.ts:7-16 | with the computed payment, the unrounded running balance is exactly 0 after months months, for zero and non-zero rates alike |
| LoanCalculations.AmortizationGeometric | personal-loan-api/src/utils/loanCalculations.ts:28-30 | month k+1's amortization is month 1's amortization times (1 + r)^k |
| LoanCalculations.BalanceClosedForm | personal-loan-api/src/utils/loanCalculations.ts:28-30 | after k months, balance × r equals P·r·(1+r)^k − payment·((1+r)^k − 1) |
| LoanCalculations.ZeroRateBalance | personal-loan-api/src/utils/loanCalculations.ts:28-30 | at a zero rate the balance after k months is the principal minus k payments |
| LoanCalculations.AmortizationPositive | personal-loan-api/src/utils/loanCalculations.ts:27-30 | for a positive principal, every month's amortization under the computed payment is positive |
| LoanCalculations.BalanceStrictlyDecreases | personal-loan-api/src/utils/loanCalculations.ts:27-30 | for a positive principal, the unrounded balance strictly decreases every month |
| LoanCalculations.BalanceWithinPrincipal | personal-loan-api/src/utils/loanCalculations.ts:27-30 | during the loan the unrounded balance stays between 0 and the principal |
| LoanCalculations.TotalPaidExceedsPrincipal | personal-loan-api/src/utils/loanCalculations.ts:14-15 | for a positive principal and rate, the payment times the number of months exceeds the principal |
| LoanCalculations.AmortizationSchedule | personal-loan-api/src/utils/loanCalculations.ts:18-41 | the schedule has one row per month, numbered 1 to months, and is empty for months 0 or less |
| LoanCalculations.GenerateAmortizationSchedule | personal-loan-api/src/utils/loanCalculations.ts:18-41 | the loop that keeps the unrounded balance builds exactly the recursive schedule, with one row per month |
| LoanCalculations.AnnuityScheduleRow | personal-loan-api/src/utils/loanCalculations.ts:27-37 | row i reports the figures of the unrounded balance after i months, so rounding never feeds back into later rows |
| LoanCalculations.ReportedRowFields | personal-loan-api/src/utils/loanCalculations.ts:28-36 | a row reports the half-up rounded interest (balance × rate, the rate a fraction) and amortization, and the rounded next balance clamped at 0, which is never negative |
| LoanCalculations.ReportedBalancesNonNegative | personal-loan-api/src/utils/loanCalculations.ts:33-36 | no reported balance is negative, whatever the payment and rate |
| LoanCalculations.LastReportedBalanceIsZero | personal-loan-api/src/utils/loanCalculations.ts:27-36 | with the computed payment the last row reports a balance of 0 |
| LoanCalculations.LastRowOfPaidOffLoan | personal-loan-api/src/utils/loanCalculations.ts:33-36 | whenever the unrounded balance reaches 0 in the last month, the last row reports 0 |
| LoanCalculations.ReportedBalancesNonIncreasing | personal-loan-api/src/utils/loanCalculations.ts:30-36 | for a positive principal and the computed payment, each reported balance is at most the one before it |
| SimulationController.Simulate | personal-loan-api/src/controllers/simulationController.ts:17-104 | a refusal is 404 exactly for an unknown product and 400 otherwise; a success echoes the product found, the amount and the term, and has one breakdown row per month |
| SimulationController.SimulateDecision | personal-loan-api/src/controllers/simulationController.ts:17-68 | the request succeeds exactly when all three fields are valid, the product exists and the term is within its maximum; otherwise the first failing check fixes the status and message, in the order product id, amount, term, lookup, maximum term |
| SimulationController.TermAtMaximumAccepted | personal-loan-api/src/controllers/simulationController.ts:60 | a term equal to the product's maximum is accepted |
| SimulationController.TermAboveMaximumMessage | personal-loan-api/src/controllers/simulationController.ts:64 | the maximum-term message names the product's maximum, e.g. "Prazo máximo para este produto é 60 meses" |
| SimulationController.Price | personal-loan-api/src/controllers/simulationController.ts:81-86 | the breakdown has exactly one row per month of the term |
| SimulationController.PriceFigures | personal-loan-api/src/controllers/simulationController.ts:71-97 | the result echoes product, amount and term; the rate is the rounded percent; the payment and total are the unrounded payment and payment × term rounded to cents; the interest is not negative; the breakdown ends at 0 and never reports a negative balance |
| SimulationController.PriceTotals | personal-loan-api/src/controllers/simulationController.ts:79 | the total interest, rounded from the unrounded payment × term − amount, is not negative for a positive rate |
| SimulationController.PriceSchedule | personal-loan-api/src/controllers/simulationController.ts:81-86 | the breakdown built from the unrounded payment ends at a balance of 0 and reports no negative balance |
| SimulationController.SimulatedLoanPaysOff | personal-loan-api/src/controllers/simulationController.ts:72-97 | every successful simulation has at least one row, a payment in cents, non-negative total interest and a last reported balance of 0 |
| ProductController.GetProducts | personal-loan-api/src/controllers/productController.ts:7-16 | listing always succeeds with 200 and returns every stored product in order |
| ProductController.CreateProduct | personal-loan-api/src/controllers/productController.ts:31-78 | creation succeeds exactly when the name is a non-empty string and both numbers are positive; a failure is a 400 and stores nothing; a success is a 201 that appends exactly one product with the trimmed name and the given numbers, leaving earlier products in place |
| ProductController.CreateProductFirstFailure | personal-loan-api/src/controllers/productController.ts:36-64 | the checks run name, then rate, then term, and the first failure's message is returned |
| ProductController.BlankNameIsStored | personal-loan-api/src/controllers/productController.ts:36-71 | a name of spaces passes the check and is stored as the empty string |
| ProductController.CreateProductKeepsStoreValid | personal-loan-api/src/controllers/productController.ts:46-71 | the store keeps only products with a positive rate and term: the seed has this property and creation preserves it |
| Storage.InitialCatalogue | personal-loan-api/src/data/storage.ts:5-27 | the seed holds products "1", "2" and "3" with rates 18.5, 12.8 and 9.2 and maximum terms 60, 84 and 360, and no product "4" |
| Storage.GetAllProducts | personal-loan-api/src/data/storage.ts:29-31 | the copy has the same products in the same order |
| Storage.GetProductById | personal-loan-api/src/data/storage.ts:33-35 | a product is found exactly when some stored product has the id, and what is found is a stored product with that id |
| Storage.GetProductByIdFirst | personal-loan-api/src/data/storage.ts:33-35 | the lookup returns the first product with the id |
| Storage.AddProduct | personal-loan-api/src/data/storage.ts:37-46 | the new product carries the draft's fields with the given id and timestamp; it is appended at the end and earlier products keep their places |
| Storage.FindAddedProduct | personal-loan-api/src/data/storage.ts:37-46 | after adding under an unused id, looking that id up finds the new product |
| Storage.AddKeepsOtherLookups | personal-loan-api/src/data/storage.ts:37-46 | adding a product changes no other id's lookup, nor the lookup of an id already in use |
| Storage.GetProductCount | personal-loan-api/src/data/storage.ts:48-50 | the count is the number of products listed, and it is 0 exactly when no id finds a product |
| Storage.AddCountsOne | personal-loan-api/src/data/storage.ts:37-50 | adding a product raises the count by one |
| Storage.Reset | personal-loan-api/src/data/storage.ts:53-77 | after a reset the store holds three products, "1", "2" and "3" in that order |
| Storage.ResetForgetsHistory | personal-loan-api/src/data/storage.ts:53-77 | what a reset leaves is the seed, whatever was stored before |
| Js.Trim | simulation-app/services/implementations/ValidationService.ts:9 | the trimmed text is no longer than the input and neither starts nor ends with whitespace; Js.TrimCut states that it is the input with only its leading and trailing whitespace removed |
| Js.TrimCut | simulation-app/services/implementations/ValidationService.ts:9 | the trimmed text is a slice of the input with nothing but whitespace before it and nothing but whitespace after it |
| Js.TrimEmptyIffBlank | simulation-app/services/implementations/ValidationService.ts:9 | the trimmed text is empty exactly when the input is all whitespace |
| Js.TrimIdempotent | simulation-app/utils/currency.ts:71 | trimming twice gives the same text as trimming once |
| ValidationService.TextCheck | simulation-app/services/implementations/ValidationService.ts:9-11 | a required text field yields its issue exactly when it is missing, empty or only whitespace, and at most one issue |
| ValidationService.RangeCheck | simulation-app/services/implementations/ValidationService.ts:13-17 | a number field yields no issue exactly when it is a finite number, positive and at most the bound; "not positive" exactly when missing, NaN or at most 0 (-Infinity included), "too large" exactly when above the bound (+Infinity included); never both |
| ValidationService.Collect | simulation-app/services/implementations/ValidationService.ts:25-28 | the result is valid exactly when the error list is empty, exactly when no field reported an issue, and it holds exactly the fields' issues |
| ValidationService.ValidateProduct | simulation-app/services/implementations/ValidationService.ts:6-29 | a product form is valid exactly when the error list is empty, exactly when the name is not blank and the rate and maximum term are in range |
| ValidationService.ProductIssues | simulation-app/services/implementations/ValidationService.ts:9-23 | each of the five product issues is reported exactly when its condition holds |
| ValidationService.ProductIssuesKnown | simulation-app/services/implementations/ValidationService.ts:7-23 | a product form reports only the five product issues |
| ValidationService.ProductIssuesInOrder | simulation-app/services/implementations/ValidationService.ts:7-23 | issues come in field order, at most one per field, so at most three |
| ValidationService.ValidateSimulationRequest | simulation-app/services/implementations/ValidationService.ts:31-54 | a request is valid exactly when the error list is empty, exactly when a product is chosen and the amount and term are in range |
| ValidationService.RequestIssues | simulation-app/services/implementations/ValidationService.ts:34-48 | each of the five request issues is reported exactly when its condition holds |
| ValidationService.RequestIssuesKnown | simulation-app/services/implementations/ValidationService.ts:32-48 | a request reports only the five request issues |
| ValidationService.RequestIssuesInOrder | simulation-app/services/implementations/ValidationService.ts:32-48 | issues come in field order, at most one per field, so at most three |
| ValidationService.NumberMessagesExclusive | simulation-app/services/implementations/ValidationService.ts:13-23 | no number field is reported both as not positive and as too large |
| ValidationService.SpacesAreBlank | simulation-app/services/implementations/ValidationService.ts:9 | a name of spaces counts as blank |
| ValidationService.ProductBoundsAreInclusive | simulation-app/services/implementations/ValidationService.ts:13-23 | a rate of exactly 100 and a term of exactly 600 are accepted, and so is a fractional term such as 36.5 |
| ValidationService.AmountBoundIsInclusive | simulation-app/services/implementations/ValidationService.ts:38-42 | an amount of exactly 10,000,000 is accepted; one cent more gives only the amount-too-high issue |
| ValidationService.EveryProductFieldWrong | simulation-app/services/implementations/ValidationService.ts:7-28 | a blank name, a zero rate and a 601-month term give the three issues in field order |
| ValidationService.EveryRequestFieldWrong | simulation-app/services/implementations/ValidationService.ts:32-53 | no product, a negative amount and a 700-month term give the three issues in field order |
| ValidationService.NonFiniteProductNumbers | simulation-app/services/implementations/ValidationService.ts:13-23 | with any non-blank name, a NaN rate is reported as not positive and an infinite maximum term as too long |
| ValidationService.NonFiniteRequestNumbers | simulation-app/services/implementations/ValidationService.ts:38-48 | with any non-blank product, a -Infinity amount and a NaN term are both reported as not positive |
| ValidationService.ValidateCurrency | simulation-app/services/implementations/ValidationService.ts:56-58 | the result is the currency module's range validation, unchanged: accepted exactly when the text reads as a number between the minimum and maximum, and unreadable text is reported as invalid |
| Currency.ParseCurrency | simulation-app/utils/currency.ts:31-42 | no contract of its own; Currency.ParseCurrencyReads, Currency.ReadAmount, Currency.ParseFormattedValue and Currency.UnreadableText state what it yields |
| Currency.ParseCurrencyReads | simulation-app/utils/currency.ts:31-41 | empty text reads as 0; text of digits alone reads as the whole number they spell; the result is NaN exactly when the cleaned text, after whitespace and one sign, starts with neither "Infinity", a digit, nor a point and a digit |
| Currency.ParseDigitText | simulation-app/utils/currency.ts:31-41 | non-empty text of digits alone reads as the whole number the digits spell |
| Currency.ParseCurrencyNaN | simulation-app/utils/currency.ts:31-41 | the result is NaN exactly when the text is not empty and the cleaned text, after whitespace and one sign, starts with neither "Infinity", a digit, nor a point and a digit |
| Currency.Cleaned | simulation-app/utils/currency.ts:35-38 | the text handed to parseFloat has no comma left and is no longer than the input; Currency.CleanedKeeps states which characters survive |
| Currency.CleanedKeeps | simulation-app/utils/currency.ts:35-38 | cleaning keeps every digit of the input, in order, and leaves exactly as many points as the input had commas (the thousands dots are gone, each decimal comma became a point) |
| Currency.ParseFloat | simulation-app/utils/currency.ts:40 | no contract of its own; Currency.ParseFloatNaN, Currency.ReadDecimal and Currency.ReadWholeNumber state when it gives NaN and what digit text reads as |
| Currency.ParseFloatNaN | simulation-app/utils/currency.ts:40 | parsing gives NaN exactly when, after whitespace and one sign, the text starts with neither "Infinity", a digit, nor a point and a digit |
| Currency.ReadDecimal | simulation-app/utils/currency.ts:40 | digits, a point and digits with nothing after them read as the number the digits spell divided by ten to the length of the fraction |
| Currency.ReadWholeNumber | simulation-app/utils/currency.ts:40 | a digit string reads as the whole number it spells |
| Currency.UnreadableText | simulation-app/utils/currency.ts:31-41 | "R$", "invalid" and "abc123" read as NaN |
| Currency.ReadAmount | simulation-app/utils/currency.ts:35-40 | a formatted amount of c cents reads back as exactly c / 100 |
| Currency.ParseFormattedValue | simulation-app/utils/currency.ts:21-28 | the pt-BR text of any whole number of cents, negative or not, reads back as that value |
| Currency.ParseFormatted | simulation-app/utils/currency.ts:7-18 | the text with "R$ " (and a leading minus for negatives) reads back as the value formatted |
| Currency.FormatCurrencyValue | simulation-app/utils/currency.ts:21-28 | no contract of its own; Currency.ParseFormattedValue states that its text of any whole number of cents reads back as that value, and Currency.AmountParts gives its shape |
| Currency.FormatCurrency | simulation-app/utils/currency.ts:7-18 | no contract of its own; Currency.ParseFormatted states that its text reads back as the value, and Currency.FormattedIsValid that it passes the currency check exactly when the value is not negative |
| Currency.GroupedContents | simulation-app/utils/currency.ts:21-28 | grouping the reais in threes only inserts dots: removing them gives back the digits |
| Currency.AmountParts | simulation-app/utils/currency.ts:21-28 | a formatted amount is the grouped reais without leading zeros, a comma and two digits of centavos, and its digits spell the number of cents |
| Currency.ApplyCurrencyMask | simulation-app/utils/currency.ts:45-59 | the mask gives "" exactly when the input has no digit |
| Currency.MaskIsAmount | simulation-app/utils/currency.ts:53-58 | input with digits is masked as the amount of cents its digits spell |
| Currency.MaskRoundTrip | simulation-app/utils/currency.ts:31-59 | parsing a masked text gives the number the input's digits spell, divided by 100 |
| Currency.MaskIdempotent | simulation-app/utils/currency.ts:45-59 | masking masked text changes nothing |
| Currency.MaskExamples | simulation-app/__tests__/utils/currency.test.ts:93-103 | "1" masks to "0,01" and "abc" to "" |
| Currency.MaskGroupsThousands | simulation-app/__tests__/utils/currency.test.ts:95 | "123456" masks to "1.234,56" |
| Currency.IsValidCurrency | simulation-app/utils/currency.ts:67-74 | no contract of its own; Currency.FormattedIsValid, Currency.MaskedIsValid, Currency.AmountIsValid and Currency.RejectedCurrencyText state which texts it accepts |
| Currency.FormattedIsValid | simulation-app/utils/currency.ts:67-74 | the "R$ " text of a whole number of cents is valid exactly when the value is not negative |
| Currency.MaskedIsValid | simulation-app/utils/currency.ts:67-74 | masked text is valid exactly when the input had a digit |
| Currency.AmountIsValid | simulation-app/utils/currency.ts:67-74 | every formatted amount without symbol is valid |
| Currency.RejectedCurrencyText | simulation-app/__tests__/utils/currency.test.ts:136-144 | "", "invalid" and "-1.000,00" are not valid |
| Currency.ValidateCurrencyAmount | simulation-app/utils/currency.ts:89-124 | valid exactly when there is no error, exactly when the text reads as a finite number from 0.01 to 999,999,999.99; unreadable text gives "Valor inválido" and 0; otherwise the parsed value is returned, with the minimum message below 0.01 and the maximum message above the maximum |
| Currency.CentBounds | simulation-app/utils/currency.ts:82-86 | the bounds are 1 cent and 99,999,999,999 cents |
| Currency.LargestAmount | simulation-app/utils/currency.ts:82-86 | the largest amount is written "999.999.999,99", which fits in the 15-character input limit |
| Currency.RangeMessages | simulation-app/utils/currency.ts:104-118 | the messages are "Valor mínimo: R$ 0,01" and "Valor máximo: R$ 999.999.999,99" |
| Currency.MaskedAmountInRange | simulation-app/utils/currency.ts:89-124 | a masked text passes the range check exactly when its digits spell from 1 to 99,999,999,999 cents |

## Left out

- IEEE-754 arithmetic. Money, rates and payments are exact reals, so float drift is not modelled. Neither is the source's `r === 0.5` tie test on an inexact product.
- The twelfth root `Math.pow(1 + rate/100, 1/12) - 1` is not computed. `LoanCalculations.IsMonthlyRate` states it as a relation. `SimulationController.Simulate` takes the conversion as a parameter, `monthlyRateOf`, that satisfies this relation.
- SimulationController.Simulate: requires a whole number of months (`WholeTerm`), because `Math.pow` with a fractional exponent has no model here. Fractional terms the API would accept are outside the model.
- SimulationController.Simulate: `null`, NaN and Infinity inside a request body are not modelled. Numbers are finite reals.
- SimulationController.Simulate: the catch-all 500 branch is not modelled, and neither is the one in the product controller. No modelled step throws.
- LoanCalculator.Schedule: months is an integer; fractional or NaN month counts, for which the source's `month === months` test never holds and the forced final payoff is skipped, are outside the model. The same holds for `LoanCalculator.GenerateAmortizationSchedule`.
- LoanCalculations.AmortizationSchedule: months is an integer; a fractional count, for which the source's loop gives rows for months 1 to its whole part, and a NaN count, which gives no rows, are outside the model. The same holds for `LoanCalculations.GenerateAmortizationSchedule`.
- LoanCalculations.MonthlyPayment: takes the number of months as a `nat`. Negative or fractional months, which the API never passes, are outside the model.
- `formatCurrency` and `formatCurrencyValue` are modelled only on whole numbers of cents. `toLocaleString` rounding of other floats and string inputs to them are not modelled. Negative zero is not modelled either.
- `parseFloat` is modelled exactly on its grammar. Overflow to Infinity and the precision of long inputs are not modelled, and the exponent part is read but not bounded.
- `removeCurrencyMask` uses `Number.prototype.toString`, so it is not modelled. Neither are `formatPercentage`, `formatCurrencyDisplay`, `formatCompactCurrency` and `getCurrencySymbol`: they are locale and float formatting.
- `Date.now()` ids and `new Date()` timestamps in the store are parameters of `Storage.AddProduct`.
- HTTP, axios, Express wiring, logging, the mock HTTP client and the React Native screens are not modelled.
- ValidationService: errors are the datatype `Issue`. `ValidationService.Message` maps each issue to the Portuguese text the source pushes.
- SimulationController.Message: requires the maximum term in the message to be a whole number, because JavaScript's printing of fractional numbers is not modelled.
- SimulationController.Simulate: requires every stored product to have a positive rate and maximum term (`ProductController.ValidStore`). The seed has this property, and product creation preserves it.
