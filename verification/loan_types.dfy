/**
 * The records the two loan applications exchange: a loan product and one row
 * of an amortization schedule.
 */
module LoanTypes {

  /** A loan product. `createdAt` is a timestamp in milliseconds since the
      epoch; rates are yearly percentages and terms are months, both plain
      numbers as they arrive in a request body. */
  datatype Product = Product(id: string, name: string, annualInterestRate: real, maxTermMonths: real, createdAt: int)

  /** One row of an amortization schedule. */
  datatype Entry = Entry(month: int, interest: real, amortization: real, balance: real)
}
