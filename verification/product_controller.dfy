/**
 * The server's product endpoints (`ProductController`): listing the stored
 * products, and creating one after a three-step validation of the request
 * body in which the first failing field decides the response.
 */
module ProductController {
  import opened Js
  import opened LoanTypes
  import opened Api
  import Storage

  const NameRequired: string := "Nome do produto é obrigatório"
  const RateNotPositive: string := "Taxa de juros anual deve ser um número positivo"
  const TermNotPositive: string := "Prazo máximo deve ser um número positivo"

  /** The fields of a create-product request body. */
  datatype ProductBody = ProductBody(name: JsValue, annualInterestRate: JsValue, maxTermMonths: JsValue)

  /** Every stored product has a positive rate and a positive maximum term. */
  ghost predicate ValidStore(store: seq<Product>) {
    forall i :: 0 <= i < |store| ==> store[i].annualInterestRate > 0.0 && store[i].maxTermMonths > 0.0
  }

  /** `getProducts`: status 200 with every stored product. */
  function GetProducts(store: seq<Product>): (r: Outcome<seq<Product>>)
    ensures r.Success? && r.status == 200
    ensures r.data == store
  {
    Success(200, Storage.GetAllProducts(store))
  }

  /** `createProduct`: the new store and the response. The product gets the
      trimmed name and the rate and term exactly as given; `id` and `now`
      stand for the clock readings the store uses. */
  function CreateProduct(store: seq<Product>, body: ProductBody, id: string, now: int): (r: (seq<Product>, Outcome<Product>))
    // accepted exactly when the name is a non-empty string and both numbers are positive
    ensures r.1.Success? <==>
      IsNonEmptyString(body.name) && IsPositiveNumber(body.annualInterestRate) && IsPositiveNumber(body.maxTermMonths)
    // a rejection is a 400 and stores nothing
    ensures r.1.Failure? ==> r.1.status == 400 && r.0 == store
    // on success: 201, one product appended, earlier products untouched
    ensures r.1.Success? ==>
      && r.1.status == 201
      && |r.0| == |store| + 1
      && r.0[..|store|] == store
      && r.0[|store|] == r.1.data
      && r.1.data == Product(id, Trim(body.name.s), body.annualInterestRate.n, body.maxTermMonths.n, now)
  {
    if !IsNonEmptyString(body.name) then (store, Failure(400, NameRequired))
    else if !IsPositiveNumber(body.annualInterestRate) then (store, Failure(400, RateNotPositive))
    else if !IsPositiveNumber(body.maxTermMonths) then (store, Failure(400, TermNotPositive))
    else
      var draft := Storage.ProductDraft(Trim(body.name.s), body.annualInterestRate.n, body.maxTermMonths.n);
      var added := Storage.AddProduct(store, draft, id, now);
      (added.0, Success(201, added.1))
  }

  /** The checks run name, then rate, then term: the message names the first
      field that fails. */
  lemma CreateProductFirstFailure(store: seq<Product>, body: ProductBody, id: string, now: int)
    ensures var r := CreateProduct(store, body, id, now).1;
      && (!IsNonEmptyString(body.name) ==> r == Failure(400, NameRequired))
      && (IsNonEmptyString(body.name) && !IsPositiveNumber(body.annualInterestRate) ==> r == Failure(400, RateNotPositive))
      && ((IsNonEmptyString(body.name) && IsPositiveNumber(body.annualInterestRate) && !IsPositiveNumber(body.maxTermMonths))
          ==> r == Failure(400, TermNotPositive))
  {
  }

  /** The name check only asks for a non-empty string: a name made of spaces
      is accepted and stored as the empty string. */
  lemma BlankNameIsStored(store: seq<Product>, id: string, now: int)
    ensures var r := CreateProduct(store, ProductBody(JsString("   "), JsNumber(10.0), JsNumber(12.0)), id, now);
      r.1.Success? && r.1.data.name == ""
  {
  }

  /** Creating products keeps every stored rate and term positive, starting
      from the seeded catalogue. */
  lemma CreateProductKeepsStoreValid(store: seq<Product>, body: ProductBody, id: string, now: int)
    requires ValidStore(store)
    ensures ValidStore(CreateProduct(store, body, id, now).0)
    ensures ValidStore(Storage.InitialProducts())
  {
  }
}
