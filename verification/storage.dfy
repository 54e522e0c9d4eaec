/**
 * The server's in-memory product store (`Storage`), as a pure value: an
 * append-only sequence of products in insertion order. Operations that
 * change the store take the old store and return the new one; the id and
 * timestamp the source reads from the clock are parameters.
 */
module Storage {
  import opened Wrappers
  import opened LoanTypes

  /** 2024-01-01T00:00:00Z in milliseconds since the epoch. */
  const SeedTimestamp: int := 1704067200000

  /** The three products the store starts with, and returns to on reset. */
  function InitialProducts(): seq<Product> {
    [
      Product("1", "Empréstimo Pessoal", 18.5, 60.0, SeedTimestamp),
      Product("2", "Crédito Consignado", 12.8, 84.0, SeedTimestamp),
      Product("3", "Financiamento Imobiliário", 9.2, 360.0, SeedTimestamp)
    ]
  }

  /** The fields a caller supplies when adding a product. */
  datatype ProductDraft = ProductDraft(name: string, annualInterestRate: real, maxTermMonths: real)

  /** `getAllProducts`: a copy of every stored product, in order. */
  function GetAllProducts(store: seq<Product>): (r: seq<Product>)
    ensures |r| == |store|
    ensures forall i :: 0 <= i < |r| ==> r[i] == store[i]
  {
    store[..]
  }

  /** `getProductById`: the first product whose id matches, if any. */
  function GetProductById(store: seq<Product>, id: string): (r: Option<Product>)
    ensures r.Some? <==> exists i :: 0 <= i < |store| && store[i].id == id
    ensures r.Some? ==> r.value in store && r.value.id == id
  {
    if store == [] then None
    else if store[0].id == id then Some(store[0])
    else GetProductById(store[1..], id)
  }

  /** `getProductById` returns the FIRST match: no earlier product has the id. */
  lemma {:induction false} GetProductByIdFirst(store: seq<Product>, id: string, i: int)
    requires 0 <= i < |store| && store[i].id == id
    requires forall j :: 0 <= j < i ==> store[j].id != id
    ensures GetProductById(store, id) == Some(store[i])
  {
    if i > 0 {
      assert store[1..][i - 1] == store[i];
      GetProductByIdFirst(store[1..], id, i - 1);
    }
  }

  /** `addProduct`: the new product carries the draft's fields plus the given
      id and timestamp, and is appended at the end. */
  function AddProduct(store: seq<Product>, draft: ProductDraft, id: string, now: int): (r: (seq<Product>, Product))
    ensures r.1 == Product(id, draft.name, draft.annualInterestRate, draft.maxTermMonths, now)
    ensures |r.0| == |store| + 1
    ensures r.0[..|store|] == store
    ensures r.0[|store|] == r.1
  {
    var product := Product(id, draft.name, draft.annualInterestRate, draft.maxTermMonths, now);
    (store + [product], product)
  }

  /** `getProductCount`. */
  function GetProductCount(store: seq<Product>): (r: nat)
    ensures r == |GetAllProducts(store)|
    ensures r == 0 <==> forall id :: GetProductById(store, id).None?
  {
    if store == [] then 0
    else
      assert GetProductById(store, store[0].id).Some?;
      |store|
  }

  /** `reset`: back to the three seeded products, whatever was stored. */
  function Reset(store: seq<Product>): (r: seq<Product>)
    ensures GetProductCount(r) == 3
    ensures r[0].id == "1" && r[1].id == "2" && r[2].id == "3"
  {
    InitialProducts()
  }

  /** What `reset` leaves behind does not depend on what was stored before. */
  lemma ResetForgetsHistory(store: seq<Product>, other: seq<Product>)
    ensures Reset(store) == Reset(other) == InitialProducts()
  {
  }

  /** The seeded products: ids 1, 2 and 3, with their rates and maximum terms. */
  lemma InitialCatalogue()
    ensures GetProductCount(InitialProducts()) == 3
    ensures GetProductById(InitialProducts(), "1") == Some(Product("1", "Empréstimo Pessoal", 18.5, 60.0, SeedTimestamp))
    ensures GetProductById(InitialProducts(), "2") == Some(Product("2", "Crédito Consignado", 12.8, 84.0, SeedTimestamp))
    ensures GetProductById(InitialProducts(), "3") == Some(Product("3", "Financiamento Imobiliário", 9.2, 360.0, SeedTimestamp))
    ensures GetProductById(InitialProducts(), "4") == None
  {
  }

  /** Adding a product raises the count by one. */
  lemma AddCountsOne(store: seq<Product>, draft: ProductDraft, id: string, now: int)
    ensures GetProductCount(AddProduct(store, draft, id, now).0) == GetProductCount(store) + 1
  {
  }

  /** After adding a product under an id not yet in use, looking that id up
      finds the new product. */
  lemma FindAddedProduct(store: seq<Product>, draft: ProductDraft, id: string, now: int)
    requires GetProductById(store, id) == None
    ensures GetProductById(AddProduct(store, draft, id, now).0, id) == Some(AddProduct(store, draft, id, now).1)
  {
    var s := AddProduct(store, draft, id, now).0;
    GetProductByIdFirst(s, id, |store|);
  }

  /** Adding a product does not change what any other id finds, nor what an
      id already in use finds. */
  lemma {:induction false} AddKeepsOtherLookups(store: seq<Product>, draft: ProductDraft, id: string, now: int, other: string)
    requires other != id || GetProductById(store, other).Some?
    ensures GetProductById(AddProduct(store, draft, id, now).0, other) == GetProductById(store, other)
  {
    if store != [] {
      var s := AddProduct(store, draft, id, now).0;
      assert s[1..] == AddProduct(store[1..], draft, id, now).0;
      if store[0].id != other {
        AddKeepsOtherLookups(store[1..], draft, id, now, other);
      }
    }
  }
}
