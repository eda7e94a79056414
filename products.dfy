/** The product collection. `ProductManager` keeps the products in memory together
    with the next id to assign, and writes the whole array to its JSON file after
    every change. */
module Products {
  import opened Values
  import opened Store

  /** The properties of a product object other than `id`. */
  type Fields = m: Object | "id" !in m witness map[]

  datatype Product = Product(id: int, fields: Fields)

  function Code(p: Product): Value
  {
    Get(p.fields, "code")
  }

  /** The properties `addProduct` destructures from its argument (`undefined` when absent). */
  datatype ProductInput = ProductInput(
    title: Value, description: Value, code: Value, price: Value,
    status: Value, stock: Value, category: Value, thumbnails: Value)

  /** The guard of `addProduct`: every required property is truthy, so a price
      or a stock of 0, an empty string, `null` or `false` all fail it. */
  predicate HasRequiredFields(input: ProductInput)
  {
    Truthy(input.title) && Truthy(input.description) && Truthy(input.code) &&
    Truthy(input.price) && Truthy(input.stock) && Truthy(input.category)
  }

  /** Some stored product has a `code` that is `===` to `code`. */
  predicate CodeTaken(ps: seq<Product>, code: Value)
  {
    exists i :: 0 <= i < |ps| && StrictEq(Code(ps[i]), code)
  }

  /** The guard is truthiness, not presence: a product offered with a price or a
      stock of 0 is refused, while any non-zero number, string or object passes. */
  lemma ZeroPriceOrStockRefused(input: ProductInput)
    ensures input.price == Num(0.0) || input.stock == Num(0.0) ==> !HasRequiredFields(input)
    ensures Truthy(input.title) && Truthy(input.description) && Truthy(input.code) && Truthy(input.category) &&
            input.price.Num? && input.price.n != 0.0 && input.stock.Num? && input.stock.n != 0.0 ==>
            HasRequiredFields(input)
  {
  }

  /** Once `addProduct` has stored a product whose code is a string or a
      number, that code is taken: a second `addProduct` with it is refused. A NaN
      code never counts as taken, since NaN is not `===` to itself. */
  lemma AddedCodeIsTaken(ps: seq<Product>, n: int, input: ProductInput)
    ensures !input.code.NaN? && !input.code.Arr? && !input.code.Obj? ==>
      CodeTaken(ps + [NewProduct(n, input)], input.code)
    ensures !CodeTaken(ps, NaN)
  {
    var qs := ps + [NewProduct(n, input)];
    assert Code(qs[|ps|]) == input.code;
  }

  /** The object `addProduct` stores under `id`: the eight properties it
      destructures, with `status` defaulting to `true` and `thumbnails` to `[]`. */
  function NewProduct(id: int, input: ProductInput): (p: Product)
    ensures p.id == id
    ensures p.fields.Keys == {"title", "description", "code", "price", "status", "stock", "category", "thumbnails"}
    ensures Get(p.fields, "title") == input.title
    ensures Get(p.fields, "description") == input.description
    ensures Code(p) == input.code
    ensures Get(p.fields, "price") == input.price
    ensures Get(p.fields, "stock") == input.stock
    ensures Get(p.fields, "category") == input.category
    ensures Get(p.fields, "status") == if input.status == Undefined then Bool(true) else input.status
    ensures Get(p.fields, "thumbnails") == if input.thumbnails == Undefined then Arr([]) else input.thumbnails
  {
    Product(id, map[
      "title" := input.title,
      "description" := input.description,
      "code" := input.code,
      "price" := input.price,
      "status" := if input.status == Undefined then Bool(true) else input.status,
      "stock" := input.stock,
      "category" := input.category,
      "thumbnails" := if input.thumbnails == Undefined then Arr([]) else input.thumbnails])
  }

  /** `Math.max(...ps.map(p => p.id))` on a non-empty array. */
  function MaxId(ps: seq<Product>): (m: int)
    requires |ps| > 0
    ensures forall p :: p in ps ==> p.id <= m
    ensures exists i :: 0 <= i < |ps| && ps[i].id == m
  {
    if |ps| == 1 then ps[0].id
    else
      var rest := MaxId(ps[1..]);
      assert forall p :: p in ps ==> p == ps[0] || p in ps[1..];
      if ps[0].id >= rest then ps[0].id else rest
  }

  /** The counter `initialize` leaves after loading `docs`: the largest id plus
      one, or the counter it had when the array is empty. */
  function LoadedNextId(docs: seq<Product>, nextId: int): (n: int)
    ensures |docs| > 0 ==> IdsBelow(docs, n) && exists i :: 0 <= i < |docs| && docs[i].id == n - 1
    ensures |docs| == 0 ==> n == nextId
  {
    if |docs| > 0 then MaxId(docs) + 1 else nextId
  }

  /** Every stored id is below `n`: an id drawn from a counter at `n` is fresh. */
  predicate IdsBelow(ps: seq<Product>, n: int)
  {
    forall p :: p in ps ==> p.id < n
  }

  predicate DistinctIds(ps: seq<Product>)
  {
    forall i, j :: 0 <= i < j < |ps| ==> ps[i].id != ps[j].id
  }

  predicate DistinctCodes(ps: seq<Product>)
  {
    forall i, j :: 0 <= i < j < |ps| ==> !StrictEq(Code(ps[i]), Code(ps[j]))
  }

  /** `ps.findIndex(p => p.id === id)`: the first position holding `id`, or -1. */
  function IndexOfId(ps: seq<Product>, id: int): (k: int)
    ensures -1 <= k < |ps|
    ensures k == -1 <==> forall i :: 0 <= i < |ps| ==> ps[i].id != id
    ensures 0 <= k ==> ps[k].id == id && forall i :: 0 <= i < k ==> ps[i].id != id
  {
    if ps == [] then -1
    else if ps[0].id == id then 0
    else
      var k := IndexOfId(ps[1..], id);
      if k == -1 then -1 else k + 1
  }

  /** `{ ...p, ...patch }` once `patch.id` is deleted: the patch overrides every
      property it names, and the id stays. */
  function Patched(p: Product, patch: Object): (q: Product)
    ensures q.id == p.id
    ensures q.fields.Keys == p.fields.Keys + (patch.Keys - {"id"})
    ensures forall k :: Get(q.fields, k) == if k in patch && k != "id" then patch[k] else Get(p.fields, k)
  {
    Product(p.id, Spread(p.fields, patch - {"id"}))
  }

  /** `ps.filter(p => p.id !== id)`. */
  function WithoutId(ps: seq<Product>, id: int): (r: seq<Product>)
    ensures |r| <= |ps|
    ensures forall p :: p in r ==> p in ps && p.id != id
    ensures forall p :: p in ps && p.id != id ==> p in r
    ensures |r| == |ps| <==> forall i :: 0 <= i < |ps| ==> ps[i].id != id
    ensures |r| == |ps| ==> r == ps
  {
    if ps == [] then []
    else if ps[0].id == id then WithoutId(ps[1..], id)
    else [ps[0]] + WithoutId(ps[1..], id)
  }

  /** Appending the product `addProduct` builds keeps the counter above every id,
      and keeps ids distinct, and codes distinct when the new code is not taken. */
  lemma AddKeepsInvariants(ps: seq<Product>, n: int, input: ProductInput)
    requires IdsBelow(ps, n)
    ensures IdsBelow(ps + [NewProduct(n, input)], n + 1)
    ensures DistinctIds(ps) ==> DistinctIds(ps + [NewProduct(n, input)])
    ensures DistinctCodes(ps) && !CodeTaken(ps, input.code) ==> DistinctCodes(ps + [NewProduct(n, input)])
  {
    var qs := ps + [NewProduct(n, input)];
    forall i | 0 <= i < |ps| ensures qs[i].id != qs[|ps|].id {
      assert qs[i] in ps;
    }
  }

  /** Filtering keeps ids pairwise distinct. */
  lemma {:induction false} WithoutIdKeepsDistinctIds(ps: seq<Product>, id: int)
    requires DistinctIds(ps)
    ensures DistinctIds(WithoutId(ps, id))
  {
    if ps != [] {
      var tail := ps[1..];
      DistinctIdsTail(ps);
      WithoutIdKeepsDistinctIds(tail, id);
      if ps[0].id != id {
        var r := [ps[0]] + WithoutId(tail, id);
        forall j | 0 < j < |r| ensures r[0].id != r[j].id {
          assert r[j] in WithoutId(tail, id);
          var m :| 0 <= m < |tail| && tail[m] == r[j];
          assert ps[m + 1] == r[j];
        }
      }
    }
  }

  /** Filtering keeps codes pairwise distinct. */
  lemma {:induction false} WithoutIdKeepsDistinctCodes(ps: seq<Product>, id: int)
    requires DistinctCodes(ps)
    ensures DistinctCodes(WithoutId(ps, id))
  {
    if ps != [] {
      var tail := ps[1..];
      assert DistinctCodes(tail) by {
        forall i, j | 0 <= i < j < |tail| ensures !StrictEq(Code(tail[i]), Code(tail[j])) {
          assert tail[i] == ps[i + 1] && tail[j] == ps[j + 1];
        }
      }
      WithoutIdKeepsDistinctCodes(tail, id);
      if ps[0].id != id {
        var r := [ps[0]] + WithoutId(tail, id);
        forall j | 0 < j < |r| ensures !StrictEq(Code(r[0]), Code(r[j])) {
          assert r[j] in WithoutId(tail, id);
          var m :| 0 <= m < |tail| && tail[m] == r[j];
          assert ps[m + 1] == r[j];
        }
      }
    }
  }

  /** After `addProduct` assigns `n`, looking `n` up finds the product just added. */
  lemma AddThenGet(ps: seq<Product>, n: int, input: ProductInput)
    requires IdsBelow(ps, n)
    ensures IndexOfId(ps + [NewProduct(n, input)], n) == |ps|
  {
    var qs := ps + [NewProduct(n, input)];
    assert qs[|ps|].id == n;
  }

  /** After `deleteProduct(id)`, no product with `id` is left to find. */
  lemma DeleteThenGetFails(ps: seq<Product>, id: int)
    ensures IndexOfId(WithoutId(ps, id), id) == -1
  {
    var r := WithoutId(ps, id);
    forall i | 0 <= i < |r| ensures r[i].id != id {
      assert r[i] in r;
    }
  }

  /** When ids are distinct, deleting the product at position `k` leaves the
      others in their original order. */
  lemma {:induction false} DeleteKeepsOrder(ps: seq<Product>, k: int)
    requires DistinctIds(ps)
    requires 0 <= k < |ps|
    ensures WithoutId(ps, ps[k].id) == ps[..k] + ps[k + 1..]
  {
    var id := ps[k].id;
    if k == 0 {
      assert WithoutId(ps, id) == WithoutId(ps[1..], id);
      forall i | 0 <= i < |ps[1..]| ensures ps[1..][i].id != id {
        assert ps[1..][i] == ps[i + 1];
      }
      NoneWithId(ps[1..], id);
    } else {
      var tail := ps[1..];
      DistinctIdsTail(ps);
      assert tail[k - 1] == ps[k];
      DeleteKeepsOrder(tail, k - 1);
      assert ps[0].id != id;
      assert WithoutId(ps, id) == [ps[0]] + WithoutId(tail, id);
      SplitAfterHead(ps, k);
    }
  }

  lemma DistinctIdsTail(ps: seq<Product>)
    requires ps != [] && DistinctIds(ps)
    ensures DistinctIds(ps[1..])
  {
    var tail := ps[1..];
    forall i, j | 0 <= i < j < |tail| ensures tail[i].id != tail[j].id {
      assert tail[i] == ps[i + 1] && tail[j] == ps[j + 1];
    }
  }

  /** Filtering works element by element, so it keeps the surviving products in
      their original order whatever the array holds, repeated ids included. */
  lemma {:induction false} WithoutIdAppend(a: seq<Product>, b: seq<Product>, id: int)
    ensures WithoutId(a + b, id) == WithoutId(a, id) + WithoutId(b, id)
  {
    if a != [] {
      assert (a + b)[1..] == a[1..] + b;
      WithoutIdAppend(a[1..], b, id);
    } else {
      assert a + b == b;
    }
  }

  /** Filtering out an id that the array does not hold changes nothing. */
  lemma NoneWithId(ps: seq<Product>, id: int)
    requires forall i :: 0 <= i < |ps| ==> ps[i].id != id
    ensures WithoutId(ps, id) == ps
  {
  }

  /** The counter is not kept across a reload. Once the product with the
      strictly largest id is deleted while another product remains, `initialize`
      lowers `nextId` to that id or below, so the next `addProduct` can hand out
      the deleted product's id again. When it was the only product, the empty
      array leaves the counter as it was. */
  lemma ReloadAfterDeleteReusesId(ps: seq<Product>, k: int, n: int)
    requires 0 <= k < |ps| && IdsBelow(ps, n)
    requires forall i :: 0 <= i < |ps| && i != k ==> ps[i].id < ps[k].id
    ensures |ps| >= 2 ==> LoadedNextId(WithoutId(ps, ps[k].id), n) <= ps[k].id < n
    ensures |ps| == 1 ==> LoadedNextId(WithoutId(ps, ps[k].id), n) == n
  {
    var top := ps[k].id;
    assert ps[k] in ps;
    var rest := WithoutId(ps, top);
    if |ps| >= 2 {
      var other := if k == 0 then 1 else 0;
      assert ps[other] in ps && ps[other].id != top;
      assert |rest| > 0;
      var i :| 0 <= i < |rest| && rest[i].id == LoadedNextId(rest, n) - 1;
      assert rest[i] in rest;
      var j :| 0 <= j < |ps| && ps[j] == rest[i];
    } else {
      assert forall i :: 0 <= i < |ps| ==> ps[i].id == top;
    }
  }

  /** `updateProduct` does not check codes: a patch can give a product the code
      of another, which `addProduct` would have refused. */
  lemma UpdateCanDuplicateCode(a: Product, b: Product)
    requires a.id != b.id && Code(a) == Str("A") && Code(b) == Str("B")
    ensures DistinctCodes([a, b])
    ensures !DistinctCodes([a, b][1 := Patched(b, map["code" := Str("A")])])
  {
    var after := [a, b][1 := Patched(b, map["code" := Str("A")])];
    assert Code(after[1]) == Str("A");
    assert StrictEq(Code(after[0]), Code(after[1]));
  }

  class ProductManager {
    /** `this.products`: the collection in memory. */
    var products: seq<Product>
    /** `this.nextId`: the id the next `addProduct` assigns. */
    var nextId: int
    /** The JSON file at `this.filePath`. */
    var file: Snapshot<Product>

    /** The counter stays above every stored id. */
    ghost predicate Valid()
      reads this
    {
      IdsBelow(products, nextId)
    }

    /** The constructor's own state; the `initialize` it starts without waiting
        is the separate `Initialize` below. */
    constructor(file: Snapshot<Product>)
      ensures Valid()
      ensures products == [] && nextId == 1 && this.file == file
    {
      products := [];
      nextId := 1;
      this.file := file;
    }

    /** `saveProducts`: writes the whole array, or throws when the write fails. */
    method Save(writeOk: bool) returns (r: Result<()>)
      modifies this`file
      ensures file == AfterWrite(old(file), products, writeOk)
      ensures r == if writeOk then Ok(()) else Err(WriteFailed)
    {
      if writeOk {
        file := Present(products);
        r := Ok(());
      } else {
        r := Err(WriteFailed);
      }
    }

    /** `initialize`: loads the file and recomputes the counter from it; creates the
        file from memory when it is missing; only logs any other read failure. */
    method Initialize(writeOk: bool) returns (r: Result<()>)
      requires Valid()
      modifies this
      ensures Valid()
      ensures old(file).Present? ==>
        && products == old(file).docs
        && nextId == LoadedNextId(old(file).docs, old(nextId))
        && file == old(file) && r == Ok(())
      ensures old(file).Missing? ==>
        && products == old(products) && nextId == old(nextId)
        && file == AfterWrite(old(file), products, writeOk)
        && r == if writeOk then Ok(()) else Err(WriteFailed)
      ensures old(file).Unreadable? ==>
        products == old(products) && nextId == old(nextId) && file == old(file) && r == Ok(())
    {
      match file {
        case Present(docs) =>
          products := docs;
          if |products| > 0 {
            nextId := MaxId(products) + 1;
          }
          r := Ok(());
        case Missing =>
          r := Save(writeOk);
        case Unreadable =>
          r := Ok(());
      }
    }

    /** `addProduct`: validates, refuses a taken code, then appends the new product
        under the counter and advances it. The product stays in memory even when
        the save that follows fails. */
    method AddProduct(input: ProductInput, writeOk: bool) returns (r: Result<Product>)
      requires Valid()
      modifies this
      ensures Valid()
      ensures !HasRequiredFields(input) ==>
        r == Err(MissingRequiredFields) && unchanged(this)
      ensures HasRequiredFields(input) && CodeTaken(old(products), input.code) ==>
        r == Err(DuplicateCode(input.code)) && unchanged(this)
      ensures HasRequiredFields(input) && !CodeTaken(old(products), input.code) ==>
        && products == old(products) + [NewProduct(old(nextId), input)]
        && nextId == old(nextId) + 1
        && file == AfterWrite(old(file), products, writeOk)
        && r == if writeOk then Ok(NewProduct(old(nextId), input)) else Err(WriteFailed)
      ensures DistinctIds(old(products)) ==> DistinctIds(products)
      ensures DistinctCodes(old(products)) ==> DistinctCodes(products)
    {
      if !HasRequiredFields(input) {
        return Err(MissingRequiredFields);
      }
      if CodeTaken(products, input.code) {
        return Err(DuplicateCode(input.code));
      }
      var p := NewProduct(nextId, input);
      AddKeepsInvariants(products, nextId, input);
      products := products + [p];
      nextId := nextId + 1;
      var saved := Save(writeOk);
      r := if saved.Ok? then Ok(p) else Err(WriteFailed);
    }

    /** `getProducts`: the array in memory. */
    method GetProducts() returns (ps: seq<Product>)
      ensures ps == products
    {
      ps := products;
    }

    /** `getProductById`: the first product with that id, or a not-found error. */
    method GetProductById(id: int) returns (r: Result<Product>)
      ensures r.Ok? <==> exists i :: 0 <= i < |products| && products[i].id == id
      ensures r.Ok? ==> r.value in products && r.value.id == id
      ensures r.Ok? ==> r.value == products[IndexOfId(products, id)]
      ensures r.Err? ==> r.error == ProductNotFound(id)
    {
      var k := IndexOfId(products, id);
      if k == -1 {
        r := Err(ProductNotFound(id));
      } else {
        r := Ok(products[k]);
      }
    }

    /** `updateProduct`: merges the patch, minus its `id`, into the first product
        with that id and leaves every other product as it was. */
    method UpdateProduct(id: int, patch: Object, writeOk: bool) returns (r: Result<Product>)
      requires Valid()
      modifies this
      ensures Valid() && nextId == old(nextId)
      ensures IndexOfId(old(products), id) == -1 ==>
        r == Err(ProductNotFound(id)) && unchanged(this)
      ensures var k := IndexOfId(old(products), id);
        k != -1 ==>
          && products == old(products)[k := Patched(old(products)[k], patch)]
          && file == AfterWrite(old(file), products, writeOk)
          && r == if writeOk then Ok(products[k]) else Err(WriteFailed)
      ensures |products| == |old(products)|
      ensures forall i :: 0 <= i < |products| ==> products[i].id == old(products)[i].id
      ensures DistinctIds(old(products)) ==> DistinctIds(products)
    {
      var k := IndexOfId(products, id);
      if k == -1 {
        return Err(ProductNotFound(id));
      }
      products := products[k := Patched(products[k], patch)];
      assert forall p :: p in products ==> p in old(products) || p == products[k];
      var saved := Save(writeOk);
      r := if saved.Ok? then Ok(products[k]) else Err(WriteFailed);
    }

    /** `deleteProduct`: keeps the products whose id differs, in order; throws when
        none was removed, without saving. */
    method DeleteProduct(id: int, writeOk: bool) returns (r: Result<int>)
      requires Valid()
      modifies this
      ensures Valid() && nextId == old(nextId)
      ensures products == WithoutId(old(products), id)
      ensures |products| == |old(products)| ==>
        r == Err(ProductNotFound(id)) && products == old(products) && file == old(file)
      ensures |products| < |old(products)| ==>
        && file == AfterWrite(old(file), products, writeOk)
        && r == if writeOk then Ok(id) else Err(WriteFailed)
      ensures DistinctIds(old(products)) ==> DistinctIds(products)
      ensures DistinctCodes(old(products)) ==> DistinctCodes(products)
    {
      var initialLength := |products|;
      if DistinctIds(products) {
        WithoutIdKeepsDistinctIds(products, id);
      }
      if DistinctCodes(products) {
        WithoutIdKeepsDistinctCodes(products, id);
      }
      products := WithoutId(products, id);
      if |products| == initialLength {
        return Err(ProductNotFound(id));
      }
      var saved := Save(writeOk);
      r := if saved.Ok? then Ok(id) else Err(WriteFailed);
    }
  }
}
