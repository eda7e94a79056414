/** The cart collection. `CartManager` keeps the carts in memory and writes the
    whole array to its JSON file after every change. A cart line refers to a
    product by id only; nothing checks that the product exists. */
module Carts {
  import opened Store

  /** `{ product, quantity }`: one line of a cart. */
  datatype Line = Line(product: int, quantity: int)

  /** `{ id, products }`: a cart with an opaque id and its lines in order. */
  datatype Cart = Cart(id: string, products: seq<Line>)

  /** `carts.findIndex(c => c.id === id)`: the first position holding `id`, or -1. */
  function IndexOfCart(cs: seq<Cart>, id: string): (k: int)
    ensures -1 <= k < |cs|
    ensures k == -1 <==> forall i :: 0 <= i < |cs| ==> cs[i].id != id
    ensures 0 <= k ==> cs[k].id == id && forall i :: 0 <= i < k ==> cs[i].id != id
  {
    if cs == [] then -1
    else if cs[0].id == id then 0
    else
      var k := IndexOfCart(cs[1..], id);
      if k == -1 then -1 else k + 1
  }

  /** `cart.products.findIndex(p => p.product === productId)`. */
  function IndexOfLine(lines: seq<Line>, productId: int): (k: int)
    ensures -1 <= k < |lines|
    ensures k == -1 <==> forall i :: 0 <= i < |lines| ==> lines[i].product != productId
    ensures 0 <= k ==> lines[k].product == productId && forall i :: 0 <= i < k ==> lines[i].product != productId
  {
    if lines == [] then -1
    else if lines[0].product == productId then 0
    else
      var k := IndexOfLine(lines[1..], productId);
      if k == -1 then -1 else k + 1
  }

  /** The lines of a cart after `addProductToCart`: the first line for the product
      gets one more unit, or a line with quantity 1 goes at the end. Either way the
      cart then has a line for the product, no line is duplicated, and every line
      for another product is untouched. */
  function AddLine(lines: seq<Line>, productId: int): (r: seq<Line>)
    ensures HasLine(r, productId)
    ensures HasLine(lines, productId) ==> |r| == |lines|
    ensures var k := IndexOfLine(lines, productId);
      k != -1 ==> r == lines[k := lines[k].(quantity := lines[k].quantity + 1)]
    ensures !HasLine(lines, productId) ==> r == lines + [Line(productId, 1)]
    ensures forall i :: 0 <= i < |lines| && lines[i].product != productId ==> r[i] == lines[i]
  {
    var k := IndexOfLine(lines, productId);
    if k != -1 then
      var r := lines[k := lines[k].(quantity := lines[k].quantity + 1)];
      assert r[k].product == productId;
      r
    else
      var r := lines + [Line(productId, 1)];
      assert r[|lines|].product == productId;
      r
  }

  /** The number of units in a cart. */
  function TotalQuantity(lines: seq<Line>): int
  {
    if lines == [] then 0 else lines[0].quantity + TotalQuantity(lines[1..])
  }

  predicate HasLine(lines: seq<Line>, productId: int)
  {
    exists i :: 0 <= i < |lines| && lines[i].product == productId
  }

  /** At most one line per product. */
  predicate UniqueProducts(lines: seq<Line>)
  {
    forall i, j :: 0 <= i < j < |lines| ==> lines[i].product != lines[j].product
  }

  predicate PositiveQuantities(lines: seq<Line>)
  {
    forall i :: 0 <= i < |lines| ==> lines[i].quantity >= 1
  }

  predicate DistinctCartIds(cs: seq<Cart>)
  {
    forall i, j :: 0 <= i < j < |cs| ==> cs[i].id != cs[j].id
  }

  /** Cart ids are distinct and every cart has one line per product, each with at
      least one unit: what `createCart` and `addProductToCart` preserve. */
  predicate WellFormed(cs: seq<Cart>)
  {
    DistinctCartIds(cs) &&
    forall i :: 0 <= i < |cs| ==> UniqueProducts(cs[i].products) && PositiveQuantities(cs[i].products)
  }

  lemma {:induction false} TotalQuantityAppend(lines: seq<Line>, x: Line)
    ensures TotalQuantity(lines + [x]) == TotalQuantity(lines) + x.quantity
  {
    if lines != [] {
      assert (lines + [x])[1..] == lines[1..] + [x];
      TotalQuantityAppend(lines[1..], x);
    }
  }

  lemma {:induction false} TotalQuantityUpdate(lines: seq<Line>, k: int, x: Line)
    requires 0 <= k < |lines|
    ensures TotalQuantity(lines[k := x]) == TotalQuantity(lines) - lines[k].quantity + x.quantity
  {
    if k > 0 {
      assert lines[k := x][1..] == lines[1..][k - 1 := x];
      TotalQuantityUpdate(lines[1..], k - 1, x);
    }
  }

  /** Adding a product to a cart adds exactly one unit to the cart. */
  lemma AddLineAddsOneUnit(lines: seq<Line>, productId: int)
    ensures TotalQuantity(AddLine(lines, productId)) == TotalQuantity(lines) + 1
  {
    var k := IndexOfLine(lines, productId);
    if k != -1 {
      TotalQuantityUpdate(lines, k, lines[k].(quantity := lines[k].quantity + 1));
    } else {
      TotalQuantityAppend(lines, Line(productId, 1));
    }
  }

  /** Adding a product keeps one line per product and positive quantities. */
  lemma AddLineKeepsLinesWellFormed(lines: seq<Line>, productId: int)
    ensures UniqueProducts(lines) ==> UniqueProducts(AddLine(lines, productId))
    ensures PositiveQuantities(lines) ==> PositiveQuantities(AddLine(lines, productId))
  {
    var k := IndexOfLine(lines, productId);
    if k == -1 {
      assert AddLine(lines, productId) == lines + [Line(productId, 1)];
    }
  }

  /** Adding the same product twice to a cart without it gives one line with
      quantity 2, never two lines. */
  lemma AddTwiceGivesOneLine(lines: seq<Line>, productId: int)
    requires !HasLine(lines, productId)
    ensures AddLine(AddLine(lines, productId), productId) == lines + [Line(productId, 2)]
  {
    var once := lines + [Line(productId, 1)];
    assert AddLine(lines, productId) == once;
    assert once[|lines|].product == productId;
    assert IndexOfLine(once, productId) == |lines|;
  }

  class CartManager {
    /** `this.carts`: the collection in memory. */
    var carts: seq<Cart>
    /** The JSON file at `this.filePath`. */
    var file: Snapshot<Cart>

    /** The constructor's own state; the `initialize` it starts without waiting
        is the separate `Initialize` below. */
    constructor(file: Snapshot<Cart>)
      ensures carts == [] && this.file == file
    {
      carts := [];
      this.file := file;
    }

    /** `saveCarts`: writes the whole array, or throws when the write fails. */
    method Save(writeOk: bool) returns (r: Result<()>)
      modifies this`file
      ensures file == AfterWrite(old(file), carts, writeOk)
      ensures r == if writeOk then Ok(()) else Err(WriteFailed)
    {
      if writeOk {
        file := Present(carts);
        r := Ok(());
      } else {
        r := Err(WriteFailed);
      }
    }

    /** `initialize`: loads the file; creates it from memory when it is missing;
        only logs any other read failure. */
    method Initialize(writeOk: bool) returns (r: Result<()>)
      modifies this
      ensures old(file).Present? ==> carts == old(file).docs && file == old(file) && r == Ok(())
      ensures old(file).Missing? ==>
        && carts == old(carts) && file == AfterWrite(old(file), carts, writeOk)
        && r == if writeOk then Ok(()) else Err(WriteFailed)
      ensures old(file).Unreadable? ==> carts == old(carts) && file == old(file) && r == Ok(())
    {
      match file {
        case Present(docs) =>
          carts := docs;
          r := Ok(());
        case Missing =>
          r := Save(writeOk);
        case Unreadable =>
          r := Ok(());
      }
    }

    /** `createCart`: appends an empty cart under a fresh id. The cart stays in
        memory even when the save that follows fails. */
    method CreateCart(freshId: string, writeOk: bool) returns (r: Result<Cart>)
      requires forall i :: 0 <= i < |carts| ==> carts[i].id != freshId
      modifies this
      ensures carts == old(carts) + [Cart(freshId, [])]
      ensures file == AfterWrite(old(file), carts, writeOk)
      ensures r == if writeOk then Ok(Cart(freshId, [])) else Err(WriteFailed)
      ensures WellFormed(old(carts)) ==> WellFormed(carts)
    {
      var newCart := Cart(freshId, []);
      carts := carts + [newCart];
      var saved := Save(writeOk);
      r := if saved.Ok? then Ok(newCart) else Err(WriteFailed);
    }

    /** `getCartById`: the first cart with that id, or a not-found error. */
    method GetCartById(id: string) returns (r: Result<Cart>)
      ensures r.Ok? <==> exists i :: 0 <= i < |carts| && carts[i].id == id
      ensures r.Ok? ==> r.value in carts && r.value.id == id
      ensures r.Ok? ==> r.value == carts[IndexOfCart(carts, id)]
      ensures r.Err? ==> r.error == CartNotFound(id)
    {
      var k := IndexOfCart(carts, id);
      if k == -1 {
        r := Err(CartNotFound(id));
      } else {
        r := Ok(carts[k]);
      }
    }

    /** `addProductToCart`: one more unit of the product in the first cart with that
        id, whether or not such a product exists. The cart stays changed in memory
        even when the save that follows fails. */
    method AddProductToCart(cartId: string, productId: int, writeOk: bool) returns (r: Result<Cart>)
      modifies this
      ensures IndexOfCart(old(carts), cartId) == -1 ==>
        r == Err(CartNotFound(cartId)) && unchanged(this)
      ensures var k := IndexOfCart(old(carts), cartId);
        k != -1 ==>
          && carts == old(carts)[k := old(carts)[k].(products := AddLine(old(carts)[k].products, productId))]
          && TotalQuantity(carts[k].products) == TotalQuantity(old(carts)[k].products) + 1
          && file == AfterWrite(old(file), carts, writeOk)
          && r == if writeOk then Ok(carts[k]) else Err(WriteFailed)
      ensures WellFormed(old(carts)) ==> WellFormed(carts)
    {
      var cartIndex := IndexOfCart(carts, cartId);
      if cartIndex == -1 {
        return Err(CartNotFound(cartId));
      }
      var cart := carts[cartIndex];
      AddLineAddsOneUnit(cart.products, productId);
      AddLineKeepsLinesWellFormed(cart.products, productId);
      carts := carts[cartIndex := cart.(products := AddLine(cart.products, productId))];
      var saved := Save(writeOk);
      r := if saved.Ok? then Ok(carts[cartIndex]) else Err(WriteFailed);
    }
  }
}
