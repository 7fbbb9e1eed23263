/**
 * Checkout, its alias and the order history (Controllers/OrdersController.cs).
 *
 * `CheckoutSpec` says what one checkout request does to the tables; `Checkout` is the
 * handler itself, two loops over the caller's cart rows, proved to do exactly that. The
 * lemmas after it are about the specification: the error cases change nothing, a success
 * books one order with a by-value snapshot of every cart row, stock is conserved per book,
 * and the database stays consistent.
 */
module OrdersController {
  import opened Wrappers
  import opened Linq
  import opened Strings
  import opened Http
  import opened Models
  import opened AppDb

  // ---------------------------------------------------------------- the caller's cart

  /** The row asks for more than its book's current stock. */
  predicate Short(books: seq<Book>, ci: CartItem)
    requires HasBook(books, ci.bookId)
  {
    BookOf(books, ci.bookId).quantity < ci.quantity
  }

  function HomeOf(uid: int): Address -> bool {
    (a: Address) => a.userId == uid && ToLower(a.addressType) == "home"
  }

  /** The first of the caller's addresses whose type is "home" in any letter case. */
  function ShippingAddress(addresses: seq<Address>, uid: int): (r: Option<nat>)
    ensures r.Some? ==> exists a :: a in addresses && a.userId == uid && ToLower(a.addressType) == "home" && a.addressId == r.value
    ensures r.None? ==> forall a :: a in addresses && a.userId == uid ==> ToLower(a.addressType) != "home"
  {
    var k := FirstIndex(addresses, HomeOf(uid));
    if k.None? then
      assert forall a :: a in addresses && a.userId == uid ==> ToLower(a.addressType) != "home" by {
        forall a | a in addresses && a.userId == uid ensures ToLower(a.addressType) != "home" {
          var j :| 0 <= j < |addresses| && addresses[j] == a;
          assert !HomeOf(uid)(addresses[j]);
        }
      }
      None
    else
      assert addresses[k.value] in addresses;
      Some(addresses[k.value].addressId)
  }

  // ---------------------------------------------------------------- stock deduction

  /** Only stock counts change: every other field of every row stays as it was. */
  predicate OnlyStockChanged(before: seq<Book>, after: seq<Book>) {
    |after| == |before| && forall k :: 0 <= k < |before| ==> after[k] == before[k].(quantity := after[k].quantity)
  }

  /**
   * `ci.Book.Quantity -= ci.Quantity` for every row, in cart order. Two rows naming one book
   * load the same tracked entity, so each deduction applies to the stock the previous one left.
   */
  function DeductAll(books: seq<Book>, rows: seq<CartItem>): (r: seq<Book>)
    ensures OnlyStockChanged(books, r)
    decreases |rows|
  {
    if rows == [] then books
    else DeductOne(DeductAll(books, rows[..|rows| - 1]), rows[|rows| - 1])
  }

  /** One row's deduction, on the first book carrying the row's key. */
  function DeductOne(books: seq<Book>, ci: CartItem): (r: seq<Book>)
    ensures OnlyStockChanged(books, r)
  {
    match FindBook(books, ci.bookId)
    case None => books
    case Some(k) => books[k := books[k].(quantity := books[k].quantity - ci.quantity)]
  }

  /** The total quantity the rows ask of book `id`. */
  function QtyFor(rows: seq<CartItem>, id: int): int
    decreases |rows|
  {
    if rows == [] then 0
    else
      var last := rows[|rows| - 1];
      QtyFor(rows[..|rows| - 1], id) + (if last.bookId == id then last.quantity else 0)
  }

  /** Changing only stock counts keeps the keys ascending. */
  lemma StockChangeKeepsKeys(before: seq<Book>, after: seq<Book>)
    requires StrictlyAscending(before, BookKey) && OnlyStockChanged(before, after)
    ensures StrictlyAscending(after, BookKey)
    ensures forall k :: 0 <= k < |after| ==> after[k].bookId == before[k].bookId
  {
    forall k | 0 <= k < |after| ensures after[k].bookId == before[k].bookId {
      assert after[k] == before[k].(quantity := after[k].quantity);
    }
  }

  /** Stock conservation: each book loses exactly what the rows asked of it, so a book no row
    * names keeps its stock. */
  lemma {:induction false} DeductAllStock(books: seq<Book>, rows: seq<CartItem>, k: nat)
    requires StrictlyAscending(books, BookKey)
    requires k < |books|
    ensures k < |DeductAll(books, rows)|
    ensures DeductAll(books, rows)[k].quantity == books[k].quantity - QtyFor(rows, books[k].bookId)
    decreases |rows|
  {
    if rows != [] {
      var init := rows[..|rows| - 1];
      var last := rows[|rows| - 1];
      var cur := DeductAll(books, init);
      DeductAllStock(books, init, k);
      StockChangeKeepsKeys(books, cur);
      assert DeductAll(books, rows) == DeductOne(cur, last);
      match FindBook(cur, last.bookId)
      case None =>
        assert cur[k] in cur;
      case Some(j) =>
        if j != k {
          assert BookKey(cur[j]) != BookKey(cur[k]) by {
            if j < k { assert BookKey(cur[j]) < BookKey(cur[k]); }
            else { assert BookKey(cur[k]) < BookKey(cur[j]); }
          }
        }
    }
  }

  lemma {:induction false} QtyForAbsent(rows: seq<CartItem>, id: int)
    requires forall i :: 0 <= i < |rows| ==> rows[i].bookId != id
    ensures QtyFor(rows, id) == 0
    decreases |rows|
  {
    if rows != [] {
      QtyForAbsent(rows[..|rows| - 1], id);
    }
  }

  /** When only row `i` names the book, the book loses exactly that row's quantity. */
  lemma {:induction false} QtyForSingle(rows: seq<CartItem>, id: int, i: nat)
    requires i < |rows| && rows[i].bookId == id
    requires forall j :: 0 <= j < |rows| && j != i ==> rows[j].bookId != id
    ensures QtyFor(rows, id) == rows[i].quantity
  {
    var init := rows[..|rows| - 1];
    if i == |rows| - 1 {
      QtyForAbsent(init, id);
    } else {
      QtyForSingle(init, id, i);
    }
  }

  // ---------------------------------------------------------------- the line items

  /** The by-value copy of a cart row and its book (Controllers/OrdersController.cs:48-56). */
  function SnapItem(ci: CartItem, b: Book, orderId: nat, itemId: nat): OrderItem {
    OrderItem(itemId, orderId, ci.bookId, b.bookName, b.authorName, b.price, ci.quantity)
  }

  /** One line item per row, in cart order, numbered from `firstId`. */
  function LineItems(rows: seq<CartItem>, books: seq<Book>, orderId: nat, firstId: nat): (r: seq<OrderItem>)
    requires RowsHaveBooks(books, rows)
    ensures |r| == |rows|
    ensures forall i :: 0 <= i < |rows| ==> r[i] == SnapItem(rows[i], BookOf(books, rows[i].bookId), orderId, firstId + i)
    decreases |rows|
  {
    if rows == [] then []
    else
      var n := |rows| - 1;
      LineItems(rows[..n], books, orderId, firstId) + [SnapItem(rows[n], BookOf(books, rows[n].bookId), orderId, firstId + n)]
  }

  // ---------------------------------------------------------------- the specification

  datatype CheckoutResult = CheckoutResult(status: Status, tables: Tables, orderId: Option<nat>)

  /** The order a checkout books: the caller's, dated now, shipped to the first "home" address. */
  function PlacedOrder(t: Tables, uid: nat, now: int): Order {
    NewOrder(t.nextOrderId, uid, now).(addressId := ShippingAddress(t.addresses, uid))
  }

  /** The tables with one more order and its items, the new stock and the remaining cart. */
  function Placed(t: Tables, order: Order, items: seq<OrderItem>, books: seq<Book>, cart: seq<CartItem>): Tables {
    t.(orders := t.orders + [order], nextOrderId := t.nextOrderId + 1,
       orderItems := t.orderItems + items, nextOrderItemId := t.nextOrderItemId + |items|,
       books := books, cartItems := cart)
  }

  /** The tables after a successful checkout (Controllers/OrdersController.cs:38-62). */
  function PlacedTables(t: Tables, uid: nat, now: int): Tables
    requires ValidTables(t)
  {
    var rows := CartRows(t, uid);
    CartRowsHaveBooks(t, uid);
    Placed(t, PlacedOrder(t, uid, now), LineItems(rows, t.books, t.nextOrderId, t.nextOrderItemId),
           DeductAll(t.books, rows), Where(t.cartItems, CartNotOfUser(uid)))
  }

  /**
   * One checkout request by user `uid` at time `now`: 400 for an empty cart, 417 when any row
   * asks for more than its book's stock, and otherwise 200 with the new order's id. The two
   * failures are decided before anything is written.
   */
  function CheckoutSpec(t: Tables, uid: nat, now: int): (r: CheckoutResult)
    requires ValidTables(t)
    ensures r.status == BadRequest <==> CartRows(t, uid) == []
    ensures r.status == ExpectationFailed <==>
      CartRows(t, uid) != [] && exists ci :: ci in CartRows(t, uid) && Short(t.books, ci)
    ensures r.status == Ok <==>
      CartRows(t, uid) != [] && forall ci :: ci in CartRows(t, uid) ==> !Short(t.books, ci)
    ensures r.status != Ok ==> r.tables == t && r.orderId == None
    ensures r.status == Ok ==> r.orderId == Some(t.nextOrderId)
  {
    var rows := CartRows(t, uid);
    if rows == [] then CheckoutResult(BadRequest, t, None)
    else if exists ci :: ci in rows && Short(t.books, ci) then CheckoutResult(ExpectationFailed, t, None)
    else CheckoutResult(Ok, PlacedTables(t, uid, now), Some(t.nextOrderId))
  }

  // ---------------------------------------------------------------- the handler

  /** `Checkout` (Controllers/OrdersController.cs:19-64). */
  method Checkout(ctx: AppDbContext, userId: nat, now: int) returns (status: Status, orderId: Option<nat>)
    requires ctx.Valid()
    modifies ctx
    ensures var r := CheckoutSpec(old(ctx.Snapshot()), userId, now);
      status == r.status && orderId == r.orderId && ctx.Snapshot() == r.tables
    ensures ctx.Valid()
  {
    var t0 := ctx.Snapshot();
    var rows := Where(ctx.cartItems, CartOfUser(userId));
    CartRowsHaveBooks(t0, userId);
    assert rows == CartRows(t0, userId);
    if rows == [] {
      assert CheckoutSpec(t0, userId, now) == CheckoutResult(BadRequest, t0, None);
      return BadRequest, None;
    }
    var books0 := ctx.books;
    var short := FirstShortRow(books0, rows);
    if short.Some? {
      CheckoutSpecShort(t0, userId, now, short.value);
      return ExpectationFailed, None;
    }
    CheckoutSpecPlaced(t0, userId, now);
    var oid := PlaceCart(ctx, userId, now, rows);
    return Ok, Some(oid);
  }

  /** The success path of `Checkout` (Controllers/OrdersController.cs:38-62): the order, its line
    * items, the stock deduction and the cleared cart, on a cart that passed the stock check. */
  method PlaceCart(ctx: AppDbContext, userId: nat, now: int, rows: seq<CartItem>) returns (oid: nat)
    requires ctx.Valid()
    requires rows == CartRows(ctx.Snapshot(), userId)
    modifies ctx
    ensures oid == old(ctx.nextOrderId)
    ensures ctx.Snapshot() == PlacedTables(old(ctx.Snapshot()), userId, now)
    ensures ctx.Valid()
  {
    var t0 := ctx.Snapshot();
    CartRowsHaveBooks(t0, userId);
    // the order, with the first "home" address of the caller
    oid := ctx.nextOrderId;
    var order := NewOrder(oid, userId, now);
    var addresses := ctx.addresses;
    var home := FirstIndex(addresses, HomeOf(userId));
    if home.Some? {
      order := order.(addressId := Some(addresses[home.value].addressId));
    }
    // one line item per row, and the stock deduction
    var books, items := SnapshotAndDeduct(ctx.books, rows, oid, ctx.nextOrderItemId);
    // clear the caller's cart
    var cart := Where(ctx.cartItems, CartNotOfUser(userId));
    WriteCheckout(ctx, order, items, books, cart);
    PlacedTablesValid(t0, userId, now);
  }

  /** The writes of a successful checkout: the new order, the new line items, the new stock
    * counts and the remaining cart rows, with the two counters moved past the new keys. */
  method WriteCheckout(ctx: AppDbContext, order: Order, items: seq<OrderItem>, books: seq<Book>, cart: seq<CartItem>)
    modifies ctx
    ensures ctx.Snapshot() == Placed(old(ctx.Snapshot()), order, items, books, cart)
  {
    ctx.orders, ctx.nextOrderId := ctx.orders + [order], ctx.nextOrderId + 1;
    ctx.orderItems, ctx.nextOrderItemId := ctx.orderItems + items, ctx.nextOrderItemId + |items|;
    ctx.books := books;
    ctx.cartItems := cart;
  }

  /** The stock check (Controllers/OrdersController.cs:30-36): the first row asking for more
    * than its book's stock, if any. */
  method FirstShortRow(books: seq<Book>, rows: seq<CartItem>) returns (short: Option<nat>)
    requires RowsHaveBooks(books, rows)
    ensures short.None? <==> forall j :: 0 <= j < |rows| ==> !Short(books, rows[j])
    ensures short.Some? ==> short.value < |rows| && Short(books, rows[short.value])
  {
    var i := 0;
    while i < |rows|
      invariant 0 <= i <= |rows|
      invariant forall j :: 0 <= j < i ==> !Short(books, rows[j])
    {
      var k := FindBook(books, rows[i].bookId).value;
      if books[k].quantity < rows[i].quantity {
        return Some(i);
      }
      i := i + 1;
    }
    return None;
  }

  /** The second loop (Controllers/OrdersController.cs:45-59): a line item copied from each row
    * and its book, and the row's quantity taken off the book's stock. */
  method SnapshotAndDeduct(books0: seq<Book>, rows: seq<CartItem>, oid: nat, firstId: nat)
    returns (books: seq<Book>, items: seq<OrderItem>)
    requires RowsHaveBooks(books0, rows)
    ensures books == DeductAll(books0, rows)
    ensures items == LineItems(rows, books0, oid, firstId)
  {
    books := books0;
    items := [];
    var i := 0;
    while i < |rows|
      invariant 0 <= i <= |rows|
      invariant books == DeductAll(books0, rows[..i])
      invariant items == LineItems(rows[..i], books0, oid, firstId)
    {
      var ci := rows[i];
      LineItemsSnoc(rows, books0, oid, firstId, i);
      var b := BookOf(books0, ci.bookId);
      items := items + [SnapItem(ci, b, oid, firstId + i)];
      DeductAllSnoc(books0, rows, i);
      books := DeductRow(books, ci);
      i := i + 1;
    }
    assert rows[..|rows|] == rows;
  }

  /** `ci.Book.Quantity -= ci.Quantity` (Controllers/OrdersController.cs:58). */
  method DeductRow(books: seq<Book>, ci: CartItem) returns (r: seq<Book>)
    ensures r == DeductOne(books, ci)
  {
    r := books;
    var k := FindBook(books, ci.bookId);
    if k.Some? {
      r := books[k.value := books[k.value].(quantity := books[k.value].quantity - ci.quantity)];
    }
  }

  /** One more row is one more deduction. */
  lemma DeductAllSnoc(books: seq<Book>, rows: seq<CartItem>, i: nat)
    requires i < |rows|
    ensures DeductAll(books, rows[..i + 1]) == DeductOne(DeductAll(books, rows[..i]), rows[i])
  {
    assert rows[..i + 1][..i] == rows[..i];
  }

  /** One more row is one more line item at the end. */
  lemma LineItemsSnoc(rows: seq<CartItem>, books: seq<Book>, oid: nat, firstId: nat, i: nat)
    requires RowsHaveBooks(books, rows) && i < |rows|
    ensures RowsHaveBooks(books, rows[..i]) && RowsHaveBooks(books, rows[..i + 1])
    ensures LineItems(rows[..i + 1], books, oid, firstId)
      == LineItems(rows[..i], books, oid, firstId) + [SnapItem(rows[i], BookOf(books, rows[i].bookId), oid, firstId + i)]
  {
    assert rows[..i + 1][..i] == rows[..i];
  }

  lemma CheckoutSpecShort(t: Tables, uid: nat, now: int, i: nat)
    requires ValidTables(t)
    requires RowsHaveBooks(t.books, CartRows(t, uid))
    requires i < |CartRows(t, uid)| && Short(t.books, CartRows(t, uid)[i])
    ensures CheckoutSpec(t, uid, now) == CheckoutResult(ExpectationFailed, t, None)
  {
    assert CartRows(t, uid)[i] in CartRows(t, uid);
  }

  lemma CheckoutSpecPlaced(t: Tables, uid: nat, now: int)
    requires ValidTables(t)
    requires CartRows(t, uid) != []
    requires RowsHaveBooks(t.books, CartRows(t, uid))
    requires forall j :: 0 <= j < |CartRows(t, uid)| ==> !Short(t.books, CartRows(t, uid)[j])
    ensures CheckoutSpec(t, uid, now) == CheckoutResult(Ok, PlacedTables(t, uid, now), Some(t.nextOrderId))
  {
    var rows := CartRows(t, uid);
    forall ci | ci in rows ensures !Short(t.books, ci) {
      var j :| 0 <= j < |rows| && rows[j] == ci;
    }
  }

  /** `AddMyOrder` is `Checkout` (Controllers/OrdersController.cs:69-73). */
  method AddMyOrder(ctx: AppDbContext, userId: nat, now: int) returns (status: Status, orderId: Option<nat>)
    requires ctx.Valid()
    modifies ctx
    ensures var r := CheckoutSpec(old(ctx.Snapshot()), userId, now);
      status == r.status && orderId == r.orderId && ctx.Snapshot() == r.tables
    ensures ctx.Valid()
  {
    status, orderId := Checkout(ctx, userId, now);
  }

  // ---------------------------------------------------------------- properties of a checkout

  function OrderOfUser(uid: int): Order -> bool { (o: Order) => o.userId == uid }

  /** A successful checkout adds exactly one order, the caller's, dated now and "Placed", and
    * leaves every earlier order as it was. */
  lemma CheckoutAddsOneOrder(t: Tables, uid: nat, now: int)
    requires ValidTables(t)
    requires CheckoutSpec(t, uid, now).status == Ok
    ensures var t' := CheckoutSpec(t, uid, now).tables;
      && |t'.orders| == |t.orders| + 1
      && t'.orders[..|t.orders|] == t.orders
      && t'.orders[|t.orders|].orderId == t.nextOrderId
      && t'.orders[|t.orders|].userId == uid
      && t'.orders[|t.orders|].orderDate == now
      && t'.orders[|t.orders|].status == "Placed"
      && Where(t'.orders, OrderOfUser(uid)) == Where(t.orders, OrderOfUser(uid)) + [t'.orders[|t.orders|]]
  {
    var t' := CheckoutSpec(t, uid, now).tables;
    var o := t'.orders[|t.orders|];
    assert t'.orders == t.orders + [o];
    WhereAppend(t.orders, [o], OrderOfUser(uid));
    assert Where([o], OrderOfUser(uid)) == [o] by {
      assert [o][..0] == [];
    }
  }

  /** The new order's items are one by-value snapshot per cart row, in cart order, each
    * carrying the new order's id. */
  lemma CheckoutSnapshotsCart(t: Tables, uid: nat, now: int)
    requires ValidTables(t)
    requires CheckoutSpec(t, uid, now).status == Ok
    ensures var t' := CheckoutSpec(t, uid, now).tables;
      var rows := CartRows(t, uid);
      var n := |t.orderItems|;
      && |t'.orderItems| == n + |rows|
      && t'.orderItems[..n] == t.orderItems
      && forall i :: 0 <= i < |rows| ==>
           var oi := t'.orderItems[n + i];
           var b := BookOf(t.books, rows[i].bookId);
           && oi.orderId == t.nextOrderId && oi.orderItemId == t.nextOrderItemId + i
           && oi.bookId == rows[i].bookId && oi.quantity == rows[i].quantity
           && oi.bookName == b.bookName && oi.authorName == b.authorName && oi.price == b.price
  {
    CheckoutOk(t, uid, now);
  }

  /** What a 200 from the specification means: the placed tables, and a cart whose rows all
    * passed the stock check. */
  lemma CheckoutOk(t: Tables, uid: nat, now: int)
    requires ValidTables(t)
    requires CheckoutSpec(t, uid, now).status == Ok
    ensures CheckoutSpec(t, uid, now).tables == PlacedTables(t, uid, now)
    ensures RowsHaveBooks(t.books, CartRows(t, uid))
    ensures forall j :: 0 <= j < |CartRows(t, uid)| ==> !Short(t.books, CartRows(t, uid)[j])
    ensures var t', rows := CheckoutSpec(t, uid, now).tables, CartRows(t, uid);
      && t'.orders == t.orders + [PlacedOrder(t, uid, now)]
      && t'.orderItems == t.orderItems + LineItems(rows, t.books, t.nextOrderId, t.nextOrderItemId)
      && t'.books == DeductAll(t.books, rows)
      && t'.cartItems == Where(t.cartItems, CartNotOfUser(uid))
      && t'.addresses == t.addresses
  {
    var rows := CartRows(t, uid);
    CartRowsHaveBooks(t, uid);
    forall j | 0 <= j < |rows| ensures !Short(t.books, rows[j]) {
      assert rows[j] in rows;
    }
  }

  /** Every book's stock drops by exactly the rows' total quantity for it; a book no row names
    * keeps its row unchanged. */
  lemma DeductAllConserves(books: seq<Book>, rows: seq<CartItem>)
    requires StrictlyAscending(books, BookKey)
    ensures var r := DeductAll(books, rows);
      && (forall k :: 0 <= k < |books| ==> r[k].quantity == books[k].quantity - QtyFor(rows, books[k].bookId))
      && (forall k :: 0 <= k < |books| && (forall i :: 0 <= i < |rows| ==> rows[i].bookId != books[k].bookId) ==>
            r[k] == books[k])
  {
    var r := DeductAll(books, rows);
    forall k | 0 <= k < |books|
      ensures r[k].quantity == books[k].quantity - QtyFor(rows, books[k].bookId)
      ensures (forall i :: 0 <= i < |rows| ==> rows[i].bookId != books[k].bookId) ==> r[k] == books[k]
    {
      DeductAllStock(books, rows, k);
      if forall i :: 0 <= i < |rows| ==> rows[i].bookId != books[k].bookId {
        QtyForAbsent(rows, books[k].bookId);
      }
    }
  }

  /** Stock conservation: each book's stock drops by the caller's total quantity for it; books
    * outside the cart keep their stock; no other field of any book changes. */
  lemma CheckoutConservesStock(t: Tables, uid: nat, now: int)
    requires ValidTables(t)
    requires CheckoutSpec(t, uid, now).status == Ok
    ensures var t' := CheckoutSpec(t, uid, now).tables;
      var rows := CartRows(t, uid);
      && OnlyStockChanged(t.books, t'.books)
      && (forall k :: 0 <= k < |t.books| ==> t'.books[k].quantity == t.books[k].quantity - QtyFor(rows, t.books[k].bookId))
      && (forall k :: 0 <= k < |t.books| && (forall i :: 0 <= i < |rows| ==> rows[i].bookId != t.books[k].bookId) ==>
            t'.books[k] == t.books[k])
  {
    CheckoutOk(t, uid, now);
    DeductAllConserves(t.books, CartRows(t, uid));
  }

  /** After a success the caller's cart is empty and every other user's row is still there. */
  lemma CheckoutClearsOnlyCallersCart(t: Tables, uid: nat, now: int)
    requires ValidTables(t)
    requires CheckoutSpec(t, uid, now).status == Ok
    ensures var t' := CheckoutSpec(t, uid, now).tables;
      && (forall ci :: ci in t'.cartItems ==> ci.userId != uid)
      && (forall ci :: ci in t.cartItems && ci.userId != uid <==> ci in t'.cartItems)
  {
  }

  /** The order's address is one of the caller's "home" addresses when there is one. */
  lemma CheckoutShipsHome(t: Tables, uid: nat, now: int)
    requires ValidTables(t)
    requires CheckoutSpec(t, uid, now).status == Ok
    ensures var o := CheckoutSpec(t, uid, now).tables.orders[|t.orders|];
      && (o.addressId.Some? ==> exists a :: a in t.addresses && a.userId == uid
                                           && ToLower(a.addressType) == "home" && a.addressId == o.addressId.value)
      && (o.addressId.None? <==> forall a :: a in t.addresses && a.userId == uid ==> ToLower(a.addressType) != "home")
  {
  }

  /** A book named by exactly one row, which asked for no more than its stock, keeps a
    * non-negative stock. */
  lemma DeductAllSingleRow(books: seq<Book>, rows: seq<CartItem>, k: nat, i: nat)
    requires StrictlyAscending(books, BookKey)
    requires forall a, c :: 0 <= a < c < |rows| ==> rows[a].bookId != rows[c].bookId
    requires k < |books| && i < |rows| && rows[i].bookId == books[k].bookId
    requires rows[i].quantity <= books[k].quantity
    ensures k < |DeductAll(books, rows)| && DeductAll(books, rows)[k].quantity >= 0
  {
    DeductAllStock(books, rows, k);
    forall j | 0 <= j < |rows| && j != i ensures rows[j].bookId != books[k].bookId {
      if j < i { assert rows[j].bookId != rows[i].bookId; }
      else { assert rows[i].bookId != rows[j].bookId; }
    }
    QtyForSingle(rows, books[k].bookId, i);
  }

  /** When no two of the caller's rows name the same book, a successful checkout leaves no
    * book it touched with negative stock. */
  lemma CheckoutNoOversellDistinct(t: Tables, uid: nat, now: int)
    requires ValidTables(t)
    requires CheckoutSpec(t, uid, now).status == Ok
    requires var rows := CartRows(t, uid);
      forall i, j :: 0 <= i < j < |rows| ==> rows[i].bookId != rows[j].bookId
    ensures var t' := CheckoutSpec(t, uid, now).tables;
      var rows := CartRows(t, uid);
      forall k :: 0 <= k < |t.books| && (exists i :: 0 <= i < |rows| && rows[i].bookId == t.books[k].bookId) ==>
        t'.books[k].quantity >= 0
  {
    CheckoutOk(t, uid, now);
    var rows := CartRows(t, uid);
    var r := DeductAll(t.books, rows);
    assert CheckoutSpec(t, uid, now).tables.books == r;
    forall k | 0 <= k < |t.books| && (exists i :: 0 <= i < |rows| && rows[i].bookId == t.books[k].bookId)
      ensures r[k].quantity >= 0
    {
      var i :| 0 <= i < |rows| && rows[i].bookId == t.books[k].bookId;
      FindBookExact(t.books, rows[i].bookId, k);
      assert !Short(t.books, rows[i]);
      DeductAllSingleRow(t.books, rows, k, i);
    }
  }

  /** A database with one book in stock 5 and two cart rows of user 9 asking 3 of it each. */
  function OversellTables(): Tables {
    EmptyTables().(books := [Book(1, "b", "a", 1.0, 5, "d", true, false, 0, 2)],
                   cartItems := [CartItem(1, 1, 9, 3), CartItem(2, 1, 9, 3)],
                   nextBookId := 2, nextCartItemId := 3)
  }

  lemma OversellTablesValid()
    ensures ValidTables(OversellTables())
  {
    var t := OversellTables();
    assert t.books[0] in t.books;
  }

  lemma OversellCartRows()
    ensures CartRows(OversellTables(), 9) == OversellTables().cartItems
  {
    var t := OversellTables();
    assert t.cartItems[..1] == [t.cartItems[0]];
    assert t.cartItems[..1][..0] == [];
  }

  /** The two rows together take 6 off a stock of 5. */
  lemma OversellDeduction()
    ensures var t := OversellTables();
      |DeductAll(t.books, t.cartItems)| == 1 && DeductAll(t.books, t.cartItems)[0].quantity == -1
  {
    var t := OversellTables();
    var rows := t.cartItems;
    DeductAllStock(t.books, rows, 0);
    assert rows[..1] == [rows[0]];
    assert rows[..1][..0] == [];
    assert QtyFor([], 1) == 0;
    assert QtyFor([rows[0]], 1) == 3;
  }

  /** Rows are checked one by one against the stock before any deduction, so two rows for one
    * book can each pass and together oversell it: stock 5, two rows of 3, stock afterwards -1. */
  lemma CheckoutDuplicateRowsOversell()
    ensures exists t: Tables, uid: nat :: Oversold(t, uid)
  {
    OversellTablesValid();
    OversellOutcome();
    OversellDeduction();
    assert Oversold(OversellTables(), 9);
  }

  /** A checkout on consistent tables that succeeds and leaves the only book with stock -1. */
  predicate Oversold(t: Tables, uid: nat) {
    ValidTables(t) && CheckoutSpec(t, uid, 0).status == Ok
    && |CheckoutSpec(t, uid, 0).tables.books| == 1
    && CheckoutSpec(t, uid, 0).tables.books[0].quantity == -1
  }

  lemma OversellOutcome()
    ensures var t := OversellTables();
      ValidTables(t) && CheckoutSpec(t, 9, 0).status == Ok && CheckoutSpec(t, 9, 0).tables.books == DeductAll(t.books, t.cartItems)
  {
    var t := OversellTables();
    OversellTablesValid();
    OversellCartRows();
    FindBookExact(t.books, 1, 0);
    assert HasBook(t.books, 1);
    CheckoutSpecPlaced(t, 9, 0);
  }

  /** A successful checkout keeps the database consistent. */
  lemma PlacedTablesValid(t: Tables, uid: nat, now: int)
    requires ValidTables(t)
    ensures ValidTables(PlacedTables(t, uid, now))
  {
    PlacedKeys(t, uid, now);
    PlacedForeignKeys(t, uid, now);
  }

  /** Deducting stock keeps every book key where it was. */
  lemma DeductAllKeys(books: seq<Book>, rows: seq<CartItem>, next: nat)
    requires KeysBelow(books, BookKey, next)
    ensures KeysBelow(DeductAll(books, rows), BookKey, next)
    ensures forall id :: HasBook(books, id) ==> HasBook(DeductAll(books, rows), id)
  {
    var r := DeductAll(books, rows);
    assert forall k :: 0 <= k < |r| ==> r[k].bookId == books[k].bookId;
    forall id | HasBook(books, id) ensures HasBook(r, id) {
      var b :| b in books && b.bookId == id;
      var k :| 0 <= k < |books| && books[k] == b;
      assert r[k] in r;
    }
  }

  lemma PlacedKeys(t: Tables, uid: nat, now: int)
    requires ValidTables(t)
    ensures PrimaryKeysHold(PlacedTables(t, uid, now))
  {
    var t' := PlacedTables(t, uid, now);
    AppendKeyed(t.orders, OrderKey, t.nextOrderId, t'.orders[|t.orders|]);
    assert t'.orders == t.orders + [t'.orders[|t.orders|]];
    var n := |t.orderItems|;
    forall a, c | 0 <= a < c < |t'.orderItems| ensures OrderItemKey(t'.orderItems[a]) < OrderItemKey(t'.orderItems[c]) {
      if a < n {
        assert t'.orderItems[a] == t.orderItems[a];
        assert OrderItemKey(t.orderItems[a]) < t.nextOrderItemId;
        if c < n {
          assert t'.orderItems[c] == t.orderItems[c];
        }
      }
    }
    forall a | 0 <= a < |t'.orderItems| ensures OrderItemKey(t'.orderItems[a]) < t'.nextOrderItemId {
      if a < n {
        assert t'.orderItems[a] == t.orderItems[a];
      }
    }
    DeductAllKeys(t.books, CartRows(t, uid), t.nextBookId);
    WhereKeyed(t.cartItems, CartItemKey, t.nextCartItemId, CartNotOfUser(uid));
  }

  lemma PlacedForeignKeys(t: Tables, uid: nat, now: int)
    requires ValidTables(t)
    ensures ForeignKeysHold(PlacedTables(t, uid, now))
  {
    DeductAllKeys(t.books, CartRows(t, uid), t.nextBookId);
    PlacedItemsForeignKeys(t, uid, now);
    PlacedOrdersForeignKeys(t, uid, now);
  }

  lemma PlacedItemsForeignKeys(t: Tables, uid: nat, now: int)
    requires ValidTables(t)
    ensures var t' := PlacedTables(t, uid, now);
      forall oi :: oi in t'.orderItems ==> HasBook(t'.books, oi.bookId) && HasOrder(t'.orders, oi.orderId)
  {
    var rows := CartRows(t, uid);
    var t' := PlacedTables(t, uid, now);
    var o := t'.orders[|t.orders|];
    assert t'.orders == t.orders + [o];
    DeductAllKeys(t.books, rows, t.nextBookId);
    var n := |t.orderItems|;
    forall oi | oi in t'.orderItems ensures HasBook(t'.books, oi.bookId) && HasOrder(t'.orders, oi.orderId) {
      var k :| 0 <= k < |t'.orderItems| && t'.orderItems[k] == oi;
      if k < n {
        assert oi == t.orderItems[k];
        assert oi in t.orderItems;
        var o' :| o' in t.orders && o'.orderId == oi.orderId;
        assert o' in t'.orders;
      } else {
        assert rows[k - n] in rows;
        assert o in t'.orders;
      }
    }
  }

  lemma PlacedOrdersForeignKeys(t: Tables, uid: nat, now: int)
    requires ValidTables(t)
    ensures var t' := PlacedTables(t, uid, now);
      forall o :: o in t'.orders && o.addressId.Some? ==> HasAddress(t'.addresses, o.addressId.value)
  {
    var t' := PlacedTables(t, uid, now);
    var o := PlacedOrder(t, uid, now);
    assert t'.orders == t.orders + [o];
    forall o' | o' in t'.orders && o'.addressId.Some? ensures HasAddress(t'.addresses, o'.addressId.value) {
      if o' !in t.orders {
        assert o' == o;
      }
    }
  }

  // ---------------------------------------------------------------- order history

  datatype ItemView = ItemView(bookId: nat, bookName: string, quantity: int, price: real, totalPrice: real)
  datatype OrderView = OrderView(orderId: nat, orderDate: int, items: seq<ItemView>)

  function ItemOfOrder(oid: int): OrderItem -> bool { (oi: OrderItem) => oi.orderId == oid }

  function ViewItem(oi: OrderItem): (v: ItemView)
    ensures v.totalPrice == OrderItemTotal(oi)
    ensures v.bookId == oi.bookId && v.quantity == oi.quantity && v.price == oi.price
  {
    ItemView(oi.bookId, oi.bookName, oi.quantity, oi.price, OrderItemTotal(oi))
  }

  function ViewOrder(items: seq<OrderItem>): Order -> OrderView {
    (o: Order) => OrderView(o.orderId, o.orderDate, Select(Where(items, ItemOfOrder(o.orderId)), ViewItem))
  }

  /** The newest order first: the sort key is the date negated. */
  function DateDesc(o: Order): real { -(o.orderDate as real) }

  /** `GetMyOrders` (Controllers/OrdersController.cs:78-98): the caller's orders, newest first,
    * each with its own line items and their totals. */
  function GetMyOrders(t: Tables, uid: int): (r: seq<OrderView>)
    ensures |r| == Count(t.orders, OrderOfUser(uid))
  {
    Select(SortBy(Where(t.orders, OrderOfUser(uid)), DateDesc), ViewOrder(t.orderItems))
  }

  lemma GetMyOrdersNewestFirst(t: Tables, uid: int)
    ensures var r := GetMyOrders(t, uid);
      forall i, j :: 0 <= i < j < |r| ==> r[i].orderDate >= r[j].orderDate
  {
    var sorted := SortBy(Where(t.orders, OrderOfUser(uid)), DateDesc);
    var r := GetMyOrders(t, uid);
    forall i, j | 0 <= i < j < |r| ensures r[i].orderDate >= r[j].orderDate {
      assert DateDesc(sorted[i]) <= DateDesc(sorted[j]);
    }
  }

  /** Every order of the caller is listed. */
  lemma GetMyOrdersListsOrder(t: Tables, uid: int, o: Order) returns (i: nat)
    requires o in t.orders && o.userId == uid
    ensures i < |GetMyOrders(t, uid)| && GetMyOrders(t, uid)[i] == ViewOrder(t.orderItems)(o)
  {
    var sorted := SortBy(Where(t.orders, OrderOfUser(uid)), DateDesc);
    assert o in multiset(sorted);
    i :| 0 <= i < |sorted| && sorted[i] == o;
  }

  /** Exactly the caller's orders are listed. */
  lemma GetMyOrdersExactlyCallers(t: Tables, uid: int)
    ensures var r := GetMyOrders(t, uid);
      && (forall v :: v in r ==> exists o :: o in t.orders && o.userId == uid && o.orderId == v.orderId && o.orderDate == v.orderDate)
      && (forall o :: o in t.orders && o.userId == uid ==> exists v :: v in r && v.orderId == o.orderId && v.orderDate == o.orderDate)
  {
    var r := GetMyOrders(t, uid);
    forall v | v in r ensures exists o :: o in t.orders && o.userId == uid && o.orderId == v.orderId && o.orderDate == v.orderDate {
      var o := GetMyOrdersViews(t, uid, v);
    }
    forall o | o in t.orders && o.userId == uid ensures exists v :: v in r && v.orderId == o.orderId && v.orderDate == o.orderDate {
      var i := GetMyOrdersListsOrder(t, uid, o);
      assert r[i] in r;
    }
  }

  /** A view lists exactly the order's own line items, in table order, each total being
    * price times quantity. */
  lemma ViewOrderItems(items: seq<OrderItem>, o: Order)
    ensures var v := ViewOrder(items)(o);
      && v.orderId == o.orderId && v.orderDate == o.orderDate
      && (forall x :: x in v.items ==> x.totalPrice == x.price * (x.quantity as real))
      && (forall x :: x in v.items ==> exists oi :: oi in items && oi.orderId == o.orderId && x == ViewItem(oi))
      && (forall oi :: oi in items && oi.orderId == o.orderId ==> ViewItem(oi) in v.items)
  {
    var own := Where(items, ItemOfOrder(o.orderId));
    var v := ViewOrder(items)(o);
    assert v.items == Select(own, ViewItem);
    forall x | x in v.items
      ensures x.totalPrice == x.price * (x.quantity as real)
      ensures exists oi :: oi in items && oi.orderId == o.orderId && x == ViewItem(oi)
    {
      var j :| 0 <= j < |v.items| && v.items[j] == x;
      assert own[j] in own;
    }
    forall oi | oi in items && oi.orderId == o.orderId ensures ViewItem(oi) in v.items {
      assert oi in own;
      var j :| 0 <= j < |own| && own[j] == oi;
      assert v.items[j] == ViewItem(oi);
    }
  }

  /** Every listed order is the view of one of the caller's orders. */
  lemma GetMyOrdersViews(t: Tables, uid: int, v: OrderView) returns (o: Order)
    requires v in GetMyOrders(t, uid)
    ensures o in t.orders && o.userId == uid && v == ViewOrder(t.orderItems)(o)
  {
    var sorted := SortBy(Where(t.orders, OrderOfUser(uid)), DateDesc);
    var r := GetMyOrders(t, uid);
    var i :| 0 <= i < |r| && r[i] == v;
    assert sorted[i] in multiset(sorted);
    o := sorted[i];
  }

  /** Each listed order carries exactly its own line items, each total being price times quantity. */
  lemma GetMyOrdersItems(t: Tables, uid: int, v: OrderView)
    requires v in GetMyOrders(t, uid)
    ensures forall x :: x in v.items ==> x.totalPrice == x.price * (x.quantity as real)
    ensures forall x :: x in v.items ==> exists oi :: oi in t.orderItems && oi.orderId == v.orderId && x == ViewItem(oi)
    ensures forall oi :: oi in t.orderItems && oi.orderId == v.orderId ==> ViewItem(oi) in v.items
  {
    var o := GetMyOrdersViews(t, uid, v);
    ViewOrderItems(t.orderItems, o);
  }
}
