/**
 * The shopping cart (Controllers/CartController.cs): adding a book, listing, removing and
 * re-counting rows, changing a row's quantity, and merging a guest cart into the caller's
 * cart after login.
 *
 * Each handler is a method over the context that is proved to produce the status, the
 * reported cart size and the new tables of a pure specification function; the properties
 * are lemmas about those functions.
 */
module CartController {
  import opened Wrappers
  import opened Linq
  import opened Strings
  import opened Http
  import opened Models
  import opened AppDb

  /** A handler's answer: its status, the tables it leaves and the cart size it reports. */
  datatype CartReply = CartReply(status: Status, tables: Tables, count: Option<nat>)

  // ---------------------------------------------------------------- queries

  function PairOf(uid: int, bookId: int): CartItem -> bool {
    (ci: CartItem) => ci.userId == uid && ci.bookId == bookId
  }

  function RowOf(cartItemId: int, uid: int): CartItem -> bool {
    (ci: CartItem) => ci.cartItemId == cartItemId && ci.userId == uid
  }

  /** Some row of `rows` puts book `bookId` in user `uid`'s cart. */
  predicate InCart(rows: seq<CartItem>, uid: int, bookId: int) {
    exists i :: 0 <= i < |rows| && rows[i].userId == uid && rows[i].bookId == bookId
  }

  /** Row `cartItemId` exists and belongs to user `uid`. */
  predicate OwnsRow(rows: seq<CartItem>, uid: int, cartItemId: int) {
    exists i :: 0 <= i < |rows| && rows[i].cartItemId == cartItemId && rows[i].userId == uid
  }

  /** The availability test after `Books.Find`: the book exists, is approved and in stock. */
  predicate Available(books: seq<Book>, bookId: int) {
    match FindBook(books, bookId)
    case None => false
    case Some(k) => books[k].isApproved && books[k].quantity > 0
  }

  /** With unique book keys the test is about the one book carrying that key. */
  lemma AvailableIff(books: seq<Book>, bookId: int)
    requires StrictlyAscending(books, BookKey)
    ensures Available(books, bookId) <==>
      exists b :: b in books && b.bookId == bookId && b.isApproved && b.quantity > 0
  {
    if b :| b in books && b.bookId == bookId && b.isApproved && b.quantity > 0 {
      var k :| 0 <= k < |books| && books[k] == b;
      FindBookExact(books, bookId, k);
    }
  }

  /** `CartSize` (Controllers/CartController.cs:162-167), also the count the handlers report. */
  function CartSize(t: Tables, uid: int): (n: nat)
    ensures n <= |t.cartItems|
    ensures n == 0 <==> forall ci :: ci in t.cartItems ==> ci.userId != uid
  {
    var rows := CartRows(t, uid);
    if rows != [] then
      assert rows[0] in rows;
      Count(t.cartItems, CartOfUser(uid))
    else
      Count(t.cartItems, CartOfUser(uid))
  }

  /** Appending rows adds their caller's rows to the count. */
  lemma CartSizeAppend(t: Tables, t': Tables, rows: seq<CartItem>, uid: int)
    requires t'.cartItems == t.cartItems + rows
    ensures CartSize(t', uid) == CartSize(t, uid) + Count(rows, CartOfUser(uid))
  {
    WhereAppend(t.cartItems, rows, CartOfUser(uid));
  }

  // ---------------------------------------------------------------- keeping the tables consistent

  /** New rows that take the next keys and name existing books keep the database consistent. */
  lemma AppendCartRowsValid(t: Tables, rows: seq<CartItem>)
    requires ValidTables(t)
    requires forall j :: 0 <= j < |rows| ==> rows[j].cartItemId == t.nextCartItemId + j
    requires forall j :: 0 <= j < |rows| ==> HasBook(t.books, rows[j].bookId)
    ensures ValidTables(t.(cartItems := t.cartItems + rows, nextCartItemId := t.nextCartItemId + |rows|))
  {
    var t' := t.(cartItems := t.cartItems + rows, nextCartItemId := t.nextCartItemId + |rows|);
    forall ci | ci in t'.cartItems ensures HasBook(t.books, ci.bookId) {
      if ci !in t.cartItems {
        var j :| 0 <= j < |rows| && rows[j] == ci;
      }
    }
  }

  /** Rewriting one row under its own key and book keeps the database consistent. */
  lemma ReplaceCartRowValid(t: Tables, k: nat, ci: CartItem)
    requires ValidTables(t) && k < |t.cartItems|
    requires ci.cartItemId == t.cartItems[k].cartItemId && ci.bookId == t.cartItems[k].bookId
    ensures ValidTables(t.(cartItems := t.cartItems[k := ci]))
  {
    UpdateKeyed(t.cartItems, CartItemKey, t.nextCartItemId, k, ci);
    assert t.cartItems[k] in t.cartItems;
  }

  lemma RemoveCartRowValid(t: Tables, k: nat)
    requires ValidTables(t) && k < |t.cartItems|
    ensures ValidTables(t.(cartItems := RemoveAt(t.cartItems, k)))
  {
    RemoveKeyed(t.cartItems, CartItemKey, t.nextCartItemId, k);
  }

  /** `SaveChanges` on the cart table: the only write the cart handlers make. */
  method SetCart(ctx: AppDbContext, rows: seq<CartItem>, next: nat)
    modifies ctx
    ensures ctx.Snapshot() == old(ctx.Snapshot()).(cartItems := rows, nextCartItemId := next)
  {
    ctx.cartItems, ctx.nextCartItemId := rows, next;
  }

  // ---------------------------------------------------------------- AddToCart

  /**
   * `AddToCart` (Controllers/CartController.cs:19-40): a book already in the caller's cart is
   * reported as 208; a missing, unapproved or sold-out book as 417; otherwise a row with
   * quantity 1 is added and the new cart size reported.
   */
  function AddToCartSpec(t: Tables, uid: nat, bookId: int): (r: CartReply)
    ensures r.status == AlreadyReported <==> InCart(t.cartItems, uid, bookId)
    ensures r.status == ExpectationFailed <==> !InCart(t.cartItems, uid, bookId) && !Available(t.books, bookId)
    ensures r.status == Ok <==> !InCart(t.cartItems, uid, bookId) && Available(t.books, bookId)
    ensures r.status != Ok ==> r.tables == t && r.count == None
    ensures r.status == Ok ==> r.count == Some(CartSize(r.tables, uid))
  {
    if InCart(t.cartItems, uid, bookId) then CartReply(AlreadyReported, t, None)
    else if !Available(t.books, bookId) then CartReply(ExpectationFailed, t, None)
    else
      var t' := WithCartRow(t, uid, bookId);
      CartReply(Ok, t', Some(CartSize(t', uid)))
  }

  /** The tables with a fresh quantity-1 row of the caller for that book. */
  function WithCartRow(t: Tables, uid: nat, bookId: nat): Tables {
    t.(cartItems := t.cartItems + [NewCartItem(t.nextCartItemId, uid, bookId)],
       nextCartItemId := t.nextCartItemId + 1)
  }

  method AddToCart(ctx: AppDbContext, userId: nat, bookId: int) returns (status: Status, count: Option<nat>)
    requires ctx.Valid()
    modifies ctx
    ensures var r := AddToCartSpec(old(ctx.Snapshot()), userId, bookId);
      status == r.status && count == r.count && ctx.Snapshot() == r.tables
    ensures ctx.Valid()
  {
    var t0 := ctx.Snapshot();
    var rows, books, next := ctx.cartItems, ctx.books, ctx.nextCartItemId;
    var existing := FirstIndex(rows, PairOf(userId, bookId));
    InCartIndex(rows, userId, bookId);
    if existing.Some? {
      return AlreadyReported, None;
    }
    var k := FindBook(books, bookId);
    if k.None? || !books[k.value].isApproved || books[k.value].quantity <= 0 {
      return ExpectationFailed, None;
    }
    assert AddToCartSpec(t0, userId, bookId).tables == WithCartRow(t0, userId, bookId);
    AddToCartValid(t0, userId, bookId);
    var rows' := rows + [NewCartItem(next, userId, bookId)];
    SetCart(ctx, rows', next + 1);
    assert ctx.Snapshot() == WithCartRow(t0, userId, bookId);
    return Ok, Some(Count(rows', CartOfUser(userId)));
  }

  /** The handler's lookup finds a row exactly when the book is in the caller's cart. */
  lemma InCartIndex(rows: seq<CartItem>, uid: int, bookId: int)
    ensures InCart(rows, uid, bookId) <==> FirstIndex(rows, PairOf(uid, bookId)).Some?
  {
    if InCart(rows, uid, bookId) {
      var i :| 0 <= i < |rows| && rows[i].userId == uid && rows[i].bookId == bookId;
      assert PairOf(uid, bookId)(rows[i]);
    }
  }

  lemma AddToCartValid(t: Tables, uid: nat, bookId: int)
    requires ValidTables(t)
    ensures ValidTables(AddToCartSpec(t, uid, bookId).tables)
  {
    if AddToCartSpec(t, uid, bookId).status == Ok {
      var ci := NewCartItem(t.nextCartItemId, uid, bookId);
      AppendCartRowsValid(t, [ci]);
    }
  }

  /** A successful add appends exactly one row, the caller's, for that book, with quantity 1,
    * under the next key; the caller's cart grows by one and nothing else changes. */
  lemma AddToCartAddsOneRow(t: Tables, uid: nat, bookId: int)
    requires AddToCartSpec(t, uid, bookId).status == Ok
    ensures var r := AddToCartSpec(t, uid, bookId);
      r.tables == t.(cartItems := r.tables.cartItems, nextCartItemId := t.nextCartItemId + 1)
      && r.tables.cartItems == t.cartItems + [CartItem(t.nextCartItemId, bookId, uid, 1)]
      && r.count == Some(CartSize(t, uid) + 1)
  {
    CartRowCount(t, uid, bookId);
  }

  lemma CartRowCount(t: Tables, uid: nat, bookId: nat)
    ensures CartSize(WithCartRow(t, uid, bookId), uid) == CartSize(t, uid) + 1
  {
    var ci := NewCartItem(t.nextCartItemId, uid, bookId);
    CartSizeAppend(t, WithCartRow(t, uid, bookId), [ci], uid);
    assert Where([ci], CartOfUser(uid)) == [ci];
  }

  /** The 208 check keeps a user from holding two rows for one book (the schema has no index
    * for it). */
  lemma AddToCartKeepsCartUnique(t: Tables, uid: nat, bookId: int)
    requires CartUnique(t)
    ensures CartUnique(AddToCartSpec(t, uid, bookId).tables)
  {
    var r := AddToCartSpec(t, uid, bookId);
    if r.status == Ok {
      forall y | y in t.cartItems ensures CartPair(y) != (uid, bookId) {
        var j :| 0 <= j < |t.cartItems| && t.cartItems[j] == y;
      }
    }
  }

  // ---------------------------------------------------------------- RemoveFromCart

  /** `RemoveFromCart` (Controllers/CartController.cs:79-88): 404 unless the row exists and is the
    * caller's; otherwise the row is deleted and the new cart size reported. */
  function RemoveFromCartSpec(t: Tables, uid: nat, cartItemId: int): (r: CartReply)
    ensures r.status == NotFound <==> !OwnsRow(t.cartItems, uid, cartItemId)
    ensures r.status == Ok <==> OwnsRow(t.cartItems, uid, cartItemId)
    ensures r.status == NotFound ==> r.tables == t && r.count == None
    ensures r.status == Ok ==> r.count == Some(CartSize(r.tables, uid))
  {
    match FirstIndex(t.cartItems, RowOf(cartItemId, uid))
    case None => CartReply(NotFound, t, None)
    case Some(k) =>
      var t' := t.(cartItems := RemoveAt(t.cartItems, k));
      CartReply(Ok, t', Some(CartSize(t', uid)))
  }

  method RemoveFromCart(ctx: AppDbContext, userId: nat, cartItemId: int) returns (status: Status, count: Option<nat>)
    requires ctx.Valid()
    modifies ctx
    ensures var r := RemoveFromCartSpec(old(ctx.Snapshot()), userId, cartItemId);
      status == r.status && count == r.count && ctx.Snapshot() == r.tables
    ensures ctx.Valid()
  {
    var t0 := ctx.Snapshot();
    var rows, next := ctx.cartItems, ctx.nextCartItemId;
    var k := FirstIndex(rows, RowOf(cartItemId, userId));
    if k.None? {
      return NotFound, None;
    }
    RemoveCartRowValid(t0, k.value);
    var rows' := RemoveAt(rows, k.value);
    SetCart(ctx, rows', next);
    return Ok, Some(Count(rows', CartOfUser(userId)));
  }

  /** The one row with that key: keys are unique, so the row found is the one to delete. */
  lemma OwnedRowIndex(t: Tables, uid: nat, cartItemId: int) returns (k: nat)
    requires ValidTables(t) && OwnsRow(t.cartItems, uid, cartItemId)
    ensures k < |t.cartItems| && FirstIndex(t.cartItems, RowOf(cartItemId, uid)) == Some(k)
    ensures forall j :: 0 <= j < |t.cartItems| && j != k ==> t.cartItems[j].cartItemId != cartItemId
  {
    k := FirstIndex(t.cartItems, RowOf(cartItemId, uid)).value;
  }

  /** Removing drops exactly the caller's row with that key, keeps every other row and
    * shrinks the caller's cart by one. */
  lemma RemoveFromCartRemovesRow(t: Tables, uid: nat, cartItemId: int)
    requires ValidTables(t) && OwnsRow(t.cartItems, uid, cartItemId)
    ensures var r := RemoveFromCartSpec(t, uid, cartItemId);
      r.tables == t.(cartItems := r.tables.cartItems)
      && (forall ci :: ci in r.tables.cartItems <==> ci in t.cartItems && ci.cartItemId != cartItemId)
  {
    var k := OwnedRowIndex(t, uid, cartItemId);
    var s := t.cartItems;
    var r := RemoveFromCartSpec(t, uid, cartItemId);
    forall ci | ci in s && ci.cartItemId != cartItemId ensures ci in r.tables.cartItems {
      var j :| 0 <= j < |s| && s[j] == ci;
      if j < k { assert r.tables.cartItems[j] == ci; } else { assert r.tables.cartItems[j - 1] == ci; }
    }
    forall ci | ci in r.tables.cartItems ensures ci.cartItemId != cartItemId {
      var j :| 0 <= j < |r.tables.cartItems| && r.tables.cartItems[j] == ci;
      if j >= k { assert ci == s[j + 1]; }
    }
  }

  /** Removing the caller's row shrinks the caller's cart by one. */
  lemma RemoveFromCartCountShrinks(t: Tables, uid: nat, cartItemId: int)
    requires ValidTables(t) && OwnsRow(t.cartItems, uid, cartItemId)
    ensures RemoveFromCartSpec(t, uid, cartItemId).count == Some(CartSize(t, uid) - 1)
  {
    var k := OwnedRowIndex(t, uid, cartItemId);
    CountRemoveAt(t.cartItems, k, CartOfUser(uid));
  }

  // ---------------------------------------------------------------- quantities

  /** The stock of the book a stored row names (`item.Book.Quantity`). */
  function StockOf(t: Tables, ci: CartItem): int
    requires ValidTables(t) && ci in t.cartItems
  {
    BookOf(t.books, ci.bookId).quantity
  }

  /** Row `k` is the caller's row with that key, so the handlers' lookup finds exactly it. */
  lemma RowIndex(t: Tables, uid: nat, k: nat)
    requires ValidTables(t) && k < |t.cartItems| && t.cartItems[k].userId == uid
    ensures FirstIndex(t.cartItems, RowOf(t.cartItems[k].cartItemId, uid)) == Some(k)
  {
    var r := FirstIndex(t.cartItems, RowOf(t.cartItems[k].cartItemId, uid));
    assert RowOf(t.cartItems[k].cartItemId, uid)(t.cartItems[k]);
    assert r.Some?;
    assert CartItemKey(t.cartItems[r.value]) == CartItemKey(t.cartItems[k]);
  }

  /** `t'` differs from `t` at most in the quantity of cart row `k`, or by that row's removal. */
  predicate OnlyRowEdited(t: Tables, t': Tables, k: nat)
    requires k < |t.cartItems|
  {
    t' == t.(cartItems := t'.cartItems)
    && (t'.cartItems == RemoveAt(t.cartItems, k)
        || (|t'.cartItems| == |t.cartItems|
            && t'.cartItems == t.cartItems[k := t.cartItems[k].(quantity := t'.cartItems[k].quantity)]))
  }

  /** Such an edit keeps the database consistent and keeps the caller's cart free of duplicates. */
  lemma OnlyRowEditedKeeps(t: Tables, t': Tables, k: nat)
    requires ValidTables(t) && k < |t.cartItems| && OnlyRowEdited(t, t', k)
    ensures ValidTables(t')
    ensures CartUnique(t) ==> CartUnique(t')
  {
    if t'.cartItems == RemoveAt(t.cartItems, k) {
      RemoveCartRowValid(t, k);
    } else {
      var x := t.cartItems[k].(quantity := t'.cartItems[k].quantity);
      ReplaceCartRowValid(t, k, x);
      if CartUnique(t) {
        forall a, b | a in t'.cartItems && b in t'.cartItems && CartPair(a) == CartPair(b)
          ensures a == b
        {
          var i :| 0 <= i < |t'.cartItems| && t'.cartItems[i] == a;
          var j :| 0 <= j < |t'.cartItems| && t'.cartItems[j] == b;
          assert CartPair(t.cartItems[i]) == CartPair(t.cartItems[j]);
          assert t.cartItems[i] in t.cartItems && t.cartItems[j] in t.cartItems;
        }
      }
    }
  }

  /**
   * `ChangeQuantity` (Controllers/CartController.cs:107-132): 404 unless the row is the caller's.
   * A positive step is refused with 417 once the row holds the whole stock, and is otherwise
   * added with 32-bit arithmetic; a negative step is added the same way and deletes the row
   * when the quantity reaches zero or below; a zero step changes nothing.
   */
  function ChangeQuantitySpec(t: Tables, uid: nat, cartItemId: int, delta: int): (r: CartReply)
    requires ValidTables(t)
    ensures r.status == NotFound <==> !OwnsRow(t.cartItems, uid, cartItemId)
    ensures r.status == ExpectationFailed ==> delta > 0
    ensures r.status == NotFound || r.status == ExpectationFailed || r.status == Ok
    ensures r.status != Ok ==> r.tables == t
    ensures r.count == None
  {
    match FirstIndex(t.cartItems, RowOf(cartItemId, uid))
    case None => CartReply(NotFound, t, None)
    case Some(k) =>
      var ci := t.cartItems[k];
      assert ci in t.cartItems;
      if delta > 0 then
        if StockOf(t, ci) <= ci.quantity then CartReply(ExpectationFailed, t, None)
        else CartReply(Ok, t.(cartItems := t.cartItems[k := ci.(quantity := Wrap32(ci.quantity + delta))]), None)
      else if delta < 0 then
        var q := Wrap32(ci.quantity + delta);
        if q <= 0 then CartReply(Ok, t.(cartItems := RemoveAt(t.cartItems, k)), None)
        else CartReply(Ok, t.(cartItems := t.cartItems[k := ci.(quantity := q)]), None)
      else CartReply(Ok, t, None)
  }

  method ChangeQuantity(ctx: AppDbContext, userId: nat, cartItemId: int, delta: int) returns (status: Status)
    requires ctx.Valid()
    modifies ctx
    ensures var r := ChangeQuantitySpec(old(ctx.Snapshot()), userId, cartItemId, delta);
      status == r.status && ctx.Snapshot() == r.tables
    ensures ctx.Valid()
  {
    var t0 := ctx.Snapshot();
    var rows, books, next := ctx.cartItems, ctx.books, ctx.nextCartItemId;
    var found := FirstIndex(rows, RowOf(cartItemId, userId));
    if found.None? {
      return NotFound;
    }
    var k := found.value;
    var ci := rows[k];
    assert ci in t0.cartItems;
    ChangeQuantityEdits(t0, userId, k, delta);
    ChangeQuantityAt(t0, userId, k, delta);
    var rows' := rows;
    if delta > 0 {
      if BookOf(books, ci.bookId).quantity <= ci.quantity {
        return ExpectationFailed;
      }
      rows' := rows[k := ci.(quantity := Wrap32(ci.quantity + delta))];
    } else if delta < 0 {
      var q := Wrap32(ci.quantity + delta);
      if q <= 0 {
        rows' := RemoveAt(rows, k);
      } else {
        rows' := rows[k := ci.(quantity := q)];
      }
    }
    assert ChangeQuantitySpec(t0, userId, cartItemId, delta).tables == t0.(cartItems := rows');
    SetCart(ctx, rows', next);
    return Ok;
  }

  /** The spec's result on the caller's row `k`, case by case. */
  lemma ChangeQuantityAt(t: Tables, uid: nat, k: nat, delta: int)
    requires ValidTables(t) && k < |t.cartItems| && t.cartItems[k].userId == uid
    ensures var ci := t.cartItems[k];
      var r := ChangeQuantitySpec(t, uid, ci.cartItemId, delta);
      var q := Wrap32(ci.quantity + delta);
      (delta > 0 && StockOf(t, ci) <= ci.quantity ==> r.status == ExpectationFailed)
      && (delta > 0 && StockOf(t, ci) > ci.quantity ==> r.status == Ok && r.tables.cartItems == t.cartItems[k := ci.(quantity := q)])
      && (delta < 0 && q <= 0 ==> r.status == Ok && r.tables.cartItems == RemoveAt(t.cartItems, k))
      && (delta < 0 && q > 0 ==> r.status == Ok && r.tables.cartItems == t.cartItems[k := ci.(quantity := q)])
      && (delta == 0 ==> r.status == Ok && r.tables == t)
  {
    RowIndex(t, uid, k);
  }

  /** `IncreaseQuantity` (Controllers/CartController.cs:93-96). */
  method IncreaseQuantity(ctx: AppDbContext, userId: nat, cartItemId: int) returns (status: Status)
    requires ctx.Valid()
    modifies ctx
    ensures var r := ChangeQuantitySpec(old(ctx.Snapshot()), userId, cartItemId, 1);
      status == r.status && ctx.Snapshot() == r.tables
    ensures ctx.Valid()
  {
    status := ChangeQuantity(ctx, userId, cartItemId, 1);
  }

  /** `DecreaseQuantity` (Controllers/CartController.cs:101-104). */
  method DecreaseQuantity(ctx: AppDbContext, userId: nat, cartItemId: int) returns (status: Status)
    requires ctx.Valid()
    modifies ctx
    ensures var r := ChangeQuantitySpec(old(ctx.Snapshot()), userId, cartItemId, -1);
      status == r.status && ctx.Snapshot() == r.tables
    ensures ctx.Valid()
  {
    status := ChangeQuantity(ctx, userId, cartItemId, -1);
  }

  /** A quantity change touches only the caller's row it names, and only that row's quantity
    * or its presence; the database stays consistent and duplicate-free. */
  lemma ChangeQuantityEdits(t: Tables, uid: nat, k: nat, delta: int)
    requires ValidTables(t) && k < |t.cartItems| && t.cartItems[k].userId == uid
    ensures OnlyRowEdited(t, ChangeQuantitySpec(t, uid, t.cartItems[k].cartItemId, delta).tables, k)
    ensures ValidTables(ChangeQuantitySpec(t, uid, t.cartItems[k].cartItemId, delta).tables)
    ensures CartUnique(t) ==> CartUnique(ChangeQuantitySpec(t, uid, t.cartItems[k].cartItemId, delta).tables)
  {
    RowIndex(t, uid, k);
    OnlyRowEditedKeeps(t, ChangeQuantitySpec(t, uid, t.cartItems[k].cartItemId, delta).tables, k);
  }

  /** One more copy is granted exactly while the row holds less than the stock, so (with the
    * stock a 32-bit value) an increase never takes a row above the book's stock. */
  lemma IncreaseWithinStock(t: Tables, uid: nat, k: nat)
    requires ValidTables(t) && k < |t.cartItems| && t.cartItems[k].userId == uid
    requires StockOf(t, t.cartItems[k]) <= Int32Max
    ensures var ci := t.cartItems[k];
      var r := ChangeQuantitySpec(t, uid, ci.cartItemId, 1);
      (r.status == Ok <==> ci.quantity < StockOf(t, ci))
      && (r.status == ExpectationFailed <==> ci.quantity >= StockOf(t, ci))
      && (r.status == Ok ==>
            r.tables == t.(cartItems := t.cartItems[k := ci.(quantity := ci.quantity + 1)])
            && ci.quantity + 1 <= StockOf(t, ci))
  {
    RowIndex(t, uid, k);
  }

  /** A decrease always succeeds: it lowers the quantity by one, and deletes the row when that
    * leaves nothing, provided the quantity is above the 32-bit minimum. */
  lemma DecreaseLowersOrDeletes(t: Tables, uid: nat, k: nat)
    requires ValidTables(t) && k < |t.cartItems| && t.cartItems[k].userId == uid
    requires t.cartItems[k].quantity > Int32Min
    ensures var ci := t.cartItems[k];
      var r := ChangeQuantitySpec(t, uid, ci.cartItemId, -1);
      r.status == Ok
      && (ci.quantity <= 1 ==> r.tables == t.(cartItems := RemoveAt(t.cartItems, k)))
      && (ci.quantity > 1 ==> r.tables == t.(cartItems := t.cartItems[k := ci.(quantity := ci.quantity - 1)]))
  {
    RowIndex(t, uid, k);
  }

  /** At the 32-bit minimum the decrement wraps: the row is kept with the largest quantity. */
  lemma DecreaseWrapsAtInt32Min(t: Tables, uid: nat, k: nat)
    requires ValidTables(t) && k < |t.cartItems| && t.cartItems[k].userId == uid
    requires t.cartItems[k].quantity == Int32Min
    ensures var ci := t.cartItems[k];
      var r := ChangeQuantitySpec(t, uid, ci.cartItemId, -1);
      r.status == Ok && r.tables == t.(cartItems := t.cartItems[k := ci.(quantity := Int32Max)])
  {
    RowIndex(t, uid, k);
    assert Wrap32(Int32Min - 1) == Int32Max;
  }

  /**
   * `UpdateQuantity` (Controllers/CartController.cs:137-157): 404 unless the row is the caller's;
   * a quantity of zero or below deletes the row; one above the book's stock is refused with
   * 417; otherwise it becomes the row's quantity.
   */
  function UpdateQuantitySpec(t: Tables, uid: nat, cartItemId: int, q: Int32): (r: CartReply)
    requires ValidTables(t)
    ensures r.status == NotFound <==> !OwnsRow(t.cartItems, uid, cartItemId)
    ensures r.status == ExpectationFailed ==> q > 0
    ensures r.status == NotFound || r.status == ExpectationFailed || r.status == Ok
    ensures r.status != Ok ==> r.tables == t
    ensures r.count == None
  {
    match FirstIndex(t.cartItems, RowOf(cartItemId, uid))
    case None => CartReply(NotFound, t, None)
    case Some(k) =>
      var ci := t.cartItems[k];
      assert ci in t.cartItems;
      if q <= 0 then CartReply(Ok, t.(cartItems := RemoveAt(t.cartItems, k)), None)
      else if q > StockOf(t, ci) then CartReply(ExpectationFailed, t, None)
      else CartReply(Ok, t.(cartItems := t.cartItems[k := ci.(quantity := q)]), None)
  }

  method UpdateQuantity(ctx: AppDbContext, userId: nat, cartItemId: int, q: Int32) returns (status: Status)
    requires ctx.Valid()
    modifies ctx
    ensures var r := UpdateQuantitySpec(old(ctx.Snapshot()), userId, cartItemId, q);
      status == r.status && ctx.Snapshot() == r.tables
    ensures ctx.Valid()
  {
    var t0 := ctx.Snapshot();
    var rows, books, next := ctx.cartItems, ctx.books, ctx.nextCartItemId;
    var found := FirstIndex(rows, RowOf(cartItemId, userId));
    if found.None? {
      return NotFound;
    }
    var k := found.value;
    var ci := rows[k];
    assert ci in t0.cartItems;
    UpdateQuantityEdits(t0, userId, k, q);
    if q <= 0 {
      SetCart(ctx, RemoveAt(rows, k), next);
    } else {
      if q > BookOf(books, ci.bookId).quantity {
        return ExpectationFailed;
      }
      SetCart(ctx, rows[k := ci.(quantity := q)], next);
    }
    return Ok;
  }

  lemma UpdateQuantityEdits(t: Tables, uid: nat, k: nat, q: Int32)
    requires ValidTables(t) && k < |t.cartItems| && t.cartItems[k].userId == uid
    ensures OnlyRowEdited(t, UpdateQuantitySpec(t, uid, t.cartItems[k].cartItemId, q).tables, k)
    ensures ValidTables(UpdateQuantitySpec(t, uid, t.cartItems[k].cartItemId, q).tables)
    ensures CartUnique(t) ==> CartUnique(UpdateQuantitySpec(t, uid, t.cartItems[k].cartItemId, q).tables)
  {
    RowIndex(t, uid, k);
    OnlyRowEditedKeeps(t, UpdateQuantitySpec(t, uid, t.cartItems[k].cartItemId, q).tables, k);
  }

  /** The outcomes on the caller's row: deletion for a non-positive quantity, refusal above the
    * stock, and otherwise a quantity inside the declared range and within stock. */
  lemma UpdateQuantityOutcomes(t: Tables, uid: nat, k: nat, q: Int32)
    requires ValidTables(t) && k < |t.cartItems| && t.cartItems[k].userId == uid
    ensures var ci := t.cartItems[k];
      var r := UpdateQuantitySpec(t, uid, ci.cartItemId, q);
      (r.status == ExpectationFailed <==> 0 < q && StockOf(t, ci) < q)
      && (q <= 0 ==> r.status == Ok && r.tables == t.(cartItems := RemoveAt(t.cartItems, k)))
      && (0 < q <= StockOf(t, ci) ==>
            r.status == Ok && r.tables == t.(cartItems := t.cartItems[k := ci.(quantity := q)])
            && InCartRange(r.tables.cartItems[k].quantity) && r.tables.cartItems[k].quantity <= StockOf(t, ci))
  {
    RowIndex(t, uid, k);
  }

  // ---------------------------------------------------------------- DisplayCartItems

  /** The book part of a listed cart row (the image is not modelled). */
  datatype CartBookView = CartBookView(
    bookId: nat, bookName: string, authorName: string, price: real,
    quantity: int, description: string, isApproved: bool)

  /** One listed cart row. */
  datatype CartLine = CartLine(cartBookId: nat, bookQuantity: Int32, totalBookPrice: real, book: CartBookView)

  /** What `DisplayCartItems` answers with: a fixed cart id, the count and the rows. */
  datatype CartView = CartView(cartId: int, totalBooksInCart: nat, cartBooks: seq<CartLine>)

  /** A row shown with its book: the row's key and quantity, the book's fields, and the book's
    * price times the quantity. */
  function LineOf(ci: CartItem, b: Book): (l: CartLine)
    ensures l.cartBookId == ci.cartItemId && l.bookQuantity == ci.quantity
    ensures l.totalBookPrice == b.price * (ci.quantity as real)
    ensures l.book.bookId == ci.bookId && l.book.price == b.price && l.book.quantity == b.quantity
  {
    CartLine(ci.cartItemId, ci.quantity, CartItemTotal(ci, Some(b)),
             CartBookView(ci.bookId, b.bookName, b.authorName, b.price, b.quantity, b.description, b.isApproved))
  }

  /** Each row next to its loaded book. */
  function CartLines(rows: seq<CartItem>, books: seq<Book>): (r: seq<CartLine>)
    requires RowsHaveBooks(books, rows)
    ensures |r| == |rows|
    ensures forall i :: 0 <= i < |rows| ==> r[i] == LineOf(rows[i], BookOf(books, rows[i].bookId))
  {
    seq(|rows|, i requires 0 <= i < |rows| => LineOf(rows[i], BookOf(books, rows[i].bookId)))
  }

  /** `DisplayCartItems` (Controllers/CartController.cs:45-74): the caller's rows in table order,
    * each with its book and its price times quantity; the count is the caller's cart size. */
  function DisplayCartItems(t: Tables, uid: int): (v: CartView)
    requires ValidTables(t)
    ensures v.cartId == 0
    ensures v.totalBooksInCart == |v.cartBooks| == CartSize(t, uid)
  {
    CartRowsHaveBooks(t, uid);
    var lines := CartLines(CartRows(t, uid), t.books);
    CartView(0, |lines|, lines)
  }

  /** Every listed line shows one of the caller's rows next to its current book. */
  lemma DisplayCartItemsShowsRow(t: Tables, uid: int, i: nat) returns (ci: CartItem, b: Book)
    requires ValidTables(t) && i < |DisplayCartItems(t, uid).cartBooks|
    ensures ci in t.cartItems && ci.userId == uid
    ensures b in t.books && b.bookId == ci.bookId
    ensures DisplayCartItems(t, uid).cartBooks[i] == LineOf(ci, b)
  {
    CartRowsHaveBooks(t, uid);
    var rows := CartRows(t, uid);
    assert DisplayCartItems(t, uid).cartBooks == CartLines(rows, t.books);
    ci := rows[i];
    assert ci in rows;
    b := BookOf(t.books, ci.bookId);
  }

  /** Every row of the caller's cart is listed. */
  lemma DisplayCartItemsListsRow(t: Tables, uid: int, ci: CartItem) returns (i: nat)
    requires ValidTables(t) && ci in t.cartItems && ci.userId == uid
    ensures i < |DisplayCartItems(t, uid).cartBooks|
    ensures DisplayCartItems(t, uid).cartBooks[i] == LineOf(ci, BookOf(t.books, ci.bookId))
  {
    CartRowsHaveBooks(t, uid);
    var rows := CartRows(t, uid);
    assert DisplayCartItems(t, uid).cartBooks == CartLines(rows, t.books);
    assert ci in rows;
    i :| 0 <= i < |rows| && rows[i] == ci;
  }

  // ---------------------------------------------------------------- PlaceOrder (guest cart merge)

  /**
   * One entry of the guest cart the client posts (Controllers/CartController.cs:197-218): only its
   * quantity and its book's id are read. `bookId` is `None` when the entry or its book is null.
   */
  datatype CartBookIn = CartBookIn(bookQuantity: Int32, bookId: Option<Int32>)

  predicate AllBooksGiven(items: seq<CartBookIn>) {
    forall i :: 0 <= i < |items| ==> items[i].bookId.Some?
  }

  /** The merge's decision for one entry: a book the stored cart already holds, or one that is
    * not available, is skipped; otherwise a row with the posted quantity is staged. */
  function SyncStep(cart: seq<CartItem>, books: seq<Book>, uid: nat, pending: seq<CartItem>,
                    next: nat, it: CartBookIn): (r: seq<CartItem>)
    requires it.bookId.Some?
  {
    var id := it.bookId.value;
    if InCart(cart, uid, id) || !Available(books, id) then pending
    else pending + [CartItem(next + |pending|, id, uid, it.bookQuantity)]
  }

  /** The rows the merge stages for `items`, keyed from `next` on. The "already in cart" test
    * reads the stored cart only, never the rows staged before. */
  function SyncRows(t: Tables, uid: nat, items: seq<CartBookIn>, next: nat): (rows: seq<CartItem>)
    requires AllBooksGiven(items)
    ensures |rows| <= |items|
    ensures forall j :: 0 <= j < |rows| ==> rows[j].cartItemId == next + j && rows[j].userId == uid
    decreases |items|
  {
    if items == [] then []
    else
      var pre := SyncRows(t, uid, items[..|items| - 1], next);
      SyncStep(t.cartItems, t.books, uid, pre, next, items[|items| - 1])
  }

  /** A staged row names a book that is available and not in the stored cart. */
  lemma {:induction false} SyncRowsFresh(t: Tables, uid: nat, items: seq<CartBookIn>, next: nat, j: nat)
    requires AllBooksGiven(items) && j < |SyncRows(t, uid, items, next)|
    ensures var row := SyncRows(t, uid, items, next)[j];
      !InCart(t.cartItems, uid, row.bookId) && Available(t.books, row.bookId)
    decreases |items|
  {
    var init := items[..|items| - 1];
    if j < |SyncRows(t, uid, init, next)| {
      SyncRowsFresh(t, uid, init, next, j);
    }
  }

  /** A full payload is merged: the staged rows are appended under the next keys. */
  lemma PlaceOrderMerged(t: Tables, uid: nat, items: seq<CartBookIn>)
    requires AllBooksGiven(items)
    ensures var rows := SyncRows(t, uid, items, t.nextCartItemId);
      var r := PlaceOrderSpec(t, uid, Some(items));
      r.status == Ok && r.tables.cartItems == t.cartItems + rows
      && r.tables == t.(cartItems := t.cartItems + rows, nextCartItemId := t.nextCartItemId + |rows|)
  {
  }

  /**
   * `PlaceOrder` (Controllers/CartController.cs:172-193): without a guest cart nothing changes.
   * An entry without a book throws before anything is saved (500). Otherwise the staged rows
   * are saved together and the caller's new cart size reported.
   */
  function PlaceOrderSpec(t: Tables, uid: nat, payload: Option<seq<CartBookIn>>): (r: CartReply)
    ensures r.status == ServerError <==> payload.Some? && !AllBooksGiven(payload.value)
    ensures r.status == ServerError || r.status == Ok
    ensures r.status == ServerError ==> r.tables == t && r.count == None
    ensures r.status == Ok ==> r.count == Some(CartSize(r.tables, uid))
    ensures payload.None? ==> r.tables == t
  {
    match payload
    case None => CartReply(Ok, t, Some(CartSize(t, uid)))
    case Some(items) =>
      if !AllBooksGiven(items) then CartReply(ServerError, t, None)
      else
        var rows := SyncRows(t, uid, items, t.nextCartItemId);
        var t' := t.(cartItems := t.cartItems + rows, nextCartItemId := t.nextCartItemId + |rows|);
        CartReply(Ok, t', Some(CartSize(t', uid)))
  }

  method PlaceOrder(ctx: AppDbContext, userId: nat, payload: Option<seq<CartBookIn>>)
    returns (status: Status, count: Option<nat>)
    requires ctx.Valid()
    modifies ctx
    ensures var r := PlaceOrderSpec(old(ctx.Snapshot()), userId, payload);
      status == r.status && count == r.count && ctx.Snapshot() == r.tables
    ensures ctx.Valid()
  {
    var t0 := ctx.Snapshot();
    var rows, books, next := ctx.cartItems, ctx.books, ctx.nextCartItemId;
    if payload.None? {
      return Ok, Some(Count(rows, CartOfUser(userId)));
    }
    var items := payload.value;
    var pending: seq<CartItem> := [];
    var i := 0;
    while i < |items|
      invariant 0 <= i <= |items|
      invariant AllBooksGiven(items[..i])
      invariant pending == SyncRows(t0, userId, items[..i], next)
      invariant ctx.Snapshot() == t0
    {
      if items[i].bookId.None? {
        assert !AllBooksGiven(items) by { assert !items[i].bookId.Some?; }
        return ServerError, None;
      }
      SyncRowsSnoc(t0, userId, items, next, i);
      pending := MergeOne(rows, books, userId, pending, next, items[i]);
      i := i + 1;
    }
    assert items[..|items|] == items;
    PlaceOrderValid(t0, userId, payload);
    var rows' := rows + pending;
    SetCart(ctx, rows', next + |pending|);
    return Ok, Some(Count(rows', CartOfUser(userId)));
  }

  /** The body of the merge loop (Controllers/CartController.cs:180-187). */
  method MergeOne(cart: seq<CartItem>, books: seq<Book>, uid: nat, pending: seq<CartItem>,
                  next: nat, it: CartBookIn) returns (r: seq<CartItem>)
    requires it.bookId.Some?
    ensures r == SyncStep(cart, books, uid, pending, next, it)
  {
    var bookId := it.bookId.value;
    var existing := FirstIndex(cart, PairOf(uid, bookId));
    if existing.Some? {
      return pending;
    }
    var k := FindBook(books, bookId);
    if k.Some? && books[k.value].isApproved && books[k.value].quantity > 0 {
      return pending + [CartItem(next + |pending|, bookId, uid, it.bookQuantity)];
    }
    return pending;
  }

  lemma SyncRowsSnoc(t: Tables, uid: nat, items: seq<CartBookIn>, next: nat, i: nat)
    requires i < |items| && AllBooksGiven(items[..i]) && items[i].bookId.Some?
    ensures AllBooksGiven(items[..i + 1])
    ensures SyncRows(t, uid, items[..i + 1], next)
         == SyncStep(t.cartItems, t.books, uid, SyncRows(t, uid, items[..i], next), next, items[i])
  {
    assert items[..i + 1][..i] == items[..i];
  }

  lemma PlaceOrderValid(t: Tables, uid: nat, payload: Option<seq<CartBookIn>>)
    requires ValidTables(t)
    ensures ValidTables(PlaceOrderSpec(t, uid, payload).tables)
  {
    if payload.Some? && AllBooksGiven(payload.value) {
      var rows := SyncRows(t, uid, payload.value, t.nextCartItemId);
      forall j | 0 <= j < |rows| ensures HasBook(t.books, rows[j].bookId) {
        SyncRowsFresh(t, uid, payload.value, t.nextCartItemId, j);
      }
      AppendCartRowsValid(t, rows);
      PlaceOrderMerged(t, uid, payload.value);
    }
  }

  /** Every staged row comes from an entry of the payload, with that entry's book and quantity. */
  lemma {:induction false} SyncRowsFromPayload(t: Tables, uid: nat, items: seq<CartBookIn>, next: nat, j: nat)
    returns (i: nat)
    requires AllBooksGiven(items) && j < |SyncRows(t, uid, items, next)|
    ensures i < |items|
    ensures var row := SyncRows(t, uid, items, next)[j];
      items[i].bookId.value == row.bookId && items[i].bookQuantity == row.quantity
    decreases |items|
  {
    var init := items[..|items| - 1];
    var pre := SyncRows(t, uid, init, next);
    if j < |pre| {
      i := SyncRowsFromPayload(t, uid, init, next, j);
    } else {
      i := |items| - 1;
    }
  }

  /** Every entry naming a book that is available and not yet in the stored cart is staged,
    * with the posted quantity. */
  lemma {:induction false} SyncRowsComplete(t: Tables, uid: nat, items: seq<CartBookIn>, next: nat, i: nat)
    returns (j: nat)
    requires AllBooksGiven(items) && i < |items|
    requires !InCart(t.cartItems, uid, items[i].bookId.value) && Available(t.books, items[i].bookId.value)
    ensures j < |SyncRows(t, uid, items, next)|
    ensures var row := SyncRows(t, uid, items, next)[j];
      row.bookId == items[i].bookId.value && row.quantity == items[i].bookQuantity
    decreases |items|
  {
    var init := items[..|items| - 1];
    var pre := SyncRows(t, uid, init, next);
    if i < |init| {
      j := SyncRowsComplete(t, uid, init, next, i);
    } else {
      j := |pre|;
    }
  }

  /** A merge only appends rows of the caller, under the next keys; the stored rows and the
    * other tables are untouched. */
  lemma PlaceOrderOnlyAddsCallersRows(t: Tables, uid: nat, items: seq<CartBookIn>)
    requires AllBooksGiven(items)
    ensures var r := PlaceOrderSpec(t, uid, Some(items));
      r.status == Ok
      && r.tables == t.(cartItems := r.tables.cartItems, nextCartItemId := r.tables.nextCartItemId)
      && t.cartItems <= r.tables.cartItems
      && r.tables.nextCartItemId == t.nextCartItemId + (|r.tables.cartItems| - |t.cartItems|)
      && (forall j :: |t.cartItems| <= j < |r.tables.cartItems| ==>
            r.tables.cartItems[j].userId == uid
            && r.tables.cartItems[j].cartItemId == t.nextCartItemId + (j - |t.cartItems|))
  {
    var rows := SyncRows(t, uid, items, t.nextCartItemId);
    var r := PlaceOrderSpec(t, uid, Some(items));
    assert r.tables.cartItems == t.cartItems + rows;
    forall j | |t.cartItems| <= j < |r.tables.cartItems|
      ensures r.tables.cartItems[j] == rows[j - |t.cartItems|]
    {
    }
  }

  lemma InCartAppend(a: seq<CartItem>, b: seq<CartItem>, uid: int, id: int)
    ensures InCart(a + b, uid, id) <==> InCart(a, uid, id) || InCart(b, uid, id)
  {
    var c := a + b;
    if InCart(a, uid, id) {
      var m :| 0 <= m < |a| && a[m].userId == uid && a[m].bookId == id;
      assert c[m] == a[m];
    }
    if InCart(c, uid, id) {
      var m :| 0 <= m < |c| && c[m].userId == uid && c[m].bookId == id;
      if m >= |a| { assert b[m - |a|] == c[m]; }
    }
    if InCart(b, uid, id) {
      var m :| 0 <= m < |b| && b[m].userId == uid && b[m].bookId == id;
      assert c[|a| + m] == b[m];
    }
  }

  /** After a merge the caller's cart holds a posted book exactly when it held it before or the
    * book is available. */
  lemma PlaceOrderHoldsAvailable(t: Tables, uid: nat, items: seq<CartBookIn>, i: nat)
    requires AllBooksGiven(items) && i < |items|
    ensures var id := items[i].bookId.value;
      InCart(PlaceOrderSpec(t, uid, Some(items)).tables.cartItems, uid, id)
      <==> InCart(t.cartItems, uid, id) || Available(t.books, id)
  {
    var id := items[i].bookId.value;
    var rows := SyncRows(t, uid, items, t.nextCartItemId);
    PlaceOrderMerged(t, uid, items);
    InCartAppend(t.cartItems, rows, uid, id);
    if !InCart(t.cartItems, uid, id) && Available(t.books, id) {
      var j := SyncRowsComplete(t, uid, items, t.nextCartItemId, i);
      assert rows[j].userId == uid && rows[j].bookId == id;
    }
    if InCart(rows, uid, id) {
      var m :| 0 <= m < |rows| && rows[m].userId == uid && rows[m].bookId == id;
      SyncRowsFresh(t, uid, items, t.nextCartItemId, m);
    }
  }

  /** The posted entries name pairwise different books. */
  predicate DistinctBooks(items: seq<CartBookIn>) {
    forall i, j :: 0 <= i < j < |items| ==> items[i].bookId != items[j].bookId
  }

  lemma {:induction false} SyncRowsDistinct(t: Tables, uid: nat, items: seq<CartBookIn>, next: nat)
    requires AllBooksGiven(items) && DistinctBooks(items)
    ensures var rows := SyncRows(t, uid, items, next);
      forall a, b :: 0 <= a < b < |rows| ==> rows[a].bookId != rows[b].bookId
    decreases |items|
  {
    if items != [] {
      var init := items[..|items| - 1];
      var pre := SyncRows(t, uid, init, next);
      SyncRowsDistinct(t, uid, init, next);
      var rows := SyncRows(t, uid, items, next);
      if |rows| > |pre| {
        forall a | 0 <= a < |pre| ensures pre[a].bookId != rows[|pre|].bookId {
          var i := SyncRowsFromPayload(t, uid, init, next, a);
          assert items[i] == init[i];
        }
      }
    }
  }

  /** With a payload that names each book once, the merge keeps the caller's cart free of
    * duplicates. */
  lemma PlaceOrderKeepsCartUnique(t: Tables, uid: nat, items: seq<CartBookIn>)
    requires CartUnique(t) && AllBooksGiven(items) && DistinctBooks(items)
    ensures CartUnique(PlaceOrderSpec(t, uid, Some(items)).tables)
  {
    var rows := SyncRows(t, uid, items, t.nextCartItemId);
    PlaceOrderMerged(t, uid, items);
    SyncRowsDistinct(t, uid, items, t.nextCartItemId);
    // a staged row shares its pair with no stored row and with no other staged row
    forall m, x | 0 <= m < |rows| && x in t.cartItems ensures CartPair(x) != CartPair(rows[m]) {
      SyncRowsFresh(t, uid, items, t.nextCartItemId, m);
      var a :| 0 <= a < |t.cartItems| && t.cartItems[a] == x;
    }
    UniqueAppend(t.cartItems, rows);
  }

  /** Appending rows whose pairs are new and pairwise different keeps pairs unique. */
  lemma UniqueAppend(s: seq<CartItem>, rows: seq<CartItem>)
    requires UniqueOn(s, CartPair)
    requires forall m, x :: 0 <= m < |rows| && x in s ==> CartPair(x) != CartPair(rows[m])
    requires forall a, b :: 0 <= a < b < |rows| ==> rows[a].bookId != rows[b].bookId
    requires forall a, b :: 0 <= a < b < |rows| ==> rows[a].userId == rows[b].userId
    ensures UniqueOn(s + rows, CartPair)
  {
    var c := s + rows;
    forall x, y | x in c && y in c && CartPair(x) == CartPair(y) ensures x == y {
      if x !in s || y !in s {
        var a :| 0 <= a < |c| && c[a] == x;
        var b :| 0 <= b < |c| && c[b] == y;
        if a >= |s| && b >= |s| {
          assert x == rows[a - |s|] && y == rows[b - |s|];
        } else if a >= |s| {
          assert x == rows[a - |s|] && y == s[b];
        }
      }
    }
  }

  // ---------------------------------------------------------------- what the merge lets through

  /** One approved book in stock (book 1, five copies) and an empty cart. */
  function MergeFixture(): Tables {
    EmptyTables().(books := [Book(1, "b", "a", 1.0, 5, "d", true, false, 0, 7)], nextBookId := 2)
  }

  lemma MergeFixtureFacts()
    ensures ValidTables(MergeFixture()) && CartUnique(MergeFixture())
    ensures Available(MergeFixture().books, 1) && !InCart(MergeFixture().cartItems, 9, 1)
  {
    var t := MergeFixture();
    assert t.books[0] in t.books;
    FindBookExact(t.books, 1, 0);
  }

  /** The merge of one entry for book 1 on the fixture stages one row with the posted quantity. */
  lemma MergeFixtureOne(e: CartBookIn)
    requires e.bookId == Some(1)
    ensures SyncRows(MergeFixture(), 9, [e], 1) == [CartItem(1, 1, 9, e.bookQuantity)]
  {
    MergeFixtureFacts();
    assert [e][..0] == [];
  }

  /** A merge that succeeds on a consistent, duplicate-free cart and leaves two rows for one
    * user and book. */
  predicate MergeDuplicates(t: Tables, uid: nat, items: seq<CartBookIn>) {
    ValidTables(t) && CartUnique(t) && AllBooksGiven(items)
    && PlaceOrderSpec(t, uid, Some(items)).status == Ok
    && !CartUnique(PlaceOrderSpec(t, uid, Some(items)).tables)
  }

  /** The merge of `items` on the fixture: every entry is for book 1. */
  lemma MergeFixtureRows(e: CartBookIn, items: seq<CartBookIn>, rows: seq<CartItem>)
    requires e.bookId == Some(1)
    requires (items == [e] && rows == [CartItem(1, 1, 9, e.bookQuantity)])
          || (items == [e, e] && rows == [CartItem(1, 1, 9, e.bookQuantity), CartItem(2, 1, 9, e.bookQuantity)])
    ensures AllBooksGiven(items)
    ensures PlaceOrderSpec(MergeFixture(), 9, Some(items)).status == Ok
    ensures PlaceOrderSpec(MergeFixture(), 9, Some(items)).tables.cartItems == rows
  {
    MergeFixtureOne(e);
    if |items| == 2 {
      assert items[..1] == [e];
      MergeFixtureFacts();
    }
    PlaceOrderMerged(MergeFixture(), 9, items);
  }

  /**
   * The "already in cart" test reads the stored cart only, so a guest cart that lists a book
   * twice leaves the caller with two rows for it, which no other handler lets happen.
   */
  lemma PlaceOrderDuplicateLoophole()
    ensures exists t, uid, items :: MergeDuplicates(t, uid, items)
  {
    var e := CartBookIn(1, Some(1));
    var c := [CartItem(1, 1, 9, 1), CartItem(2, 1, 9, 1)];
    MergeFixtureRows(e, [e, e], c);
    MergeFixtureFacts();
    assert !UniqueOn(c, CartPair) by {
      assert c[0] in c && c[1] in c && CartPair(c[0]) == CartPair(c[1]) && c[0] != c[1];
    }
    assert !CartUnique(PlaceOrderSpec(MergeFixture(), 9, Some([e, e])).tables);
    assert MergeDuplicates(MergeFixture(), 9, [e, e]);
  }

  /** A merge that succeeds and leaves a row whose quantity is negative, outside the declared
    * range of a cart quantity. */
  predicate MergeStoresNegative(t: Tables, uid: nat, items: seq<CartBookIn>) {
    ValidTables(t) && AllBooksGiven(items)
    && PlaceOrderSpec(t, uid, Some(items)).status == Ok
    && exists k :: 0 <= k < |PlaceOrderSpec(t, uid, Some(items)).tables.cartItems|
         && PlaceOrderSpec(t, uid, Some(items)).tables.cartItems[k].quantity < 0
  }

  /** The posted quantity is stored unchecked. */
  lemma PlaceOrderStoresNegativeQuantity()
    ensures exists t, uid, items :: MergeStoresNegative(t, uid, items)
    ensures !InCartRange(-5)
  {
    var e := CartBookIn(-5, Some(1));
    MergeFixtureRows(e, [e], [CartItem(1, 1, 9, -5)]);
    MergeFixtureFacts();
    assert MergeStoresNegative(MergeFixture(), 9, [e]);
  }
}
