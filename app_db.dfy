/**
 * The database context (AppDbContext.cs): the eight tables, their auto-increment keys, the
 * relationships between them, the unique index on wish-list rows and the cascade-delete rules.
 *
 * A table is a sequence of rows in primary-key order. Every insert takes the table's next
 * key value, so keys strictly ascend in table order and stay below that next value.
 */
module AppDb {
  import opened Wrappers
  import opened Linq
  import opened Models

  datatype Tables = Tables(
    users: seq<User>,
    books: seq<Book>,
    cartItems: seq<CartItem>,
    wishLists: seq<WishList>,
    orders: seq<Order>,
    orderItems: seq<OrderItem>,
    addresses: seq<Address>,
    reviews: seq<Review>,
    nextUserId: nat,
    nextBookId: nat,
    nextCartItemId: nat,
    nextWishListId: nat,
    nextOrderId: nat,
    nextOrderItemId: nat,
    nextAddressId: nat,
    nextReviewId: nat)

  function EmptyTables(): Tables {
    Tables([], [], [], [], [], [], [], [], 1, 1, 1, 1, 1, 1, 1, 1)
  }

  // ---------------------------------------------------------------- primary keys

  function UserKey(u: User): int { u.id }
  function BookKey(b: Book): int { b.bookId }
  function CartItemKey(ci: CartItem): int { ci.cartItemId }
  function WishListKey(w: WishList): int { w.wishListId }
  function OrderKey(o: Order): int { o.orderId }
  function OrderItemKey(oi: OrderItem): int { oi.orderItemId }
  function AddressKey(a: Address): int { a.addressId }
  function ReviewKey(r: Review): int { r.reviewId }

  /** An identity column: keys ascend in table order and stay below the next value. */
  predicate KeysBelow<T>(rows: seq<T>, key: T -> int, next: nat) {
    StrictlyAscending(rows, key) && forall i :: 0 <= i < |rows| ==> key(rows[i]) < next
  }

  lemma AppendKeyed<T>(rows: seq<T>, key: T -> int, next: nat, x: T)
    requires KeysBelow(rows, key, next) && key(x) == next
    ensures KeysBelow(rows + [x], key, next + 1)
  {
  }

  lemma UpdateKeyed<T>(rows: seq<T>, key: T -> int, next: nat, k: nat, x: T)
    requires KeysBelow(rows, key, next) && k < |rows| && key(x) == key(rows[k])
    ensures KeysBelow(rows[k := x], key, next)
  {
  }

  lemma RemoveKeyed<T>(rows: seq<T>, key: T -> int, next: nat, k: nat)
    requires KeysBelow(rows, key, next) && k < |rows|
    ensures KeysBelow(RemoveAt(rows, k), key, next)
  {
  }

  lemma WhereKeyed<T>(rows: seq<T>, key: T -> int, next: nat, p: T -> bool)
    requires KeysBelow(rows, key, next)
    ensures KeysBelow(Where(rows, p), key, next)
  {
    WhereAscending(rows, p, key);
    var r := Where(rows, p);
    forall i | 0 <= i < |r| ensures key(r[i]) < next {
      assert r[i] in rows;
    }
  }

  predicate PrimaryKeysHold(t: Tables) {
    KeysBelow(t.users, UserKey, t.nextUserId)
    && KeysBelow(t.books, BookKey, t.nextBookId)
    && KeysBelow(t.cartItems, CartItemKey, t.nextCartItemId)
    && KeysBelow(t.wishLists, WishListKey, t.nextWishListId)
    && KeysBelow(t.orders, OrderKey, t.nextOrderId)
    && KeysBelow(t.orderItems, OrderItemKey, t.nextOrderItemId)
    && KeysBelow(t.addresses, AddressKey, t.nextAddressId)
    && KeysBelow(t.reviews, ReviewKey, t.nextReviewId)
  }

  // ---------------------------------------------------------------- relationships

  predicate HasBook(books: seq<Book>, id: int) {
    exists b :: b in books && b.bookId == id
  }

  predicate HasOrder(orders: seq<Order>, id: int) {
    exists o :: o in orders && o.orderId == id
  }

  predicate HasAddress(addresses: seq<Address>, id: int) {
    exists a :: a in addresses && a.addressId == id
  }

  /**
   * The foreign keys that point at books, orders and addresses: cart rows, wish-list rows and
   * reviews at a book (AppDbContext.cs:34-38, 45-49, 71-75), line items at a book and at their
   * order (AppDbContext.cs:56-59, Models/Book.cs:39), and an order at its address
   * when it has one (AppDbContext.cs:66-69).
   */
  predicate ForeignKeysHold(t: Tables) {
    (forall ci :: ci in t.cartItems ==> HasBook(t.books, ci.bookId))
    && (forall w :: w in t.wishLists ==> HasBook(t.books, w.bookId))
    && (forall r :: r in t.reviews ==> HasBook(t.books, r.bookId))
    && (forall oi :: oi in t.orderItems ==> HasBook(t.books, oi.bookId) && HasOrder(t.orders, oi.orderId))
    && (forall o :: o in t.orders && o.addressId.Some? ==> HasAddress(t.addresses, o.addressId.value))
  }

  // ---------------------------------------------------------------- uniqueness

  function WishListPair(w: WishList): (nat, nat) { (w.userId, w.bookId) }
  function CartPair(ci: CartItem): (nat, nat) { (ci.userId, ci.bookId) }
  function ReviewPair(r: Review): (nat, nat) { (r.userId, r.bookId) }
  function AddressSlot(a: Address): (nat, string) { (a.userId, a.addressType) }
  function UserEmail(u: User): string { u.email }
  function UserName(u: User): string { u.userName }

  /** The one unique index of the schema: a user lists a book at most once (AppDbContext.cs:23-25). */
  predicate WishListIndexHolds(t: Tables) {
    UniqueOn(t.wishLists, WishListPair)
  }

  /** What the database itself enforces. */
  predicate ValidTables(t: Tables) {
    PrimaryKeysHold(t) && ForeignKeysHold(t) && WishListIndexHolds(t)
  }

  /** Uniqueness that only the handlers' own checks keep; the schema has no index for it. */
  predicate CartUnique(t: Tables) { UniqueOn(t.cartItems, CartPair) }
  predicate ReviewsUnique(t: Tables) { UniqueOn(t.reviews, ReviewPair) }
  predicate AddressesUnique(t: Tables) { UniqueOn(t.addresses, AddressSlot) }
  predicate AccountsUnique(t: Tables) { UniqueOn(t.users, UserEmail) && UniqueOn(t.users, UserName) }

  lemma EmptyTablesValid()
    ensures ValidTables(EmptyTables())
    ensures CartUnique(EmptyTables()) && ReviewsUnique(EmptyTables())
    ensures AddressesUnique(EmptyTables()) && AccountsUnique(EmptyTables())
  {
  }

  /** The schema admits two cart rows and two reviews for the same user and book
    * (AppDbContext.cs:19-81 declare no index on either). */
  lemma SchemaAdmitsDuplicateCartRowsAndReviews()
    ensures exists t :: ValidTables(t) && !CartUnique(t) && !ReviewsUnique(t)
  {
    var b := Book(1, "b", "a", 1.0, 5, "d", true, false, 0, 7);
    var c1, c2 := CartItem(1, 1, 9, 1), CartItem(2, 1, 9, 1);
    var r1, r2 := Review(1, 1, 9, "x", 5, 0), Review(2, 1, 9, "y", 4, 0);
    var t := EmptyTables().(books := [b], cartItems := [c1, c2], reviews := [r1, r2],
                            nextBookId := 2, nextCartItemId := 3, nextReviewId := 3);
    assert b in t.books;
    assert HasBook(t.books, 1);
    assert c1 in t.cartItems && c2 in t.cartItems && CartPair(c1) == CartPair(c2);
    assert r1 in t.reviews && r2 in t.reviews && ReviewPair(r1) == ReviewPair(r2);
    assert ValidTables(t);
  }

  // ---------------------------------------------------------------- a user's cart

  function CartOfUser(uid: int): CartItem -> bool { (ci: CartItem) => ci.userId == uid }
  function CartNotOfUser(uid: int): CartItem -> bool { (ci: CartItem) => ci.userId != uid }

  /** A user's cart rows, in table order. */
  function CartRows(t: Tables, uid: int): (rows: seq<CartItem>)
    ensures forall ci :: ci in rows ==> ci in t.cartItems && ci.userId == uid
    ensures forall ci :: ci in t.cartItems && ci.userId == uid ==> ci in rows
  {
    Where(t.cartItems, CartOfUser(uid))
  }

  // ---------------------------------------------------------------- lookups

  function BookWithId(id: int): Book -> bool { (b: Book) => b.bookId == id }

  /** `Books.Find(id)`: the position of the book with that key. */
  function FindBook(books: seq<Book>, id: int): (r: Option<nat>)
    ensures r.Some? <==> HasBook(books, id)
    ensures r.Some? ==> r.value < |books| && books[r.value].bookId == id
  {
    var r := FirstIndex(books, BookWithId(id));
    if r.None? then
      assert !HasBook(books, id) by {
        forall b | b in books ensures b.bookId != id {
          var k :| 0 <= k < |books| && books[k] == b;
          assert !BookWithId(id)(books[k]);
        }
      }
      r
    else
      assert books[r.value] in books;
      r
  }

  /** With ascending keys, the book found is the one row carrying that key. */
  lemma FindBookExact(books: seq<Book>, id: int, k: nat)
    requires StrictlyAscending(books, BookKey)
    requires k < |books| && books[k].bookId == id
    ensures FindBook(books, id) == Some(k)
  {
    var r := FindBook(books, id);
    assert r.Some?;
  }

  /** The loaded book of a row (`ci.Book`). */
  function BookOf(books: seq<Book>, id: int): (b: Book)
    requires HasBook(books, id)
    ensures b in books && b.bookId == id
  {
    books[FindBook(books, id).value]
  }

  /** Every row names a book present in `books`. */
  predicate RowsHaveBooks(books: seq<Book>, rows: seq<CartItem>) {
    forall i :: 0 <= i < |rows| ==> HasBook(books, rows[i].bookId)
  }

  lemma CartRowsHaveBooks(t: Tables, uid: int)
    requires ValidTables(t)
    ensures forall ci :: ci in CartRows(t, uid) ==> HasBook(t.books, ci.bookId)
    ensures RowsHaveBooks(t.books, CartRows(t, uid))
  {
    var rows := CartRows(t, uid);
    forall i | 0 <= i < |rows| ensures HasBook(t.books, rows[i].bookId) {
      assert rows[i] in rows;
    }
  }

  // ---------------------------------------------------------------- the context

  class AppDbContext {
    var users: seq<User>
    var books: seq<Book>
    var cartItems: seq<CartItem>
    var wishLists: seq<WishList>
    var orders: seq<Order>
    var orderItems: seq<OrderItem>
    var addresses: seq<Address>
    var reviews: seq<Review>
    var nextUserId: nat
    var nextBookId: nat
    var nextCartItemId: nat
    var nextWishListId: nat
    var nextOrderId: nat
    var nextOrderItemId: nat
    var nextAddressId: nat
    var nextReviewId: nat

    /** A fresh, empty database. */
    constructor ()
      ensures Snapshot() == EmptyTables()
      ensures Valid()
    {
      users, books, cartItems, wishLists := [], [], [], [];
      orders, orderItems, addresses, reviews := [], [], [], [];
      nextUserId, nextBookId, nextCartItemId, nextWishListId := 1, 1, 1, 1;
      nextOrderId, nextOrderItemId, nextAddressId, nextReviewId := 1, 1, 1, 1;
      EmptyTablesValid();
    }

    /** The committed contents of every table. */
    function Snapshot(): Tables
      reads this
    {
      Tables(users, books, cartItems, wishLists, orders, orderItems, addresses, reviews,
             nextUserId, nextBookId, nextCartItemId, nextWishListId,
             nextOrderId, nextOrderItemId, nextAddressId, nextReviewId)
    }

    ghost predicate Valid()
      reads this
    {
      ValidTables(Snapshot())
    }
  }

  // ---------------------------------------------------------------- cascade deletes

  function BookNotWithId(id: int): Book -> bool { (b: Book) => b.bookId != id }
  function CartNotForBook(id: int): CartItem -> bool { (ci: CartItem) => ci.bookId != id }
  function WishNotForBook(id: int): WishList -> bool { (w: WishList) => w.bookId != id }
  function ReviewNotForBook(id: int): Review -> bool { (r: Review) => r.bookId != id }
  function ItemNotForBook(id: int): OrderItem -> bool { (oi: OrderItem) => oi.bookId != id }

  /**
   * Deleting book `id`: its cart rows, wish-list rows and reviews go with it
   * (AppDbContext.cs:34-38, 45-49, 71-75), and so do the line items naming it, since the
   * `Book.OrderItems` navigation (Models/Book.cs:39) makes `OrderItem.BookId` a required key,
   * which cascades by convention; nothing else changes.
   */
  function DeleteBookCascade(t: Tables, id: int): (r: Tables)
    ensures forall b :: b in r.books ==> b in t.books && b.bookId != id
    ensures forall b :: b in t.books && b.bookId != id ==> b in r.books
    ensures forall ci :: ci in r.cartItems ==> ci in t.cartItems && ci.bookId != id
    ensures forall ci :: ci in t.cartItems && ci.bookId != id ==> ci in r.cartItems
    ensures forall w :: w in r.wishLists ==> w in t.wishLists && w.bookId != id
    ensures forall w :: w in t.wishLists && w.bookId != id ==> w in r.wishLists
    ensures forall v :: v in r.reviews ==> v in t.reviews && v.bookId != id
    ensures forall v :: v in t.reviews && v.bookId != id ==> v in r.reviews
    ensures forall oi :: oi in r.orderItems ==> oi in t.orderItems && oi.bookId != id
    ensures forall oi :: oi in t.orderItems && oi.bookId != id ==> oi in r.orderItems
    ensures r == t.(books := r.books, cartItems := r.cartItems, wishLists := r.wishLists,
                    reviews := r.reviews, orderItems := r.orderItems)
  {
    t.(books := Where(t.books, BookNotWithId(id)),
       cartItems := Where(t.cartItems, CartNotForBook(id)),
       wishLists := Where(t.wishLists, WishNotForBook(id)),
       reviews := Where(t.reviews, ReviewNotForBook(id)),
       orderItems := Where(t.orderItems, ItemNotForBook(id)))
  }

  /** The cascade leaves a consistent database without the book. */
  lemma DeleteBookCascadeValid(t: Tables, id: int)
    requires ValidTables(t)
    ensures ValidTables(DeleteBookCascade(t, id))
    ensures !HasBook(DeleteBookCascade(t, id).books, id)
  {
    var r := DeleteBookCascade(t, id);
    WhereKeyed(t.books, BookKey, t.nextBookId, BookNotWithId(id));
    WhereKeyed(t.cartItems, CartItemKey, t.nextCartItemId, CartNotForBook(id));
    WhereKeyed(t.wishLists, WishListKey, t.nextWishListId, WishNotForBook(id));
    WhereKeyed(t.reviews, ReviewKey, t.nextReviewId, ReviewNotForBook(id));
    WhereKeyed(t.orderItems, OrderItemKey, t.nextOrderItemId, ItemNotForBook(id));
    forall bid | HasBook(t.books, bid) && bid != id ensures HasBook(r.books, bid) {
      var b :| b in t.books && b.bookId == bid;
      assert b in r.books;
    }
  }

  /** When no line item names the book, the cascade keeps every line item. */
  lemma DeleteUnorderedBookKeepsItems(t: Tables, id: int)
    requires forall i :: 0 <= i < |t.orderItems| ==> t.orderItems[i].bookId != id
    ensures DeleteBookCascade(t, id).orderItems == t.orderItems
  {
    WhereAll(t.orderItems, ItemNotForBook(id));
  }

  /** Book `bookId` exists and belongs to seller `uid`. */
  predicate SoldBy(books: seq<Book>, bookId: int, uid: int) {
    exists b :: b in books && b.bookId == bookId && b.sellerId == uid
  }

  /** Order `orderId` exists and was placed by user `uid`. */
  predicate PlacedBy(orders: seq<Order>, orderId: int, uid: int) {
    exists o :: o in orders && o.orderId == orderId && o.userId == uid
  }

  function UserNotWithId(uid: int): User -> bool { (u: User) => u.id != uid }
  function NotSoldBy(uid: int): Book -> bool { (b: Book) => b.sellerId != uid }
  function CartOutsideUser(books: seq<Book>, uid: int): CartItem -> bool {
    (ci: CartItem) => ci.userId != uid && !SoldBy(books, ci.bookId, uid)
  }
  function WishOutsideUser(books: seq<Book>, uid: int): WishList -> bool {
    (w: WishList) => w.userId != uid && !SoldBy(books, w.bookId, uid)
  }
  function ReviewOutsideUser(books: seq<Book>, uid: int): Review -> bool {
    (v: Review) => v.userId != uid && !SoldBy(books, v.bookId, uid)
  }
  function OrderNotPlacedBy(uid: int): Order -> bool { (o: Order) => o.userId != uid }
  function ItemOutsideUser(t: Tables, uid: int): OrderItem -> bool {
    (oi: OrderItem) => !PlacedBy(t.orders, oi.orderId, uid) && !SoldBy(t.books, oi.bookId, uid)
  }

  /**
   * Deleting user `uid`. The context declares cascades for the user's books, cart rows,
   * wish-list rows and reviews (AppDbContext.cs:28-32, 39-43, 50-54, 76-80), and the rows that
   * hung on the deleted books go with them. Three relationships declare no delete behaviour but
   * have a non-nullable key, so they cascade by convention: the user's orders
   * (AppDbContext.cs:62-65), the line items of those orders (AppDbContext.cs:56-59), and the
   * line items naming a deleted book (Models/Book.cs:39). Addresses stay, as the list of
   * omissions records.
   */
  function DeleteUserCascade(t: Tables, uid: int): (r: Tables)
    ensures forall u :: u in r.users ==> u in t.users && u.id != uid
    ensures forall u :: u in t.users && u.id != uid ==> u in r.users
    ensures forall b :: b in r.books ==> b in t.books && b.sellerId != uid
    ensures forall b :: b in t.books && b.sellerId != uid ==> b in r.books
    ensures forall ci :: ci in r.cartItems ==> ci in t.cartItems && ci.userId != uid && !SoldBy(t.books, ci.bookId, uid)
    ensures forall ci :: ci in t.cartItems && ci.userId != uid && !SoldBy(t.books, ci.bookId, uid) ==> ci in r.cartItems
    ensures forall w :: w in r.wishLists ==> w in t.wishLists && w.userId != uid && !SoldBy(t.books, w.bookId, uid)
    ensures forall w :: w in t.wishLists && w.userId != uid && !SoldBy(t.books, w.bookId, uid) ==> w in r.wishLists
    ensures forall v :: v in r.reviews ==> v in t.reviews && v.userId != uid && !SoldBy(t.books, v.bookId, uid)
    ensures forall v :: v in t.reviews && v.userId != uid && !SoldBy(t.books, v.bookId, uid) ==> v in r.reviews
    ensures forall o :: o in r.orders ==> o in t.orders && o.userId != uid
    ensures forall o :: o in t.orders && o.userId != uid ==> o in r.orders
    ensures forall oi :: oi in r.orderItems ==>
      oi in t.orderItems && !PlacedBy(t.orders, oi.orderId, uid) && !SoldBy(t.books, oi.bookId, uid)
    ensures forall oi :: oi in t.orderItems && !PlacedBy(t.orders, oi.orderId, uid) && !SoldBy(t.books, oi.bookId, uid) ==>
      oi in r.orderItems
    ensures r == t.(users := r.users, books := r.books, cartItems := r.cartItems,
                    wishLists := r.wishLists, reviews := r.reviews,
                    orders := r.orders, orderItems := r.orderItems)
  {
    t.(users := Where(t.users, UserNotWithId(uid)),
       books := Where(t.books, NotSoldBy(uid)),
       cartItems := Where(t.cartItems, CartOutsideUser(t.books, uid)),
       wishLists := Where(t.wishLists, WishOutsideUser(t.books, uid)),
       reviews := Where(t.reviews, ReviewOutsideUser(t.books, uid)),
       orders := Where(t.orders, OrderNotPlacedBy(uid)),
       orderItems := Where(t.orderItems, ItemOutsideUser(t, uid)))
  }

  /** After deleting a user every remaining row still points at a remaining row: cart rows,
    * wish-list rows, reviews and line items at a book, line items at their order, and orders
    * at their address. */
  lemma DeleteUserKeepsBookReferences(t: Tables, uid: int)
    requires ForeignKeysHold(t)
    ensures var r := DeleteUserCascade(t, uid);
      (forall ci :: ci in r.cartItems ==> HasBook(r.books, ci.bookId))
      && (forall w :: w in r.wishLists ==> HasBook(r.books, w.bookId))
      && (forall v :: v in r.reviews ==> HasBook(r.books, v.bookId))
      && (forall oi :: oi in r.orderItems ==> HasBook(r.books, oi.bookId) && HasOrder(r.orders, oi.orderId))
    ensures ForeignKeysHold(DeleteUserCascade(t, uid))
  {
    var r := DeleteUserCascade(t, uid);
    forall bid | HasBook(t.books, bid) && !SoldBy(t.books, bid, uid) ensures HasBook(r.books, bid) {
      var b :| b in t.books && b.bookId == bid;
      assert b.sellerId != uid;
      assert b in r.books;
    }
    forall oid | HasOrder(t.orders, oid) && !PlacedBy(t.orders, oid, uid) ensures HasOrder(r.orders, oid) {
      var o :| o in t.orders && o.orderId == oid;
      assert o.userId != uid;
      assert o in r.orders;
    }
  }

  /** Deleting a user leaves a consistent database. */
  lemma DeleteUserCascadeValid(t: Tables, uid: int)
    requires ValidTables(t)
    ensures ValidTables(DeleteUserCascade(t, uid))
  {
    WhereKeyed(t.users, UserKey, t.nextUserId, UserNotWithId(uid));
    WhereKeyed(t.books, BookKey, t.nextBookId, NotSoldBy(uid));
    WhereKeyed(t.cartItems, CartItemKey, t.nextCartItemId, CartOutsideUser(t.books, uid));
    WhereKeyed(t.wishLists, WishListKey, t.nextWishListId, WishOutsideUser(t.books, uid));
    WhereKeyed(t.reviews, ReviewKey, t.nextReviewId, ReviewOutsideUser(t.books, uid));
    WhereKeyed(t.orders, OrderKey, t.nextOrderId, OrderNotPlacedBy(uid));
    WhereKeyed(t.orderItems, OrderItemKey, t.nextOrderItemId, ItemOutsideUser(t, uid));
    DeleteUserKeepsBookReferences(t, uid);
  }
}
