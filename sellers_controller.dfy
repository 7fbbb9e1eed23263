/**
 * The vendor's side of the catalogue (Controllers/SellersController.cs): adding, editing,
 * removing and submitting books, and the vendor's own listings.
 *
 * Adding, editing, submitting and the admin's verdict (in AdminController) together move a
 * book between the four phases its flags `isApproved` and `isApprovalSent` encode.
 */
module SellersController {
  import opened Wrappers
  import opened Linq
  import opened Strings
  import opened Http
  import opened Models
  import opened AppDb

  datatype SellerReply = SellerReply(status: Status, tables: Tables)

  function OwnedBook(bookId: int, uid: int): Book -> bool {
    (b: Book) => b.bookId == bookId && b.sellerId == uid
  }

  function SellerOf(uid: int): Book -> bool {
    (b: Book) => b.sellerId == uid
  }

  /** Book `k` is the caller's, so the handlers' lookup by (id, seller) finds exactly it. */
  lemma OwnedIndex(t: Tables, uid: int, k: nat)
    requires ValidTables(t) && k < |t.books| && t.books[k].sellerId == uid
    ensures FirstIndex(t.books, OwnedBook(t.books[k].bookId, uid)) == Some(k)
  {
    var r := FirstIndex(t.books, OwnedBook(t.books[k].bookId, uid));
    assert OwnedBook(t.books[k].bookId, uid)(t.books[k]);
    assert BookKey(t.books[r.value]) == BookKey(t.books[k]);
  }

  /** The lookup fails exactly when the caller owns no book with that id. */
  lemma OwnedLookup(t: Tables, uid: int, bookId: int)
    ensures FirstIndex(t.books, OwnedBook(bookId, uid)).None? <==> !SoldBy(t.books, bookId, uid)
  {
    if SoldBy(t.books, bookId, uid) {
      var b :| b in t.books && b.bookId == bookId && b.sellerId == uid;
      var k :| 0 <= k < |t.books| && t.books[k] == b;
      assert OwnedBook(bookId, uid)(t.books[k]);
    }
    var r := FirstIndex(t.books, OwnedBook(bookId, uid));
    if r.Some? {
      assert t.books[r.value] in t.books;
    }
  }

  /** The caller's books, in table order. */
  function SellerBooks(t: Tables, uid: int): (r: seq<Book>)
    ensures forall b :: b in r <==> b in t.books && b.sellerId == uid
  {
    Where(t.books, SellerOf(uid))
  }

  /** `GetBooksCount` (Controllers/SellersController.cs:127-132), also the count `AddBook` reports. */
  function GetBooksCount(t: Tables, uid: int): (n: nat)
    ensures n <= |t.books|
    ensures n == 0 <==> forall b :: b in t.books ==> b.sellerId != uid
  {
    var mine := SellerBooks(t, uid);
    if mine != [] then
      assert mine[0] in mine;
      Count(t.books, SellerOf(uid))
    else
      Count(t.books, SellerOf(uid))
  }

  /** `SaveChanges` on the book table. */
  method SetBooks(ctx: AppDbContext, books: seq<Book>, next: nat)
    modifies ctx
    ensures ctx.Snapshot() == old(ctx.Snapshot()).(books := books, nextBookId := next)
  {
    ctx.books, ctx.nextBookId := books, next;
  }

  /** Rewriting book `k` under its own key keeps the database consistent. */
  lemma ReplaceBookValid(t: Tables, k: nat, b: Book)
    requires ValidTables(t) && k < |t.books| && b.bookId == t.books[k].bookId
    ensures ValidTables(t.(books := t.books[k := b]))
  {
    UpdateKeyed(t.books, BookKey, t.nextBookId, k, b);
    var t' := t.(books := t.books[k := b]);
    forall id | HasBook(t.books, id) ensures HasBook(t'.books, id) {
      var x :| x in t.books && x.bookId == id;
      var j :| 0 <= j < |t.books| && t.books[j] == x;
      assert t'.books[j].bookId == id;
    }
  }

  // ---------------------------------------------------------------- AddBook

  datatype AddedBook = AddedBook(tables: Tables, booksCount: nat, bookId: nat)

  /** `AddBook` (Controllers/SellersController.cs:19-41): the body's fields become a new book of
    * the caller, unapproved and not submitted; answers 201 with the caller's book count and the
    * new id. */
  function AddBookSpec(t: Tables, uid: nat, d: BookInput): (r: AddedBook)
    ensures r.bookId == t.nextBookId
    ensures r.booksCount == GetBooksCount(r.tables, uid)
    ensures |r.tables.books| == |t.books| + 1 && r.tables.books[..|t.books|] == t.books
  {
    var t' := t.(books := t.books + [NewBook(t.nextBookId, d, uid)], nextBookId := t.nextBookId + 1);
    AddedBook(t', GetBooksCount(t', uid), t.nextBookId)
  }

  method AddBook(ctx: AppDbContext, vendorId: nat, d: BookInput) returns (status: Status, count: nat, bookId: nat)
    requires ctx.Valid()
    modifies ctx
    ensures var r := AddBookSpec(old(ctx.Snapshot()), vendorId, d);
      status == Created && count == r.booksCount && bookId == r.bookId && ctx.Snapshot() == r.tables
    ensures ctx.Valid()
  {
    var t0 := ctx.Snapshot();
    var books, next := ctx.books, ctx.nextBookId;
    AddBookValid(t0, vendorId, d);
    var books' := books + [NewBook(next, d, vendorId)];
    SetBooks(ctx, books', next + 1);
    return Created, Count(books', SellerOf(vendorId)), next;
  }

  lemma AddBookValid(t: Tables, uid: nat, d: BookInput)
    requires ValidTables(t)
    ensures ValidTables(AddBookSpec(t, uid, d).tables)
  {
    var t' := AddBookSpec(t, uid, d).tables;
    AppendKeyed(t.books, BookKey, t.nextBookId, NewBook(t.nextBookId, d, uid));
    forall id | HasBook(t.books, id) ensures HasBook(t'.books, id) {
      var x :| x in t.books && x.bookId == id;
      assert x in t'.books;
    }
  }

  /** The new book is the caller's, carries the body's fields, starts as a draft that was never
    * rejected, and is the only change. */
  lemma AddBookCreatesDraft(t: Tables, uid: nat, d: BookInput)
    ensures var r := AddBookSpec(t, uid, d);
      var b := r.tables.books[|t.books|];
      r.tables == t.(books := t.books + [b], nextBookId := t.nextBookId + 1)
      && b.bookId == t.nextBookId && b.sellerId == uid
      && b.bookName == d.bookName && b.authorName == d.authorName && b.price == d.price
      && b.quantity == d.quantity && b.description == d.description
      && PhaseOf(b) == Draft && b.rejectionCount == 0
  {
  }

  /** The count `AddBook` reports is the caller's count before, plus one. */
  lemma AddBookCountGrows(t: Tables, uid: nat, d: BookInput)
    ensures AddBookSpec(t, uid, d).booksCount == GetBooksCount(t, uid) + 1
  {
    var b := NewBook(t.nextBookId, d, uid);
    WhereAppend(t.books, [b], SellerOf(uid));
    assert Where([b], SellerOf(uid)) == [b];
  }

  // ---------------------------------------------------------------- UpdateBook

  /** The edit applied to a book: the five fields overwritten, and an approved book sent back to
    * draft with its rejection count cleared. */
  function Edited(b: Book, d: BookInput): Book {
    var e := b.(bookName := d.bookName, authorName := d.authorName, price := d.price,
                quantity := d.quantity, description := d.description);
    if b.isApproved then e.(isApproved := false, isApprovalSent := false, rejectionCount := 0) else e
  }

  /** `UpdateBook` (Controllers/SellersController.cs:45-65): 404 unless the caller owns the book. */
  function UpdateBookSpec(t: Tables, uid: nat, bookId: int, d: BookInput): (r: SellerReply)
    ensures r.status == NotFound <==> !SoldBy(t.books, bookId, uid)
    ensures r.status == NotFound || r.status == Ok
    ensures r.status == NotFound ==> r.tables == t
  {
    OwnedLookup(t, uid, bookId);
    match FirstIndex(t.books, OwnedBook(bookId, uid))
    case None => SellerReply(NotFound, t)
    case Some(k) => SellerReply(Ok, t.(books := t.books[k := Edited(t.books[k], d)]))
  }

  method UpdateBook(ctx: AppDbContext, vendorId: nat, bookId: int, d: BookInput) returns (status: Status)
    requires ctx.Valid()
    modifies ctx
    ensures var r := UpdateBookSpec(old(ctx.Snapshot()), vendorId, bookId, d);
      status == r.status && ctx.Snapshot() == r.tables
    ensures ctx.Valid()
  {
    var t0 := ctx.Snapshot();
    var books, next := ctx.books, ctx.nextBookId;
    var found := FirstIndex(books, OwnedBook(bookId, vendorId));
    if found.None? {
      return NotFound;
    }
    var k := found.value;
    var b := books[k];
    var e := b.(bookName := d.bookName, authorName := d.authorName, price := d.price,
                quantity := d.quantity, description := d.description);
    if b.isApproved {
      e := e.(isApproved := false, isApprovalSent := false, rejectionCount := 0);
    }
    ReplaceBookValid(t0, k, e);
    SetBooks(ctx, books[k := e], next);
    return Ok;
  }

  /** On the caller's book an edit overwrites the five fields; an approved book (pending again
    * or not) returns to draft with no rejections, any other keeps its flags and count; nothing
    * else changes. */
  lemma UpdateBookEffects(t: Tables, uid: nat, k: nat, d: BookInput)
    requires ValidTables(t) && k < |t.books| && t.books[k].sellerId == uid
    ensures var b := t.books[k];
      var r := UpdateBookSpec(t, uid, b.bookId, d);
      var e := r.tables.books[k];
      r.status == Ok && |r.tables.books| == |t.books|
      && r.tables == t.(books := t.books[k := e])
      && e.bookId == b.bookId && e.sellerId == b.sellerId
      && e.bookName == d.bookName && e.authorName == d.authorName && e.price == d.price
      && e.quantity == d.quantity && e.description == d.description
      && (b.isApproved ==> PhaseOf(e) == Draft && e.rejectionCount == 0)
      && (!b.isApproved ==> e.isApproved == b.isApproved && e.isApprovalSent == b.isApprovalSent
                            && e.rejectionCount == b.rejectionCount)
  {
    OwnedIndex(t, uid, k);
  }

  // ---------------------------------------------------------------- RemoveBook

  /** Some line item of a past order names the book (`book.OrderItems.Any()`). */
  predicate Ordered(t: Tables, bookId: int) {
    exists i :: 0 <= i < |t.orderItems| && t.orderItems[i].bookId == bookId
  }

  function ItemOfBook(bookId: int): OrderItem -> bool {
    (oi: OrderItem) => oi.bookId == bookId
  }

  /** A book with past orders is only withdrawn: out of stock and unapproved. */
  function Withdrawn(b: Book): Book {
    b.(quantity := 0, isApproved := false)
  }

  /**
   * `RemoveBook` (Controllers/SellersController.cs:69-88): 404 unless the caller owns the book; a
   * book that was ever ordered is withdrawn, any other is deleted with its cart rows, wish-list
   * rows and reviews.
   */
  function RemoveBookSpec(t: Tables, uid: nat, bookId: int): (r: SellerReply)
    ensures r.status == NotFound <==> !SoldBy(t.books, bookId, uid)
    ensures r.status == NotFound || r.status == Ok
    ensures r.status == NotFound ==> r.tables == t
  {
    OwnedLookup(t, uid, bookId);
    match FirstIndex(t.books, OwnedBook(bookId, uid))
    case None => SellerReply(NotFound, t)
    case Some(k) =>
      if Ordered(t, bookId) then SellerReply(Ok, t.(books := t.books[k := Withdrawn(t.books[k])]))
      else SellerReply(Ok, DeleteBookCascade(t, bookId))
  }

  method RemoveBook(ctx: AppDbContext, vendorId: nat, bookId: int) returns (status: Status)
    requires ctx.Valid()
    modifies ctx
    ensures var r := RemoveBookSpec(old(ctx.Snapshot()), vendorId, bookId);
      status == r.status && ctx.Snapshot() == r.tables
    ensures ctx.Valid()
  {
    var t0 := ctx.Snapshot();
    var books, next, items := ctx.books, ctx.nextBookId, ctx.orderItems;
    var found := FirstIndex(books, OwnedBook(bookId, vendorId));
    if found.None? {
      return NotFound;
    }
    var k := found.value;
    var sold := FirstIndex(items, ItemOfBook(bookId));
    if sold.Some? {
      assert Ordered(t0, bookId);
      ReplaceBookValid(t0, k, Withdrawn(books[k]));
      SetBooks(ctx, books[k := Withdrawn(books[k])], next);
      return Ok;
    }
    assert !Ordered(t0, bookId);
    RemoveBookValid(t0, vendorId, bookId);
    DeleteBook(ctx, bookId);
    return Ok;
  }

  /** `Books.Remove(book)` followed by `SaveChanges`: the cascade the context declares. */
  method DeleteBook(ctx: AppDbContext, bookId: int)
    modifies ctx
    ensures ctx.Snapshot() == DeleteBookCascade(old(ctx.Snapshot()), bookId)
  {
    ctx.books := Where(ctx.books, BookNotWithId(bookId));
    ctx.cartItems := Where(ctx.cartItems, CartNotForBook(bookId));
    ctx.wishLists := Where(ctx.wishLists, WishNotForBook(bookId));
    ctx.reviews := Where(ctx.reviews, ReviewNotForBook(bookId));
    ctx.orderItems := Where(ctx.orderItems, ItemNotForBook(bookId));
  }

  lemma RemoveBookValid(t: Tables, uid: nat, bookId: int)
    requires ValidTables(t)
    ensures ValidTables(RemoveBookSpec(t, uid, bookId).tables)
  {
    var found := FirstIndex(t.books, OwnedBook(bookId, uid));
    if found.Some? {
      if Ordered(t, bookId) {
        ReplaceBookValid(t, found.value, Withdrawn(t.books[found.value]));
      } else {
        DeleteBookCascadeValid(t, bookId);
      }
    }
  }

  /** A book with past orders stays, with stock 0 and not approved; its submission flag and
    * rejection count are kept; nothing else changes. */
  lemma RemoveOrderedBookWithdraws(t: Tables, uid: nat, k: nat)
    requires ValidTables(t) && k < |t.books| && t.books[k].sellerId == uid
    requires Ordered(t, t.books[k].bookId)
    ensures var b := t.books[k];
      var r := RemoveBookSpec(t, uid, b.bookId);
      var w := r.tables.books[k];
      r.status == Ok && |r.tables.books| == |t.books| && r.tables == t.(books := t.books[k := w])
      && w.quantity == 0 && !w.isApproved
      && w.isApprovalSent == b.isApprovalSent && w.rejectionCount == b.rejectionCount
      && w == b.(quantity := 0, isApproved := false)
  {
    OwnedIndex(t, uid, k);
  }

  /** A book never ordered is deleted, and so is every row that pointed at it; the line items,
    * none of which names it, all stay. */
  lemma RemoveUnorderedBookDeletes(t: Tables, uid: nat, k: nat)
    requires ValidTables(t) && k < |t.books| && t.books[k].sellerId == uid
    requires !Ordered(t, t.books[k].bookId)
    ensures var id := t.books[k].bookId;
      var r := RemoveBookSpec(t, uid, id);
      r.status == Ok && r.tables == DeleteBookCascade(t, id) && !HasBook(r.tables.books, id)
      && (forall ci :: ci in r.tables.cartItems ==> ci.bookId != id)
      && (forall w :: w in r.tables.wishLists ==> w.bookId != id)
      && (forall v :: v in r.tables.reviews ==> v.bookId != id)
      && r.tables.orderItems == t.orderItems
  {
    var id := t.books[k].bookId;
    OwnedIndex(t, uid, k);
    DeleteBookCascadeValid(t, id);
    DeleteUnorderedBookKeepsItems(t, id);
  }

  // ---------------------------------------------------------------- SendForApproval

  /** `SendForApproval` (Controllers/SellersController.cs:104-113): 404 unless the caller owns the
    * book; otherwise its submission flag is set, whatever its phase. */
  function SendForApprovalSpec(t: Tables, uid: nat, bookId: int): (r: SellerReply)
    ensures r.status == NotFound <==> !SoldBy(t.books, bookId, uid)
    ensures r.status == NotFound || r.status == Ok
    ensures r.status == NotFound ==> r.tables == t
  {
    OwnedLookup(t, uid, bookId);
    match FirstIndex(t.books, OwnedBook(bookId, uid))
    case None => SellerReply(NotFound, t)
    case Some(k) => SellerReply(Ok, t.(books := t.books[k := t.books[k].(isApprovalSent := true)]))
  }

  method SendForApproval(ctx: AppDbContext, vendorId: nat, bookId: int) returns (status: Status)
    requires ctx.Valid()
    modifies ctx
    ensures var r := SendForApprovalSpec(old(ctx.Snapshot()), vendorId, bookId);
      status == r.status && ctx.Snapshot() == r.tables
    ensures ctx.Valid()
  {
    var t0 := ctx.Snapshot();
    var books, next := ctx.books, ctx.nextBookId;
    var found := FirstIndex(books, OwnedBook(bookId, vendorId));
    if found.None? {
      return NotFound;
    }
    var k := found.value;
    ReplaceBookValid(t0, k, books[k].(isApprovalSent := true));
    SetBooks(ctx, books[k := books[k].(isApprovalSent := true)], next);
    return Ok;
  }

  /** The phase a submission leads to: a draft or pending book becomes pending, an approved one
    * becomes approved and pending at once; only the flag changes. */
  lemma SendForApprovalPhases(t: Tables, uid: nat, k: nat)
    requires ValidTables(t) && k < |t.books| && t.books[k].sellerId == uid
    ensures var b := t.books[k];
      var r := SendForApprovalSpec(t, uid, b.bookId);
      var s := r.tables.books[k];
      r.status == Ok && |r.tables.books| == |t.books| && r.tables == t.(books := t.books[k := s])
      && s == b.(isApprovalSent := true)
      && (PhaseOf(b) == Draft || PhaseOf(b) == Pending ==> PhaseOf(s) == Pending)
      && (PhaseOf(b) == Approved || PhaseOf(b) == ApprovedAndPending ==> PhaseOf(s) == ApprovedAndPending)
  {
    OwnedIndex(t, uid, k);
  }

  /** The flag is set without looking at the approval, so "approved implies not pending" does not
    * survive a submission: an approved book can be approved and pending at once. */
  lemma SendForApprovalBreaksApprovedNotPending()
    ensures exists t, uid, k :: ApprovedThenBoth(t, uid, k)
  {
    var b := Book(1, "b", "a", 1.0, 5, "d", true, false, 0, 7);
    var t := EmptyTables().(books := [b], nextBookId := 2);
    assert b in t.books;
    assert ValidTables(t);
    SendForApprovalPhases(t, 7, 0);
    assert ApprovedThenBoth(t, 7, 0);
  }

  /** Book `k` is the caller's and approved, and submitting it leaves it approved and pending. */
  predicate ApprovedThenBoth(t: Tables, uid: nat, k: nat) {
    ValidTables(t) && k < |t.books| && t.books[k].sellerId == uid
    && PhaseOf(t.books[k]) == Approved
    && k < |SendForApprovalSpec(t, uid, t.books[k].bookId).tables.books|
    && PhaseOf(SendForApprovalSpec(t, uid, t.books[k].bookId).tables.books[k]) == ApprovedAndPending
  }

  // ---------------------------------------------------------------- the vendor's listings

  function BookIdKey(b: Book): real { b.bookId as real }

  datatype BookPage = BookPage(status: Status, books: seq<Book>, totalBooks: nat)

  /** `DisplayBooks` (Controllers/SellersController.cs:92-100): the caller's books by id, the page
    * at the unclamped offset, and the caller's book count; a negative offset or size makes the
    * page query fail with 500. */
  function DisplayBooks(t: Tables, uid: int, pageNo: Int32, pageSize: Int32): (p: BookPage)
    ensures p.status == ServerError <==> PageRefused(PageOffset(pageNo, pageSize), pageSize)
    ensures p.status == Ok <==> !PageRefused(PageOffset(pageNo, pageSize), pageSize)
    ensures p.status == ServerError ==> p.books == [] && p.totalBooks == 0
    ensures p.status == Ok ==> p.totalBooks == GetBooksCount(t, uid)
    ensures |p.books| <= if pageSize > 0 then pageSize as int else 0
    ensures forall b :: b in p.books ==> b in t.books && b.sellerId == uid
  {
    var offset := PageOffset(pageNo, pageSize);
    var query := SortBy(SellerBooks(t, uid), BookIdKey);
    var page := Take(Skip(query, offset), pageSize);
    assert forall b :: b in page ==> b in query;
    assert forall b :: b in query ==> b in SellerBooks(t, uid) by {
      forall b | b in query ensures b in SellerBooks(t, uid) {
        assert b in multiset(query);
      }
    }
    if PageRefused(offset, pageSize) then BookPage(ServerError, [], 0) else BookPage(Ok, page, |query|)
  }

  /** With ascending keys the sort keeps table order, so a page is a window onto the caller's
    * books in table order. */
  lemma DisplayBooksWindow(t: Tables, uid: int, pageNo: Int32, pageSize: Int32)
    requires ValidTables(t)
    ensures DisplayBooks(t, uid, pageNo, pageSize).status == Ok ==>
      DisplayBooks(t, uid, pageNo, pageSize).books
        == Take(Skip(SellerBooks(t, uid), PageOffset(pageNo, pageSize)), pageSize)
    ensures StrictlyAscending(DisplayBooks(t, uid, pageNo, pageSize).books, BookKey)
  {
    var mine := SellerBooks(t, uid);
    WhereAscending(t.books, SellerOf(uid), BookKey);
    forall i, j | 0 <= i < j < |mine| ensures BookIdKey(mine[i]) < BookIdKey(mine[j]) {
      assert BookKey(mine[i]) < BookKey(mine[j]);
    }
    SortByAscendingIdentity(mine, BookIdKey);
    WindowAscending(mine, BookKey, PageOffset(pageNo, pageSize), pageSize);
  }

  /** The page number is not clamped, and the offset wraps: page 2^30 + 1 of size 4 has offset
    * 2^32, which wraps to 0, so it shows the first page. */
  lemma DisplayBooksOffsetWraps()
    ensures PageOffset(0x4000_0001, 4) == 0
    ensures PageOffset(0, 5) == -5
  {
  }

  /** Page 0, which the handler does not clamp, has a negative offset and is refused with 500;
    * page 2^30 + 1 of size 4 wraps to offset 0 and shows the first page. */
  lemma DisplayBooksPageZeroRefused(t: Tables, uid: int)
    ensures DisplayBooks(t, uid, 0, 5).status == ServerError
    ensures DisplayBooks(t, uid, 0x4000_0001, 4) == DisplayBooks(t, uid, 1, 4)
  {
    DisplayBooksOffsetWraps();
    assert PageOffset(1, 4) == 0;
  }

  /** `SearchMyBooks` (Controllers/SellersController.cs:117-123): exactly the caller's books whose
    * name contains the query. */
  function SearchMyBooks(t: Tables, uid: int, query: string): (r: seq<Book>)
    ensures forall b :: b in r <==> b in t.books && b.sellerId == uid && Contains(b.bookName, query)
  {
    Where(t.books, MyBookNamed(uid, query))
  }

  function MyBookNamed(uid: int, query: string): Book -> bool {
    (b: Book) => b.sellerId == uid && Contains(b.bookName, query)
  }
}
