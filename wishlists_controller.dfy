/**
 * The wish list (Controllers/WishlistsController.cs): a set of (customer, book) pairs that the
 * database's unique index keeps free of duplicates.
 */
module WishlistsController {
  import opened Wrappers
  import opened Linq
  import opened Http
  import opened Models
  import opened AppDb

  datatype WishReply = WishReply(status: Status, tables: Tables, count: Option<nat>)

  function WishOf(uid: int, bookId: int): WishList -> bool {
    (w: WishList) => w.userId == uid && w.bookId == bookId
  }

  function WishOfUser(uid: int): WishList -> bool {
    (w: WishList) => w.userId == uid
  }

  /** The caller lists the book. */
  predicate Wished(t: Tables, uid: int, bookId: int) {
    Any(t.wishLists, WishOf(uid, bookId))
  }

  /** The caller's rows, in table order. */
  function WishRows(t: Tables, uid: int): (rows: seq<WishList>)
    ensures forall w :: w in rows <==> w in t.wishLists && w.userId == uid
  {
    Where(t.wishLists, WishOfUser(uid))
  }

  /** `WishLists.Count(w => w.UserId == userId)`. */
  function WishCount(t: Tables, uid: int): (n: nat)
    ensures n <= |t.wishLists|
    ensures n == 0 <==> forall w :: w in t.wishLists ==> w.userId != uid
  {
    var rows := WishRows(t, uid);
    if rows != [] then
      assert rows[0] in rows;
      |rows|
    else
      |rows|
  }

  /** `SaveChanges` on the wish-list table. */
  method SetWishLists(ctx: AppDbContext, rows: seq<WishList>, next: nat)
    modifies ctx
    ensures ctx.Snapshot() == old(ctx.Snapshot()).(wishLists := rows, nextWishListId := next)
  {
    ctx.wishLists, ctx.nextWishListId := rows, next;
  }

  // ---------------------------------------------------------------- AddToWishlist

  /**
   * `AddToWishlist` (Controllers/WishlistsController.cs:19-35): 208 when the pair is listed;
   * otherwise a row is inserted without looking at the book. A book that does not exist makes
   * the insert violate its foreign key, which `SaveChanges` reports as an exception: 500 and no
   * change. On success the reply carries the caller's new row count.
   */
  function AddToWishlistSpec(t: Tables, uid: nat, bookId: int): (r: WishReply)
    ensures r.status == AlreadyReported <==> Wished(t, uid, bookId)
    ensures r.status == ServerError <==> !Wished(t, uid, bookId) && !HasBook(t.books, bookId)
    ensures r.status == Ok <==> !Wished(t, uid, bookId) && HasBook(t.books, bookId)
    ensures r.status != Ok ==> r.tables == t && r.count == None
    ensures r.status == Ok ==> r.count == Some(WishCount(r.tables, uid))
  {
    if Wished(t, uid, bookId) then WishReply(AlreadyReported, t, None)
    else if !HasBook(t.books, bookId) then WishReply(ServerError, t, None)
    else
      var t' := WithWishRow(t, uid, bookId);
      WishReply(Ok, t', Some(WishCount(t', uid)))
  }

  /** The tables with a fresh row for the pair. */
  function WithWishRow(t: Tables, uid: nat, bookId: nat): Tables {
    t.(wishLists := t.wishLists + [WishList(t.nextWishListId, uid, bookId)],
       nextWishListId := t.nextWishListId + 1)
  }

  method AddToWishlist(ctx: AppDbContext, userId: nat, bookId: int) returns (status: Status, count: Option<nat>)
    requires ctx.Valid()
    modifies ctx
    ensures var r := AddToWishlistSpec(old(ctx.Snapshot()), userId, bookId);
      status == r.status && count == r.count && ctx.Snapshot() == r.tables
    ensures ctx.Valid()
  {
    var t0 := ctx.Snapshot();
    var rows, books, next := ctx.wishLists, ctx.books, ctx.nextWishListId;
    var dup := FirstIndex(rows, WishOf(userId, bookId));
    if dup.Some? {
      return AlreadyReported, None;
    }
    var found := FindBook(books, bookId);
    if found.None? {
      return ServerError, None;
    }
    assert books[found.value].bookId == bookId;
    assert AddToWishlistSpec(t0, userId, bookId).tables == WithWishRow(t0, userId, bookId);
    AddToWishlistValid(t0, userId, bookId);
    var rows' := rows + [WishList(next, userId, bookId)];
    SetWishLists(ctx, rows', next + 1);
    return Ok, Some(Count(rows', WishOfUser(userId)));
  }

  lemma AddToWishlistValid(t: Tables, uid: nat, bookId: int)
    requires ValidTables(t)
    ensures ValidTables(AddToWishlistSpec(t, uid, bookId).tables)
  {
    var r := AddToWishlistSpec(t, uid, bookId);
    if r.status == Ok {
      AppendKeyed(t.wishLists, WishListKey, t.nextWishListId, WishList(t.nextWishListId, uid, bookId));
      AddToWishlistKeepsPairsUnique(t, uid, bookId);
    }
  }

  /** The 208 check keeps "one row per (customer, book)", the unique index of the schema. */
  lemma AddToWishlistKeepsPairsUnique(t: Tables, uid: nat, bookId: int)
    requires WishListIndexHolds(t)
    ensures WishListIndexHolds(AddToWishlistSpec(t, uid, bookId).tables)
  {
    var r := AddToWishlistSpec(t, uid, bookId);
    if r.status == Ok {
      forall y | y in t.wishLists ensures WishListPair(y) != (uid, bookId) {
        var j :| 0 <= j < |t.wishLists| && t.wishLists[j] == y;
        assert !WishOf(uid, bookId)(t.wishLists[j]);
      }
    }
  }

  /** A successful add inserts exactly the row (caller, book) under a fresh id, whether or not the
    * book is approved. */
  lemma AddToWishlistAddsOne(t: Tables, uid: nat, bookId: int)
    requires AddToWishlistSpec(t, uid, bookId).status == Ok
    ensures var r := AddToWishlistSpec(t, uid, bookId);
      |r.tables.wishLists| == |t.wishLists| + 1
      && r.tables == t.(wishLists := t.wishLists + [WishList(t.nextWishListId, uid, bookId)],
                        nextWishListId := t.nextWishListId + 1)
  {
  }

  /** The count a successful add reports is the caller's count before, plus one. */
  lemma AddToWishlistCountGrows(t: Tables, uid: nat, bookId: int)
    requires AddToWishlistSpec(t, uid, bookId).status == Ok
    ensures AddToWishlistSpec(t, uid, bookId).count == Some(WishCount(t, uid) + 1)
  {
    WishRowCount(t, uid, bookId);
  }

  lemma WishRowCount(t: Tables, uid: nat, bookId: nat)
    ensures WishCount(WithWishRow(t, uid, bookId), uid) == WishCount(t, uid) + 1
  {
    var w := WishList(t.nextWishListId, uid, bookId);
    WhereAppend(t.wishLists, [w], WishOfUser(uid));
    assert Where([w], WishOfUser(uid)) == [w];
  }

  // ---------------------------------------------------------------- RemoveFromWishlist

  /** `RemoveFromWishlist` (Controllers/WishlistsController.cs:64-77): 404 unless the pair is
    * listed; otherwise its row is deleted and the caller's remaining count reported. */
  function RemoveFromWishlistSpec(t: Tables, uid: nat, bookId: int): (r: WishReply)
    ensures r.status == NotFound <==> !Wished(t, uid, bookId)
    ensures r.status == Ok <==> Wished(t, uid, bookId)
    ensures r.status == NotFound ==> r.tables == t && r.count == None
    ensures r.status == Ok ==> r.count == Some(WishCount(r.tables, uid))
  {
    match FirstIndex(t.wishLists, WishOf(uid, bookId))
    case None => WishReply(NotFound, t, None)
    case Some(k) =>
      var t' := t.(wishLists := RemoveAt(t.wishLists, k));
      WishReply(Ok, t', Some(WishCount(t', uid)))
  }

  method RemoveFromWishlist(ctx: AppDbContext, userId: nat, bookId: int) returns (status: Status, count: Option<nat>)
    requires ctx.Valid()
    modifies ctx
    ensures var r := RemoveFromWishlistSpec(old(ctx.Snapshot()), userId, bookId);
      status == r.status && count == r.count && ctx.Snapshot() == r.tables
    ensures ctx.Valid()
  {
    var t0 := ctx.Snapshot();
    var rows, next := ctx.wishLists, ctx.nextWishListId;
    var k := FirstIndex(rows, WishOf(userId, bookId));
    if k.None? {
      return NotFound, None;
    }
    RemoveWishValid(t0, k.value);
    var rows' := RemoveAt(rows, k.value);
    SetWishLists(ctx, rows', next);
    return Ok, Some(Count(rows', WishOfUser(userId)));
  }

  lemma RemoveWishValid(t: Tables, k: nat)
    requires ValidTables(t) && k < |t.wishLists|
    ensures ValidTables(t.(wishLists := RemoveAt(t.wishLists, k)))
  {
    RemoveKeyed(t.wishLists, WishListKey, t.nextWishListId, k);
  }

  /** The one row of the pair: the unique index makes the row found the only one. */
  lemma WishIndex(t: Tables, uid: nat, bookId: int) returns (k: nat)
    requires ValidTables(t) && Wished(t, uid, bookId)
    ensures k < |t.wishLists| && FirstIndex(t.wishLists, WishOf(uid, bookId)) == Some(k)
    ensures WishListPair(t.wishLists[k]) == (uid, bookId)
    ensures forall j :: 0 <= j < |t.wishLists| && j != k ==> WishListPair(t.wishLists[j]) != (uid, bookId)
  {
    var s := t.wishLists;
    k := FirstIndex(s, WishOf(uid, bookId)).value;
    forall j | 0 <= j < |s| && j != k ensures WishListPair(s[j]) != (uid, bookId) {
      assert WishListKey(s[j]) != WishListKey(s[k]);
      assert s[j] in s && s[k] in s;
    }
  }

  /** Removing deletes the caller's row for the book and nothing else: every other row stays. */
  lemma RemoveFromWishlistRemovesRow(t: Tables, uid: nat, bookId: int)
    requires ValidTables(t) && Wished(t, uid, bookId)
    ensures var r := RemoveFromWishlistSpec(t, uid, bookId);
      r.tables == t.(wishLists := r.tables.wishLists)
      && (forall w :: w in r.tables.wishLists <==> w in t.wishLists && WishListPair(w) != (uid, bookId))
  {
    var s := t.wishLists;
    var k := WishIndex(t, uid, bookId);
    var rows := RemoveAt(s, k);
    forall w | w in s && WishListPair(w) != (uid, bookId) ensures w in rows {
      var j :| 0 <= j < |s| && s[j] == w;
      if j < k { assert rows[j] == w; } else { assert rows[j - 1] == w; }
    }
    forall w | w in rows ensures WishListPair(w) != (uid, bookId) {
      var j :| 0 <= j < |rows| && rows[j] == w;
      if j >= k { assert w == s[j + 1]; }
    }
  }

  /** The count a successful removal reports is the caller's count before, minus one. */
  lemma RemoveFromWishlistCountShrinks(t: Tables, uid: nat, bookId: int)
    requires Wished(t, uid, bookId)
    ensures RemoveFromWishlistSpec(t, uid, bookId).count == Some(WishCount(t, uid) - 1)
  {
    var k := FirstIndex(t.wishLists, WishOf(uid, bookId)).value;
    WishRowRemovedCount(t, uid, k);
  }

  lemma WishRowRemovedCount(t: Tables, uid: nat, k: nat)
    requires k < |t.wishLists| && t.wishLists[k].userId == uid
    ensures WishCount(t.(wishLists := RemoveAt(t.wishLists, k)), uid) == WishCount(t, uid) - 1
  {
    CountRemoveAt(t.wishLists, k, WishOfUser(uid));
  }

  // ---------------------------------------------------------------- ViewWishlist

  /** One listed book, with the columns the handler projects from it. */
  datatype WishView = WishView(
    bookId: nat, bookName: string, authorName: string, price: real, quantity: int,
    description: string, isApproved: bool)

  function WishViewOf(b: Book): WishView {
    WishView(b.bookId, b.bookName, b.authorName, b.price, b.quantity, b.description, b.isApproved)
  }

  predicate WishRowsHaveBooks(books: seq<Book>, rows: seq<WishList>) {
    forall i :: 0 <= i < |rows| ==> HasBook(books, rows[i].bookId)
  }

  lemma WishRowsOfUserHaveBooks(t: Tables, uid: int)
    requires ValidTables(t)
    ensures WishRowsHaveBooks(t.books, WishRows(t, uid))
  {
    var rows := WishRows(t, uid);
    forall i | 0 <= i < |rows| ensures HasBook(t.books, rows[i].bookId) {
      assert rows[i] in rows;
    }
  }

  /** Each row shown by its loaded book. */
  function WishLines(rows: seq<WishList>, books: seq<Book>): (r: seq<WishView>)
    requires WishRowsHaveBooks(books, rows)
    ensures |r| == |rows|
    ensures forall i :: 0 <= i < |rows| ==> r[i] == WishViewOf(BookOf(books, rows[i].bookId))
  {
    seq(|rows|, i requires 0 <= i < |rows| => WishViewOf(BookOf(books, rows[i].bookId)))
  }

  /** `ViewWishlist` (Controllers/WishlistsController.cs:40-59): the caller's rows in table order,
    * each shown by its current book. */
  function ViewWishlist(t: Tables, uid: int): (r: seq<WishView>)
    requires ValidTables(t)
    ensures |r| == WishCount(t, uid)
  {
    WishRowsOfUserHaveBooks(t, uid);
    WishLines(WishRows(t, uid), t.books)
  }

  /** Each entry is the current book of one of the caller's rows. */
  lemma ViewWishlistShowsRow(t: Tables, uid: int, i: nat) returns (w: WishList, b: Book)
    requires ValidTables(t) && i < |ViewWishlist(t, uid)|
    ensures w in t.wishLists && w.userId == uid
    ensures b in t.books && b.bookId == w.bookId
    ensures ViewWishlist(t, uid)[i] == WishViewOf(b)
  {
    WishRowsOfUserHaveBooks(t, uid);
    var rows := WishRows(t, uid);
    assert ViewWishlist(t, uid) == WishLines(rows, t.books);
    w := rows[i];
    assert w in rows;
    b := BookOf(t.books, w.bookId);
  }

  /** Each of the caller's rows is listed, by its current book. */
  lemma ViewWishlistListsRow(t: Tables, uid: int, w: WishList) returns (i: nat)
    requires ValidTables(t) && w in t.wishLists && w.userId == uid
    ensures i < |ViewWishlist(t, uid)|
    ensures ViewWishlist(t, uid)[i] == WishViewOf(BookOf(t.books, w.bookId))
  {
    WishRowsOfUserHaveBooks(t, uid);
    var rows := WishRows(t, uid);
    assert ViewWishlist(t, uid) == WishLines(rows, t.books);
    assert w in rows;
    i :| 0 <= i < |rows| && rows[i] == w;
  }
}
