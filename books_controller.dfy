/**
 * The public catalogue (Controllers/BooksController.cs): every listing shows approved books
 * only, each with its number of reviews.
 */
module BooksController {
  import opened Wrappers
  import opened Linq
  import opened Strings
  import opened Models
  import opened Http
  import opened AppDb

  /** The columns a catalogue entry shows (the average rating is not modelled). */
  datatype BookListing = BookListing(
    bookId: nat, bookName: string, authorName: string, price: real, quantity: int,
    description: string, isApproved: bool, isApprovalSent: bool, rejectionCounts: int,
    reviewCount: nat)

  function ReviewOfBook(bookId: int): Review -> bool {
    (v: Review) => v.bookId == bookId
  }

  /** `b.Reviews.Count`: the reviews naming the book. */
  function ReviewCount(t: Tables, bookId: int): (n: nat)
    ensures n <= |t.reviews|
    ensures n == 0 <==> forall v :: v in t.reviews ==> v.bookId != bookId
  {
    var w := Where(t.reviews, ReviewOfBook(bookId));
    if w != [] then
      assert w[0] in w;
      |w|
    else
      |w|
  }

  function ListingOf(t: Tables): Book -> BookListing {
    (b: Book) => BookListing(b.bookId, b.bookName, b.authorName, b.price, b.quantity, b.description,
                             b.isApproved, b.isApprovalSent, b.rejectionCount, ReviewCount(t, b.bookId))
  }

  /** The entry shows the book's own columns and its review count. */
  lemma ListingShowsBook(t: Tables, b: Book)
    ensures var l := ListingOf(t)(b);
      l.bookId == b.bookId && l.bookName == b.bookName && l.authorName == b.authorName
      && l.price == b.price && l.quantity == b.quantity && l.description == b.description
      && l.isApproved == b.isApproved && l.isApprovalSent == b.isApprovalSent
      && l.rejectionCounts == b.rejectionCount && l.reviewCount == Count(t.reviews, ReviewOfBook(b.bookId))
  {
  }

  function IsApprovedBook(): Book -> bool {
    (b: Book) => b.isApproved
  }

  /** The listing of a filter of the book table, in table order. */
  function Listings(t: Tables, p: Book -> bool): (r: seq<BookListing>)
    ensures |r| == Count(t.books, p)
    ensures forall i :: 0 <= i < |r| ==> exists b :: b in t.books && p(b) && r[i] == ListingOf(t)(b)
    ensures forall b :: b in t.books && p(b) ==> ListingOf(t)(b) in r
  {
    var w := Where(t.books, p);
    var r := Select(w, ListingOf(t));
    assert forall i :: 0 <= i < |r| ==> w[i] in w && r[i] == ListingOf(t)(w[i]);
    assert forall b :: b in w ==> ListingOf(t)(b) in r by {
      forall b | b in w ensures ListingOf(t)(b) in r {
        var i :| 0 <= i < |w| && w[i] == b;
        assert r[i] == ListingOf(t)(b);
      }
    }
    r
  }

  /** `GetAllBooks` (Controllers/BooksController.cs:15-35): one entry per approved book, in table
    * order, and only those. */
  function GetAllBooks(t: Tables): (r: seq<BookListing>)
    ensures |r| == GetBookCount(t)
    ensures forall l :: l in r ==> l.isApproved
    ensures forall i :: 0 <= i < |r| ==> exists b :: b in t.books && b.isApproved && r[i] == ListingOf(t)(b)
    ensures forall b :: b in t.books && b.isApproved ==> ListingOf(t)(b) in r
  {
    Listings(t, IsApprovedBook())
  }

  /** `GetBookCount` (Controllers/BooksController.cs:39-43): the number of approved books. */
  function GetBookCount(t: Tables): (n: nat)
    ensures n <= |t.books|
    ensures n == 0 <==> forall b :: b in t.books ==> !b.isApproved
  {
    var w := Where(t.books, IsApprovedBook());
    if w != [] then
      assert w[0] in w;
      |w|
    else
      |w|
  }

  function PriceKey(l: BookListing): real { l.price }
  function NegPriceKey(l: BookListing): real { -l.price }

  /** `OrderByDescending(b => b.price)` on a listing. */
  function ByPriceDesc(s: seq<BookListing>): (r: seq<BookListing>)
    ensures multiset(r) == multiset(s)
    ensures forall i, j :: 0 <= i < j < |r| ==> r[i].price >= r[j].price
  {
    var r := SortBy(s, NegPriceKey);
    assert forall i, j :: 0 <= i < j < |r| ==> NegPriceKey(r[i]) <= NegPriceKey(r[j]);
    r
  }

  /** `OrderBy(b => b.price)` on a listing. */
  function ByPriceAsc(s: seq<BookListing>): (r: seq<BookListing>)
    ensures multiset(r) == multiset(s)
    ensures forall i, j :: 0 <= i < j < |r| ==> r[i].price <= r[j].price
  {
    var r := SortBy(s, PriceKey);
    assert forall i, j :: 0 <= i < j < |r| ==> PriceKey(r[i]) <= PriceKey(r[j]);
    r
  }

  /** `GetBooksByPriceDesc` (Controllers/BooksController.cs:47-67): the approved listing,
    * rearranged so that prices never rise. */
  function GetBooksByPriceDesc(t: Tables): (r: seq<BookListing>)
    ensures multiset(r) == multiset(GetAllBooks(t))
    ensures forall i, j :: 0 <= i < j < |r| ==> r[i].price >= r[j].price
  {
    ByPriceDesc(GetAllBooks(t))
  }

  /** `GetBooksByPriceAsc` (Controllers/BooksController.cs:71-91): the approved listing,
    * rearranged so that prices never fall. */
  function GetBooksByPriceAsc(t: Tables): (r: seq<BookListing>)
    ensures multiset(r) == multiset(GetAllBooks(t))
    ensures forall i, j :: 0 <= i < j < |r| ==> r[i].price <= r[j].price
  {
    ByPriceAsc(GetAllBooks(t))
  }

  /** Both price orders list exactly the approved books. */
  lemma PriceSortsListApproved(t: Tables, l: BookListing)
    ensures l in GetBooksByPriceDesc(t) <==> l in GetAllBooks(t)
    ensures l in GetBooksByPriceAsc(t) <==> l in GetAllBooks(t)
  {
    assert l in GetBooksByPriceDesc(t) <==> l in multiset(GetBooksByPriceDesc(t));
    assert l in GetBooksByPriceAsc(t) <==> l in multiset(GetBooksByPriceAsc(t));
  }

  // ---------------------------------------------------------------- GetBookByPage

  datatype CataloguePage = CataloguePage(status: Status, books: seq<BookListing>, totalItems: nat)

  function IdKey(l: BookListing): real { l.bookId as real }

  /** `pageNo` below 1 is read as 1. */
  function ClampPage(pageNo: Int32): (p: Int32)
    ensures p >= 1
    ensures pageNo >= 1 ==> p == pageNo
  {
    if pageNo < 1 then 1 else pageNo
  }

  /** `GetBookByPage` (Controllers/BooksController.cs:95-119): the approved listing by id, the
    * page at the clamped page number, and the approved count; a negative offset or size makes
    * the page query fail with 500. */
  function GetBookByPage(t: Tables, pageNo: Int32, pageSize: Int32): (p: CataloguePage)
    ensures p.status == ServerError <==> PageRefused(PageOffset(ClampPage(pageNo), pageSize), pageSize)
    ensures p.status == Ok <==> !PageRefused(PageOffset(ClampPage(pageNo), pageSize), pageSize)
    ensures p.status == ServerError ==> p.books == [] && p.totalItems == 0
    ensures p.status == Ok ==> p.totalItems == GetBookCount(t)
    ensures |p.books| <= if pageSize > 0 then pageSize as int else 0
    ensures forall l :: l in p.books ==> l.isApproved
  {
    var all := GetAllBooks(t);
    var offset := PageOffset(ClampPage(pageNo), pageSize);
    if PageRefused(offset, pageSize) then CataloguePage(ServerError, [], 0)
    else CataloguePage(Ok, PageById(all, offset, pageSize), |all|)
  }

  /** `OrderBy(b => b.bookId).Skip(offset).Take(size)` on a listing. */
  function PageById(s: seq<BookListing>, offset: int, size: int): (r: seq<BookListing>)
    ensures |r| <= if size > 0 then size else 0
    ensures forall l :: l in r ==> l in s
  {
    var query := SortBy(s, IdKey);
    var page := Take(Skip(query, offset), size);
    assert forall l :: l in page ==> l in query;
    assert forall l :: l in query ==> l in s by {
      forall l | l in query ensures l in s {
        assert l in multiset(query);
      }
    }
    page
  }

  /** Page numbers below 1 all show page 1. */
  lemma GetBookByPageClamps(t: Tables, pageNo: Int32, pageSize: Int32)
    requires pageNo < 1
    ensures GetBookByPage(t, pageNo, pageSize) == GetBookByPage(t, 1, pageSize)
  {
  }

  /** With ascending ids, sorting by id keeps table order: a page is a window onto the approved
    * listing, dropping (pageNo - 1) * pageSize entries (in 32-bit arithmetic) and keeping at most
    * pageSize; page 1 starts at the first approved book. */
  lemma {:induction false} GetBookByPageWindow(t: Tables, pageNo: Int32, pageSize: Int32)
    requires ValidTables(t)
    ensures GetBookByPage(t, pageNo, pageSize).status == Ok ==>
      GetBookByPage(t, pageNo, pageSize).books
        == Take(Skip(GetAllBooks(t), PageOffset(ClampPage(pageNo), pageSize)), pageSize)
    ensures pageSize >= 0 ==>
      GetBookByPage(t, 1, pageSize).status == Ok
      && GetBookByPage(t, 1, pageSize).books == Take(GetAllBooks(t), pageSize)
  {
    var w := Where(t.books, IsApprovedBook());
    WhereAscending(t.books, IsApprovedBook(), BookKey);
    var all := GetAllBooks(t);
    assert all == Select(w, ListingOf(t));
    forall i, j | 0 <= i < j < |all| ensures IdKey(all[i]) < IdKey(all[j]) {
      assert all[i].bookId == w[i].bookId && all[j].bookId == w[j].bookId;
      assert BookKey(w[i]) < BookKey(w[j]);
    }
    SortByAscendingIdentity(all, IdKey);
    assert PageOffset(1, pageSize) == 0;
  }

  /** A negative size is refused, and so is a page whose 32-bit offset wraps below zero:
    * page 2^29 + 1 of size 4 has offset 2^31, which wraps to -2^31. */
  lemma GetBookByPageRefusesNegative(t: Tables)
    ensures GetBookByPage(t, 1, -1).status == ServerError
    ensures GetBookByPage(t, 0x2000_0001, 4).status == ServerError
  {
    assert PageOffset(0x2000_0001, 4) == -0x8000_0000;
  }

  // ---------------------------------------------------------------- SearchByText

  /** The book is approved and its author or name contains the text. */
  predicate Matches(b: Book, text: string) {
    b.isApproved && (Contains(b.authorName, text) || Contains(b.bookName, text))
  }

  function MatchesText(text: string): Book -> bool {
    (b: Book) => Matches(b, text)
  }

  /** The books the search selects, in table order: exactly the approved ones whose author or
    * name contains the text. */
  function SearchHits(t: Tables, text: string): (h: seq<Book>)
    ensures forall b :: b in h <==> b in t.books && Matches(b, text)
  {
    Where(t.books, MatchesText(text))
  }

  /** `SearchByText` (Controllers/BooksController.cs:123-143): one entry per book the search
    * selects, in table order. */
  function SearchByText(t: Tables, text: string): (r: seq<BookListing>)
    ensures |r| == |SearchHits(t, text)|
    ensures forall i :: 0 <= i < |r| ==> r[i] == ListingOf(t)(SearchHits(t, text)[i])
  {
    Select(SearchHits(t, text), ListingOf(t))
  }

  /** The empty text matches every approved book. */
  lemma SearchEmptyTextListsAll(t: Tables)
    ensures SearchByText(t, "") == GetAllBooks(t)
  {
    assert GetAllBooks(t) == Select(Where(t.books, IsApprovedBook()), ListingOf(t));
    forall i | 0 <= i < |t.books| ensures MatchesText("")(t.books[i]) == IsApprovedBook()(t.books[i]) {
      ContainsEmpty(t.books[i].authorName);
    }
    WhereSamePredicate(t.books, MatchesText(""), IsApprovedBook());
  }
}
