/**
 * The administrator's review of submitted books (Controllers/AdminController.cs): who is
 * waiting, which books, and the verdict.
 */
module AdminController {
  import opened Wrappers
  import opened Linq
  import opened Strings
  import opened Http
  import opened Models
  import opened AppDb
  import opened SellersController

  /** Vendor `uid` owns a book submitted and not yet approved (`u.Books.Any(...)`). */
  predicate HasAwaiting(books: seq<Book>, uid: int) {
    exists b :: b in books && b.sellerId == uid && AwaitingReview(b)
  }

  datatype SellerView = SellerView(id: nat, name: string, userName: string)

  function SellerViewOf(u: User): SellerView { SellerView(u.id, u.name, u.userName) }

  function VendorAwaiting(books: seq<Book>): User -> bool {
    (u: User) => u.role == Vendor && HasAwaiting(books, u.id)
  }

  /** `GetSellersForVerification` (Controllers/AdminController.cs:17-26): one entry per vendor with
    * a book awaiting review, in table order. */
  function GetSellersForVerification(t: Tables): (r: seq<SellerView>)
    ensures forall u :: u in t.users && u.role == Vendor && HasAwaiting(t.books, u.id) ==> SellerViewOf(u) in r
    ensures forall v :: v in r ==>
      exists u :: u in t.users && u.role == Vendor && HasAwaiting(t.books, u.id) && v == SellerViewOf(u)
  {
    var w := Where(t.users, VendorAwaiting(t.books));
    var r := Select(w, SellerViewOf);
    assert forall u :: u in w ==> SellerViewOf(u) in r by {
      forall u | u in w ensures SellerViewOf(u) in r {
        var i :| 0 <= i < |w| && w[i] == u;
        assert r[i] == SellerViewOf(u);
      }
    }
    assert forall v :: v in r ==> exists u :: u in w && v == SellerViewOf(u) by {
      forall v | v in r ensures exists u :: u in w && v == SellerViewOf(u) {
        var i :| 0 <= i < |r| && r[i] == v;
        assert w[i] in w;
      }
    }
    r
  }

  /** The columns the admin sees of a book under review. */
  datatype BookForReview = BookForReview(
    bookId: nat, bookName: string, authorName: string, price: real, quantity: int,
    description: string, rejectionCounts: int)

  function ReviewViewOf(b: Book): BookForReview {
    BookForReview(b.bookId, b.bookName, b.authorName, b.price, b.quantity, b.description, b.rejectionCount)
  }

  function AwaitingOf(sellerId: int): Book -> bool {
    (b: Book) => b.sellerId == sellerId && AwaitingReview(b)
  }

  /** `GetBooksForVerification` (Controllers/AdminController.cs:30-44): exactly the seller's books
    * awaiting review, in table order. */
  function GetBooksForVerification(t: Tables, sellerId: int): (r: seq<BookForReview>)
    ensures |r| == Count(t.books, AwaitingOf(sellerId))
    ensures forall i :: 0 <= i < |r| ==>
      exists b :: b in t.books && b.sellerId == sellerId && AwaitingReview(b) && r[i] == ReviewViewOf(b)
  {
    var w := Where(t.books, AwaitingOf(sellerId));
    var r := Select(w, ReviewViewOf);
    assert forall i :: 0 <= i < |r| ==> w[i] in w && r[i] == ReviewViewOf(w[i]);
    r
  }

  /** Every book of the seller awaiting review is listed. */
  lemma GetBooksForVerificationComplete(t: Tables, sellerId: int, b: Book)
    requires b in t.books && b.sellerId == sellerId && AwaitingReview(b)
    ensures ReviewViewOf(b) in GetBooksForVerification(t, sellerId)
  {
    var w := Where(t.books, AwaitingOf(sellerId));
    var i :| 0 <= i < |w| && w[i] == b;
    assert GetBooksForVerification(t, sellerId)[i] == ReviewViewOf(b);
  }

  // ---------------------------------------------------------------- VerifyBook

  /** The verdict: `verification.ToLower() == "true"` approves, anything else rejects. */
  predicate Approves(verification: string) {
    ToLower(verification) == "true"
  }

  /** Exactly the four-letter spellings of "true" in any mix of cases approve. */
  lemma ApprovesIff(verification: string)
    ensures Approves(verification) <==>
      |verification| == 4
      && (verification[0] == 't' || verification[0] == 'T')
      && (verification[1] == 'r' || verification[1] == 'R')
      && (verification[2] == 'u' || verification[2] == 'U')
      && (verification[3] == 'e' || verification[3] == 'E')
  {
    ToLowerEqualsIff(verification, "true");
  }

  /** The verdict applied to a book: it leaves the queue either way; a rejection counts. */
  function Verdict(b: Book, approve: bool): Book {
    if approve then b.(isApproved := true, isApprovalSent := false)
    else b.(isApproved := false, isApprovalSent := false, rejectionCount := b.rejectionCount + 1)
  }

  datatype VerifyReply = VerifyReply(status: Status, tables: Tables, approved: bool)

  /** `VerifyBook` (Controllers/AdminController.cs:48-70): 404 unless a book has that id and that
    * seller; the reply says which verdict was applied. */
  function VerifyBookSpec(t: Tables, bookId: int, sellerId: int, verification: string): (r: VerifyReply)
    ensures r.status == NotFound <==> !SoldBy(t.books, bookId, sellerId)
    ensures r.status == NotFound || r.status == Ok
    ensures r.status == NotFound ==> r.tables == t
    ensures r.approved <==> Approves(verification)
  {
    OwnedLookup(t, sellerId, bookId);
    var approve := Approves(verification);
    match FirstIndex(t.books, OwnedBook(bookId, sellerId))
    case None => VerifyReply(NotFound, t, approve)
    case Some(k) => VerifyReply(Ok, t.(books := t.books[k := Verdict(t.books[k], approve)]), approve)
  }

  method VerifyBook(ctx: AppDbContext, bookId: int, sellerId: int, verification: string)
    returns (status: Status, approved: bool)
    requires ctx.Valid()
    modifies ctx
    ensures var r := VerifyBookSpec(old(ctx.Snapshot()), bookId, sellerId, verification);
      status == r.status && approved == r.approved && ctx.Snapshot() == r.tables
    ensures ctx.Valid()
  {
    var t0 := ctx.Snapshot();
    approved := ToLower(verification) == "true";
    var books, next := ctx.books, ctx.nextBookId;
    var found := FirstIndex(books, OwnedBook(bookId, sellerId));
    if found.None? {
      return NotFound, approved;
    }
    var k := found.value;
    var b := books[k];
    if approved {
      b := b.(isApproved := true, isApprovalSent := false);
    } else {
      b := b.(isApproved := false, isApprovalSent := false, rejectionCount := b.rejectionCount + 1);
    }
    ReplaceBookValid(t0, k, b);
    SetBooks(ctx, books[k := b], next);
    return Ok, approved;
  }

  /** On book `k` of the seller: approval sets the approved flag and keeps the rejection count,
    * rejection clears it and adds one rejection; the book leaves the queue either way, whatever
    * phase it was in, and nothing else changes. */
  lemma VerifyBookEffects(t: Tables, k: nat, verification: string)
    requires ValidTables(t) && k < |t.books|
    ensures var b := t.books[k];
      var r := VerifyBookSpec(t, b.bookId, b.sellerId, verification);
      var v := r.tables.books[k];
      r.status == Ok && |r.tables.books| == |t.books| && r.tables == t.(books := t.books[k := v])
      && !v.isApprovalSent && !AwaitingReview(v)
      && (Approves(verification) ==> PhaseOf(v) == Approved && v.rejectionCount == b.rejectionCount)
      && (!Approves(verification) ==> PhaseOf(v) == Draft && v.rejectionCount == b.rejectionCount + 1)
      && v.(isApproved := b.isApproved, isApprovalSent := b.isApprovalSent, rejectionCount := b.rejectionCount) == b
  {
    OwnedIndex(t, t.books[k].sellerId, k);
  }

  /** The verdict does not require a pending book: a draft that was never submitted can be
    * approved directly. */
  lemma VerifyBookApprovesDraft()
    ensures exists t, k :: DraftApproved(t, k)
  {
    var b := Book(1, "b", "a", 1.0, 5, "d", false, false, 0, 7);
    var t := EmptyTables().(books := [b], nextBookId := 2);
    assert b in t.books;
    assert ValidTables(t);
    assert Approves("true") by { ApprovesIff("true"); }
    VerifyBookEffects(t, 0, "true");
    assert DraftApproved(t, 0);
  }

  /** Book `k` is a draft, and the "true" verdict on it succeeds and approves it. */
  predicate DraftApproved(t: Tables, k: nat) {
    ValidTables(t) && k < |t.books| && PhaseOf(t.books[k]) == Draft
    && var r := VerifyBookSpec(t, t.books[k].bookId, t.books[k].sellerId, "true");
    r.status == Ok && k < |r.tables.books| && PhaseOf(r.tables.books[k]) == Approved
  }
}
