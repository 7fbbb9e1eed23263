/**
 * Book reviews (Controllers/ReviewController.cs): a review needs a purchase, and a customer
 * reviews a book once.
 */
module ReviewController {
  import opened Wrappers
  import opened Linq
  import opened Http
  import opened Models
  import opened AppDb

  datatype ReviewReply = ReviewReply(status: Status, tables: Tables)

  function ItemFor(orderId: int, bookId: int): OrderItem -> bool {
    (oi: OrderItem) => oi.orderId == orderId && oi.bookId == bookId
  }

  function OrderOf(orderId: int, uid: int): Order -> bool {
    (o: Order) => o.orderId == orderId && o.userId == uid
  }

  /** The purchase check: a line item of order `orderId` names the book, and that order is the
    * caller's. */
  predicate Purchased(t: Tables, uid: int, orderId: int, bookId: int) {
    Any(t.orderItems, ItemFor(orderId, bookId)) && Any(t.orders, OrderOf(orderId, uid))
  }

  function ReviewBy(bookId: int, uid: int): Review -> bool {
    (v: Review) => v.bookId == bookId && v.userId == uid
  }

  /** The duplicate check: the caller has reviewed the book already. */
  predicate Reviewed(t: Tables, uid: int, bookId: int) {
    Any(t.reviews, ReviewBy(bookId, uid))
  }

  /**
   * `AddReview` (Controllers/ReviewController.cs:19-47): 403 without a purchase, then 400 for a
   * second review of the book; otherwise one review is added, dated `now`.
   */
  function AddReviewSpec(t: Tables, uid: nat, bookId: int, orderId: int, content: string, rating: int, now: int)
    : (r: ReviewReply)
    ensures r.status == Forbidden <==> !Purchased(t, uid, orderId, bookId)
    ensures r.status == BadRequest <==> Purchased(t, uid, orderId, bookId) && Reviewed(t, uid, bookId)
    ensures r.status == Ok <==> Purchased(t, uid, orderId, bookId) && !Reviewed(t, uid, bookId)
    ensures r.status != Ok ==> r.tables == t
    ensures r.status == Ok ==> |r.tables.reviews| == |t.reviews| + 1
  {
    if !Purchased(t, uid, orderId, bookId) then ReviewReply(Forbidden, t)
    else if Reviewed(t, uid, bookId) then ReviewReply(BadRequest, t)
    else
      assert bookId >= 0 by {
        var i :| 0 <= i < |t.orderItems| && ItemFor(orderId, bookId)(t.orderItems[i]);
      }
      var v := Review(t.nextReviewId, bookId, uid, content, rating, now);
      ReviewReply(Ok, t.(reviews := t.reviews + [v], nextReviewId := t.nextReviewId + 1))
  }

  /** `SaveChanges` on the review table. */
  method SetReviews(ctx: AppDbContext, reviews: seq<Review>, next: nat)
    modifies ctx
    ensures ctx.Snapshot() == old(ctx.Snapshot()).(reviews := reviews, nextReviewId := next)
  {
    ctx.reviews, ctx.nextReviewId := reviews, next;
  }

  method AddReview(ctx: AppDbContext, userId: nat, bookId: int, orderId: int, content: string, rating: int, now: int)
    returns (status: Status)
    requires ctx.Valid()
    modifies ctx
    ensures var r := AddReviewSpec(old(ctx.Snapshot()), userId, bookId, orderId, content, rating, now);
      status == r.status && ctx.Snapshot() == r.tables
    ensures ctx.Valid()
  {
    var t0 := ctx.Snapshot();
    var items, orders, reviews, next := ctx.orderItems, ctx.orders, ctx.reviews, ctx.nextReviewId;
    var item := FirstIndex(items, ItemFor(orderId, bookId));
    var order := FirstIndex(orders, OrderOf(orderId, userId));
    if item.None? || order.None? {
      return Forbidden;
    }
    var dup := FirstIndex(reviews, ReviewBy(bookId, userId));
    if dup.Some? {
      return BadRequest;
    }
    assert items[item.value].bookId == bookId;
    var v := Review(next, bookId, userId, content, rating, now);
    AddReviewValid(t0, userId, bookId, orderId, content, rating, now);
    SetReviews(ctx, reviews + [v], next + 1);
    return Ok;
  }

  lemma AddReviewValid(t: Tables, uid: nat, bookId: int, orderId: int, content: string, rating: int, now: int)
    requires ValidTables(t)
    ensures ValidTables(AddReviewSpec(t, uid, bookId, orderId, content, rating, now).tables)
  {
    var r := AddReviewSpec(t, uid, bookId, orderId, content, rating, now);
    if r.status == Ok {
      var i :| 0 <= i < |t.orderItems| && ItemFor(orderId, bookId)(t.orderItems[i]);
      assert t.orderItems[i] in t.orderItems;
      var v := Review(t.nextReviewId, bookId, uid, content, rating, now);
      AppendKeyed(t.reviews, ReviewKey, t.nextReviewId, v);
    }
  }

  /** On success the new review carries the caller, the book, the request's content and rating
    * and the current time, under a fresh id, and is the only change. */
  lemma AddReviewAddsOne(t: Tables, uid: nat, bookId: int, orderId: int, content: string, rating: int, now: int)
    requires AddReviewSpec(t, uid, bookId, orderId, content, rating, now).status == Ok
    ensures var r := AddReviewSpec(t, uid, bookId, orderId, content, rating, now);
      var v := r.tables.reviews[|t.reviews|];
      r.tables == t.(reviews := t.reviews + [v], nextReviewId := t.nextReviewId + 1)
      && v.reviewId == t.nextReviewId && v.userId == uid && v.bookId == bookId
      && v.content == content && v.rating == rating && v.createdAt == now
  {
  }

  /** The rating is not range-checked: the outcome is the same whatever rating is sent. */
  lemma AddReviewIgnoresRating(t: Tables, uid: nat, bookId: int, orderId: int, content: string, now: int,
                               rating: int, rating': int)
    ensures AddReviewSpec(t, uid, bookId, orderId, content, rating, now).status
         == AddReviewSpec(t, uid, bookId, orderId, content, rating', now).status
  {
  }

  /** A successful review keeps "one review per (customer, book)". */
  lemma AddReviewKeepsReviewsUnique(t: Tables, uid: nat, bookId: int, orderId: int, content: string,
                                    rating: int, now: int)
    requires ReviewsUnique(t)
    ensures ReviewsUnique(AddReviewSpec(t, uid, bookId, orderId, content, rating, now).tables)
  {
    var r := AddReviewSpec(t, uid, bookId, orderId, content, rating, now);
    if r.status == Ok {
      var v := r.tables.reviews[|t.reviews|];
      forall y | y in t.reviews ensures ReviewPair(y) != ReviewPair(v) {
        var j :| 0 <= j < |t.reviews| && t.reviews[j] == y;
        assert !ReviewBy(bookId, uid)(t.reviews[j]);
      }
      forall x, y | x in r.tables.reviews && y in r.tables.reviews && ReviewPair(x) == ReviewPair(y)
        ensures x == y
      {
        assert x == v || x in t.reviews;
        assert y == v || y in t.reviews;
      }
    }
  }

  // ---------------------------------------------------------------- AddQuickReview

  function OrderWithId(orderId: int): Order -> bool {
    (o: Order) => o.orderId == orderId
  }

  /** `oi.Order.OrderDate`. */
  function OrderDate(orders: seq<Order>, orderId: int): int {
    match FirstIndex(orders, OrderWithId(orderId))
    case Some(k) => orders[k].orderDate
    case None => 0
  }

  /** The line item belongs to an order of the caller (`oi.Order.UserId == userId`). */
  function ItemOfCaller(orders: seq<Order>, uid: int): OrderItem -> bool {
    (oi: OrderItem) => Any(orders, OrderOf(oi.orderId, uid))
  }

  function NewestFirst(orders: seq<Order>): OrderItem -> real {
    (oi: OrderItem) => -(OrderDate(orders, oi.orderId) as real)
  }

  /** The caller's line items from the newest order first (ties in table order), and the first of
    * them: none exactly when the caller has no line item; otherwise one of the caller's with the
    * latest order date. */
  function LastOrderItem(t: Tables, uid: int): (r: Option<OrderItem>)
    ensures r.None? <==> forall oi :: oi in t.orderItems ==> !ItemOfCaller(t.orders, uid)(oi)
    ensures r.Some? ==> r.value in t.orderItems && ItemOfCaller(t.orders, uid)(r.value)
    ensures r.Some? ==> forall oi :: oi in t.orderItems && ItemOfCaller(t.orders, uid)(oi) ==>
      OrderDate(t.orders, oi.orderId) <= OrderDate(t.orders, r.value.orderId)
  {
    var mine := Where(t.orderItems, ItemOfCaller(t.orders, uid));
    var sorted := SortBy(mine, NewestFirst(t.orders));
    if mine == [] then None
    else
      SortByHeadLeast(mine, NewestFirst(t.orders));
      Some(sorted[0])
  }

  /**
   * `AddQuickReview` (Controllers/ReviewController.cs:68-82): 400 when the caller has no line
   * item; otherwise `AddReview` for the book and order of the newest one.
   */
  function AddQuickReviewSpec(t: Tables, uid: nat, content: string, rating: int, now: int): (r: ReviewReply)
    ensures LastOrderItem(t, uid).None? ==> r.status == BadRequest && r.tables == t
  {
    match LastOrderItem(t, uid)
    case None => ReviewReply(BadRequest, t)
    case Some(oi) => AddReviewSpec(t, uid, oi.bookId, oi.orderId, content, rating, now)
  }

  method AddQuickReview(ctx: AppDbContext, userId: nat, content: string, rating: int, now: int)
    returns (status: Status)
    requires ctx.Valid()
    modifies ctx
    ensures var r := AddQuickReviewSpec(old(ctx.Snapshot()), userId, content, rating, now);
      status == r.status && ctx.Snapshot() == r.tables
    ensures ctx.Valid()
  {
    var last := LastOrderItem(ctx.Snapshot(), userId);
    if last.None? {
      return BadRequest;
    }
    status := AddReview(ctx, userId, last.value.bookId, last.value.orderId, content, rating, now);
  }

  /** The quick review always passes the purchase check, so it never answers 403: it answers 400
    * exactly when the caller has no line item or has reviewed the chosen book, and otherwise adds
    * the review. */
  lemma AddQuickReviewOutcomes(t: Tables, uid: nat, content: string, rating: int, now: int)
    ensures var r := AddQuickReviewSpec(t, uid, content, rating, now);
      var last := LastOrderItem(t, uid);
      r.status != Forbidden
      && (r.status == BadRequest <==> last.None? || Reviewed(t, uid, last.value.bookId))
      && (r.status == Ok <==> last.Some? && !Reviewed(t, uid, last.value.bookId))
  {
    var last := LastOrderItem(t, uid);
    if last.Some? {
      var oi := last.value;
      var i :| 0 <= i < |t.orderItems| && t.orderItems[i] == oi;
      assert ItemFor(oi.orderId, oi.bookId)(t.orderItems[i]);
    }
  }

  // ---------------------------------------------------------------- GetReviews

  datatype ReviewView = ReviewView(user: Option<string>, rating: int, review: string, date: int)

  function UserWithId(uid: int): User -> bool {
    (u: User) => u.id == uid
  }

  /** `r.User.Name`, absent when no user has that id. */
  function UserNameOf(users: seq<User>, uid: int): Option<string> {
    match FirstIndex(users, UserWithId(uid))
    case Some(k) => Some(users[k].name)
    case None => None
  }

  function ReviewViewOf(users: seq<User>): Review -> ReviewView {
    (v: Review) => ReviewView(UserNameOf(users, v.userId), v.rating, v.content, v.createdAt)
  }

  function ReviewForBook(bookId: int): Review -> bool {
    (v: Review) => v.bookId == bookId
  }

  /** `GetReviews` (Controllers/ReviewController.cs:52-63): one entry per review of the book, in
    * table order, with the author's name. */
  function GetReviews(t: Tables, bookId: int): (r: seq<ReviewView>)
    ensures |r| == Count(t.reviews, ReviewForBook(bookId))
    ensures forall i :: 0 <= i < |r| ==>
      exists v :: v in t.reviews && v.bookId == bookId && r[i] == ReviewViewOf(t.users)(v)
  {
    var w := Where(t.reviews, ReviewForBook(bookId));
    var r := Select(w, ReviewViewOf(t.users));
    assert forall i :: 0 <= i < |r| ==> w[i] in w && r[i] == ReviewViewOf(t.users)(w[i]);
    r
  }

  /** Every review of the book is listed. */
  lemma GetReviewsComplete(t: Tables, bookId: int, v: Review)
    requires v in t.reviews && v.bookId == bookId
    ensures ReviewViewOf(t.users)(v) in GetReviews(t, bookId)
  {
    var w := Where(t.reviews, ReviewForBook(bookId));
    var i :| 0 <= i < |w| && w[i] == v;
    assert GetReviews(t, bookId)[i] == ReviewViewOf(t.users)(v);
  }
}
