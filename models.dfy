/**
 * The entity records of the bookstore (the files under Models/): one datatype per table row,
 * their defaults, required-field checks and computed totals.
 * Image fields are not modelled; the user row carries the password hash that the
 * account handlers read and write.
 */
module Models {
  import opened Wrappers
  import opened Strings

  // ---------------------------------------------------------------- Role

  /** The three account roles (Models/User.cs:6). */
  datatype Role = Admin | Vendor | Customer

  /** The numeric value each role is stored as. */
  function RoleValue(r: Role): (v: int)
    ensures 1 <= v <= 3
    ensures r == Admin <==> v == 1
    ensures r == Vendor <==> v == 2
    ensures r == Customer <==> v == 3
  {
    match r
    case Admin => 1
    case Vendor => 2
    case Customer => 3
  }

  /** Reads a stored number back as a role; values outside 1..3 name no role. */
  function RoleFromValue(v: int): (r: Option<Role>)
    ensures r.Some? <==> 1 <= v <= 3
    ensures r.Some? ==> RoleValue(r.value) == v
  {
    if v == 1 then Some(Admin)
    else if v == 2 then Some(Vendor)
    else if v == 3 then Some(Customer)
    else None
  }

  lemma RoleValueRoundTrip(r: Role)
    ensures RoleFromValue(RoleValue(r)) == Some(r)
  {
  }

  // ---------------------------------------------------------------- User

  datatype User = User(
    id: nat,
    email: string,
    name: string,
    userName: string,
    passwordHash: string,
    mobileNumber: string,
    role: Role,
    isVerified: bool)

  /** A user as constructed: not verified until something says so (Models/User.cs:40). */
  function NewUser(id: nat, email: string, name: string, userName: string,
                   passwordHash: string, mobileNumber: string, role: Role): (u: User)
    ensures !u.isVerified
    ensures u.id == id && u.email == email && u.name == name && u.userName == userName
    ensures u.passwordHash == passwordHash && u.mobileNumber == mobileNumber && u.role == role
  {
    User(id, email, name, userName, passwordHash, mobileNumber, role, false)
  }

  // ---------------------------------------------------------------- Book

  datatype Book = Book(
    bookId: nat,
    bookName: string,
    authorName: string,
    price: real,
    quantity: int,
    description: string,
    isApproved: bool,
    isApprovalSent: bool,
    rejectionCount: int,
    sellerId: nat)

  /** What a vendor sends when adding or editing a book. */
  datatype BookInput = BookInput(
    bookName: string,
    authorName: string,
    price: real,
    quantity: int,
    description: string)

  /** ASCII white space, as `string.IsNullOrWhiteSpace` sees it for these characters. */
  predicate IsWhiteSpace(c: char)
  {
    c == ' ' || '\t' <= c <= '\r'
  }

  /** `[Required]` on a string: rejects the empty string and one made only of white space. */
  function Required(s: string): (ok: bool)
    ensures ok ==> |s| > 0
    ensures ok <==> exists i :: 0 <= i < |s| && !IsWhiteSpace(s[i])
  {
    exists i :: 0 <= i < |s| && !IsWhiteSpace(s[i])
  }

  /** The book-level validation: only the three text fields are required; price and
    * quantity carry no range check (Models/Book.cs:10-25). */
  predicate BookInputValid(d: BookInput)
  {
    Required(d.bookName) && Required(d.authorName) && Required(d.description)
  }

  /** A valid book input may carry a negative price and a negative stock. */
  lemma NegativeStockAccepted()
    ensures exists d :: BookInputValid(d) && d.quantity < 0 && d.price < 0.0
  {
    var d := BookInput("a", "b", -1.0, -5, "c");
    assert !IsWhiteSpace(d.bookName[0]) && !IsWhiteSpace(d.authorName[0]) && !IsWhiteSpace(d.description[0]);
    assert BookInputValid(d);
  }

  /** A book as constructed: not approved, not sent for approval, never rejected
    * (Models/Book.cs:29-31). */
  function NewBook(id: nat, d: BookInput, sellerId: nat): (b: Book)
    ensures !b.isApproved && !b.isApprovalSent && b.rejectionCount == 0
    ensures b.bookId == id && b.sellerId == sellerId
    ensures b.bookName == d.bookName && b.authorName == d.authorName && b.price == d.price
    ensures b.quantity == d.quantity && b.description == d.description
  {
    Book(id, d.bookName, d.authorName, d.price, d.quantity, d.description, false, false, 0, sellerId)
  }

  /** The approval phase the two flags encode. */
  datatype Phase = Draft | Pending | Approved | ApprovedAndPending

  function PhaseOf(b: Book): (p: Phase)
    ensures p == Draft <==> !b.isApproved && !b.isApprovalSent
    ensures p == Pending <==> !b.isApproved && b.isApprovalSent
    ensures p == Approved <==> b.isApproved && !b.isApprovalSent
    ensures p == ApprovedAndPending <==> b.isApproved && b.isApprovalSent
  {
    if b.isApproved then (if b.isApprovalSent then ApprovedAndPending else Approved)
    else (if b.isApprovalSent then Pending else Draft)
  }

  /** "Waiting for the administrator": sent and not yet approved. */
  predicate AwaitingReview(b: Book)
  {
    b.isApprovalSent && !b.isApproved
  }

  // ---------------------------------------------------------------- CartItem

  /** A cart row; the quantity column is a 32-bit `int`. */
  datatype CartItem = CartItem(cartItemId: nat, bookId: nat, userId: nat, quantity: Int32)

  /** The declared range of a cart quantity, `[Range(1, int.MaxValue)]` (Models/CartItem.cs:17). */
  predicate InCartRange(q: int)
  {
    1 <= q <= Int32Max
  }

  /** A cart row as constructed: quantity 1, inside the declared range (Models/CartItem.cs:18). */
  function NewCartItem(id: nat, userId: nat, bookId: nat): (ci: CartItem)
    ensures ci.quantity == 1 && InCartRange(ci.quantity)
    ensures ci.cartItemId == id && ci.userId == userId && ci.bookId == bookId
  {
    CartItem(id, bookId, userId, 1)
  }

  /** `TotalPrice`: the loaded book's price times the quantity, zero when no book is loaded
    * (Models/CartItem.cs:20). */
  function CartItemTotal(ci: CartItem, book: Option<Book>): (r: real)
    ensures book.None? ==> r == 0.0
    ensures book.Some? && ci.quantity == 0 ==> r == 0.0
    ensures book.Some? && book.value.price >= 0.0 && ci.quantity >= 0 ==> r >= 0.0
    ensures book.Some? && ci.quantity == 1 ==> r == book.value.price
  {
    match book
    case None => 0.0
    case Some(b) => b.price * (ci.quantity as real)
  }

  // ---------------------------------------------------------------- Order

  datatype Order = Order(orderId: nat, userId: nat, orderDate: int, status: string, addressId: Option<nat>)

  /** An order as constructed: status "Placed", no address, dated at creation
    * (Models/Order.cs:11-14). */
  function NewOrder(id: nat, userId: nat, now: int): (o: Order)
    ensures o.status == "Placed" && o.addressId == None && o.orderDate == now
    ensures o.orderId == id && o.userId == userId
  {
    Order(id, userId, now, "Placed", None)
  }

  // ---------------------------------------------------------------- OrderItem

  /** A line item: the book's fields copied by value at the time of ordering. */
  datatype OrderItem = OrderItem(
    orderItemId: nat,
    orderId: nat,
    bookId: nat,
    bookName: string,
    authorName: string,
    price: real,
    quantity: int)

  /** `TotalPrice` of a line item (Models/OrderItem.cs:16). */
  function OrderItemTotal(oi: OrderItem): (r: real)
    ensures oi.price >= 0.0 && oi.quantity >= 0 ==> r >= 0.0
    ensures oi.quantity == 0 ==> r == 0.0
    ensures oi.quantity == 1 ==> r == oi.price
  {
    oi.price * (oi.quantity as real)
  }

  // ---------------------------------------------------------------- the plain records

  datatype Review = Review(reviewId: nat, bookId: nat, userId: nat, content: string, rating: int, createdAt: int)

  datatype Address = Address(
    addressId: nat,
    userId: nat,
    name: string,
    phoneNumber: string,
    pincode: string,
    locality: string,
    addressLine: string,
    city: string,
    landmark: string,
    addressType: string)

  datatype WishList = WishList(wishListId: nat, userId: nat, bookId: nat)
}
