# ebook-svc bookstore, modelled in Dafny

This project models the request handlers of the ebook-svc bookstore service and the data
store they work on, and proves properties of that model in Dafny 4.11. The service is an
ASP.NET Core application over Entity Framework.

## The store

The store is the class `AppDb.AppDbContext`. It holds one `seq` field per table: users,
books, cart rows, wish-list rows, orders, line items, addresses and reviews. It also holds one
auto-increment counter per table. `Snapshot()` packs these fields into the value `Tables`.

`Valid()` stands for what the database itself enforces:
- primary keys strictly ascending and below their counter;
- the foreign keys that point at books, orders and addresses;
- the schema's one unique index, which allows each (user, book) pair at most once in the wish list.

The handlers keep more uniqueness than the schema does:
- one cart row per (user, book);
- one review per (user, book);
- one address per (user, address type);
- unique e-mail addresses and unique user names.

These are separate predicates (`CartUnique`, `ReviewsUnique`, `AddressesUnique` and
`AccountsUnique`). Lemmas prove which handlers keep them and which do not.

## The handlers

Each controller is a module, and each state-changing handler follows the same pattern:
- it is a `method` taking the context, the caller's id and, where needed, the current time;
- it returns the HTTP status plus whatever data the handler computes;
- its `ensures` ties the status and the new snapshot to a pure specification function of the old snapshot, and promises that `Valid()` is kept.

The properties of a handler are then stated as lemmas about its specification function:
- which outcome happens exactly when;
- what changes;
- what stays the same;
- counts;
- conservation of stock;
- uniqueness.

Handlers that only read the store are functions on `Tables`.

Checkout keeps the source's structure. It runs the stock-check loop, then the
snapshot-and-deduct loop, then writes. Both loops carry invariants tying them to the
specification.

Other parts of the model:
- The field validators of `Models/User.cs` are predicates over whole strings, each with a lemma that restates it at character level.
- Decryption and hashing are function parameters: `Decrypt` returns `None` when it throws, and hashing is uninterpreted.
- Strings compare ordinally.
- Arithmetic wraps at 32 bits where the source's `int`s meet values a client controls: cart quantities and paging offsets.

Where the code does less than its own names, comments and attributes suggest, the model follows
the code. The main divergences each have a lemma that exhibits them:
- Sending a book for approval does not look at its approval. An approved book can become approved and pending at once (`SellersController.SendForApprovalBreaksApprovedNotPending`).
- The administrator's verdict does not require a pending book (`AdminController.VerifyBookApprovesDraft`).
- Stock is checked row by row, before any deduction. Two cart rows for one book can oversell it (`OrdersController.CheckoutDuplicateRowsOversell`).
- The guest-cart merge can store two rows for one book (`CartController.PlaceOrderDuplicateLoophole`), and it can store a quantity that is not positive (`CartController.PlaceOrderStoresNegativeQuantity`).
- The review rating is never range-checked (`ReviewController.AddReviewIgnoresRating`).
- Registration stores the account as already verified (`UsersController.RegisterAddsAccount`).
- Validation of a book accepts a negative price and a negative stock (`Models.NegativeStockAccepted`).

## Model

| member | source | states |
|---|---|---|
| Models.RoleValue | Models/User.cs:6 | Admin is stored as 1, Vendor as 2, Customer as 3, and each value names one role |
| Models.RoleFromValue | Models/User.cs:6 | a stored number names a role exactly when it is 1, 2 or 3, and then it is that role's value |
| Models.RoleValueRoundTrip | Models/User.cs:6 | reading back a role's stored value gives the role |
| Models.NewUser | Models/User.cs:40 | a constructed user is not verified and carries the given fields |
| Models.Required | Models/User.cs:12 | `[Required]` accepts a string exactly when it has a character that is not white space |
| Models.NegativeStockAccepted | Models/Book.cs:16-22 | some book input that passes validation has a negative price and a negative stock |
| Models.NewBook | Models/Book.cs:29-31 | a new book is not approved, not sent for approval, has no rejections, and carries the input's fields and seller |
| Models.PhaseOf | Models/Book.cs:29-30 | the two approval flags encode exactly four phases: draft, pending, approved, approved-and-pending |
| Models.NewCartItem | Models/CartItem.cs:17-18 | a new cart row has quantity 1, which lies in the declared range [1, int.MaxValue] |
| Models.CartItemTotal | Models/CartItem.cs:20 | the row total is 0 without a loaded book, the book's price for quantity 1, and not negative for a non-negative price and quantity |
| Models.NewOrder | Models/Order.cs:11-14 | a new order is "Placed", has no address, is dated at its creation, and belongs to the given user |
| Models.OrderItemTotal | Models/OrderItem.cs:16 | a line total is the price for quantity 1, 0 for quantity 0, and not negative when price and quantity are not negative |
| Strings.Contains | Controllers/BooksController.cs:125 | `t.Contains(s)` holds exactly when `s` occurs in `t` at some offset, comparing characters ordinally |
| Strings.ToLower | Controllers/OrdersController.cs:40 | lower-casing keeps the length and maps each character on its own, changing only ASCII upper-case letters |
| Strings.ContainsEmpty | Controllers/BooksController.cs:125 | every string contains the empty string |
| Strings.ToLowerEqualsIff | Controllers/OrdersController.cs:40 | a string lower-cases to a lower-case word exactly when it is that word with any letters in upper case |
| Strings.Wrap32 | Controllers/CartController.cs:118-123 | unchecked 32-bit addition: an in-range result is kept, and any result is congruent to the mathematical one modulo 2^32 |
| Strings.NatToString | Controllers/UsersController.cs:133 | an id prints as a non-empty string of decimal digits |
| Strings.NatToStringInjective | Controllers/UsersController.cs:133 | distinct ids print differently, so a token matches at most one id |
| AppDb.AppDbContext.constructor | AppDbContext.cs:8-17 | a new context holds empty tables that satisfy every schema rule |
| AppDb.EmptyTablesValid | AppDbContext.cs:19-81 | the empty database satisfies the schema and every handler-kept uniqueness |
| AppDb.SchemaAdmitsDuplicateCartRowsAndReviews | AppDbContext.cs:19-81 | a database that the schema accepts can hold two cart rows and two reviews for one (user, book), since only the wish list has a unique index |
| AppDb.CartRows | Controllers/OrdersController.cs:23-24 | exactly the caller's cart rows |
| AppDb.FindBook | Controllers/CartController.cs:29 | `Books.Find` finds a position exactly when a book has that id, and the book there has it |
| AppDb.FindBookExact | Controllers/CartController.cs:29 | with ascending keys, the position found is the one row carrying the id |
| AppDb.DeleteBookCascade | AppDbContext.cs:34-38 | deleting a book removes exactly that book and the cart rows, wish-list rows (45-49), reviews (71-75) and line items (by convention, Models/Book.cs:39) naming it; nothing else changes |
| AppDb.DeleteBookCascadeValid | AppDbContext.cs:34-75 | the cascade leaves a consistent database without the book |
| AppDb.DeleteUnorderedBookKeepsItems | Models/Book.cs:39 | deleting a book that no line item names keeps every line item |
| AppDb.DeleteUserCascade | AppDbContext.cs:28-80 | deleting a user removes exactly the user, the user's books, the cart rows, wish-list rows and reviews that are the user's (39-43, 50-54, 76-80) or hung on those books, the user's orders (62-65, by convention), and the line items of those orders (56-59) or naming those books; nothing else changes |
| AppDb.DeleteUserKeepsBookReferences | AppDbContext.cs:28-80 | after a user's deletion every remaining cart row, wish-list row, review and line item still names a remaining book, every line item a remaining order, and every foreign key of the schema holds |
| AppDb.DeleteUserCascadeValid | AppDbContext.cs:28-80 | deleting a user leaves a consistent database |
| OrdersController.ShippingAddress | Controllers/OrdersController.cs:40-41 | the address chosen is one of the caller's whose type lower-cases to "home", and there is none exactly when no such address exists |
| OrdersController.DeductAll | Controllers/OrdersController.cs:58 | the deductions change only stock counts |
| OrdersController.DeductAllStock | Controllers/OrdersController.cs:45-59 | after the deductions each book's stock is its old stock minus the total quantity the rows ask of it |
| OrdersController.QtyForSingle | Controllers/OrdersController.cs:58 | when a single row names a book, that row's quantity is what the book loses |
| OrdersController.LineItems | Controllers/OrdersController.cs:45-56 | one line item per row, in cart order, each a by-value copy of the row and its book under consecutive ids |
| OrdersController.CheckoutSpec | Controllers/OrdersController.cs:19-64 | 400 exactly for an empty cart, 417 exactly when some row asks more than its book's stock, 200 otherwise with the next order id; on 400 and 417 nothing changes |
| OrdersController.Checkout | Controllers/OrdersController.cs:19-64 | the two loops and the writes produce the status, order id and tables of the specification, and keep the database consistent |
| OrdersController.PlaceCart | Controllers/OrdersController.cs:38-62 | the success path writes exactly the placed tables and returns the next order id |
| OrdersController.FirstShortRow | Controllers/OrdersController.cs:30-36 | the stock-check loop stops at a row asking more than its stock, and finds none exactly when every row is covered |
| OrdersController.SnapshotAndDeduct | Controllers/OrdersController.cs:45-59 | the second loop produces exactly the line items and the deducted stock of the specification |
| OrdersController.DeductRow | Controllers/OrdersController.cs:58 | one row's deduction |
| OrdersController.AddMyOrder | Controllers/OrdersController.cs:69-73 | `AddMyOrder` has exactly the outcome and effect of `Checkout` |
| OrdersController.CheckoutSpecShort | Controllers/OrdersController.cs:30-36 | a short row gives 417 with the tables unchanged |
| OrdersController.CheckoutSpecPlaced | Controllers/OrdersController.cs:38-63 | a non-empty cart with no short row gives 200, the placed tables and the next order id |
| OrdersController.CheckoutAddsOneOrder | Controllers/OrdersController.cs:38-43 | a success appends exactly one order (the caller's, dated now, "Placed", under the next id) and keeps every earlier order |
| OrdersController.CheckoutSnapshotsCart | Controllers/OrdersController.cs:45-56 | the new line items are one per cart row, in order, each copying book id, name, author, price and quantity by value under the new order's id |
| OrdersController.CheckoutOk | Controllers/OrdersController.cs:38-62 | a 200 means every row passed the stock check, and the tables gain the order and the items, the deducted stock and the cart without the caller's rows; addresses stay |
| OrdersController.DeductAllConserves | Controllers/OrdersController.cs:45-59 | every book's stock drops by exactly the rows' total for it, and a book no row names is unchanged |
| OrdersController.CheckoutConservesStock | Controllers/OrdersController.cs:45-59 | stock conservation per book over a successful checkout; no field of a book other than its stock changes |
| OrdersController.CheckoutClearsOnlyCallersCart | Controllers/OrdersController.cs:61 | after a success the caller has no cart rows, and every other user's row is still there |
| OrdersController.CheckoutShipsHome | Controllers/OrdersController.cs:40-41 | the order's address is one of the caller's "home" addresses (in any letter case), and is absent exactly when there is none |
| OrdersController.DeductAllSingleRow | Controllers/OrdersController.cs:58 | a book named by one row that asked no more than its stock keeps a non-negative stock |
| OrdersController.CheckoutNoOversellDistinct | Controllers/OrdersController.cs:30-36 | when no two of the caller's rows name one book, no book that a successful checkout touched is left with negative stock |
| OrdersController.CheckoutDuplicateRowsOversell | Controllers/OrdersController.cs:30-58 | a consistent database exists where a checkout succeeds and leaves a book with stock -1 (two rows of 3 against a stock of 5) |
| OrdersController.OversellDeduction | Controllers/OrdersController.cs:58 | in that database the two deductions take the stock from 5 to -1 |
| OrdersController.PlacedTablesValid | Controllers/OrdersController.cs:38-62 | a successful checkout keeps every key and foreign key rule of the schema |
| OrdersController.StockChangeKeepsKeys | Controllers/OrdersController.cs:58 | changing stock counts keeps every book key in place |
| OrdersController.GetMyOrders | Controllers/OrdersController.cs:78-98 | one entry per order of the caller |
| OrdersController.GetMyOrdersNewestFirst | Controllers/OrdersController.cs:83 | the orders are listed newest first |
| OrdersController.GetMyOrdersListsOrder | Controllers/OrdersController.cs:81-84 | every order of the caller is listed, with its items |
| OrdersController.GetMyOrdersExactlyCallers | Controllers/OrdersController.cs:81-88 | exactly the caller's orders are listed, by id and date |
| OrdersController.GetMyOrdersViews | Controllers/OrdersController.cs:86-96 | every listed entry is the view of one of the caller's orders |
| OrdersController.GetMyOrdersItems | Controllers/OrdersController.cs:89-95 | a listed order shows exactly its own line items, each with total price times quantity |
| OrdersController.ViewOrderItems | Controllers/OrdersController.cs:89-95 | an order's view lists exactly the line items carrying its id, each with total price times quantity |
| OrdersController.ViewItem | Controllers/OrdersController.cs:90-94 | an item view shows the line's book, quantity and price, with the line's total |
| CartController.AvailableIff | Controllers/CartController.cs:29-30 | a book is available exactly when the one book with that id is approved and in stock |
| CartController.CartSize | Controllers/CartController.cs:162-167 | the caller's row count, zero exactly when the caller has no row |
| CartController.CartSizeAppend | Controllers/CartController.cs:38 | appended rows add their caller's rows to the count |
| CartController.AddToCartSpec | Controllers/CartController.cs:19-40 | 208 exactly when the book is in the caller's cart; otherwise 417 exactly when the book is missing, unapproved or out of stock; else 200 with the new cart size; nothing changes on 208 and 417 |
| CartController.AddToCart | Controllers/CartController.cs:19-40 | the handler has the specification's status, count and tables, and keeps the database consistent |
| CartController.InCartIndex | Controllers/CartController.cs:22-23 | the lookup finds a row exactly when the caller's cart holds the book |
| CartController.AddToCartValid | Controllers/CartController.cs:34-36 | adding keeps the database consistent |
| CartController.AddToCartAddsOneRow | Controllers/CartController.cs:34-39 | a success appends exactly the row (caller, book, quantity 1) under the next key, and the cart size reported is one more than before |
| CartController.CartRowCount | Controllers/CartController.cs:38 | the new row adds one to the caller's count |
| CartController.AddToCartKeepsCartUnique | Controllers/CartController.cs:22-36 | adding keeps at most one row per (user, book) |
| CartController.RemoveFromCartSpec | Controllers/CartController.cs:79-88 | 404 exactly when the row is missing or another user's, with nothing changed; otherwise 200 with the new cart size |
| CartController.RemoveFromCart | Controllers/CartController.cs:79-88 | the handler has the specification's status, count and tables, and keeps the database consistent |
| CartController.OwnedRowIndex | Controllers/CartController.cs:82 | the caller's row with that key is found, and no other row carries that key |
| CartController.RemoveFromCartRemovesRow | Controllers/CartController.cs:84-86 | removing deletes exactly the row with that key; every other row and table stays |
| CartController.RemoveFromCartCountShrinks | Controllers/CartController.cs:84-87 | the count a removal reports is one less than before |
| CartController.ChangeQuantitySpec | Controllers/CartController.cs:107-132 | 404 exactly when the row is not the caller's; 417 only for a positive step; nothing changes unless 200 |
| CartController.ChangeQuantity | Controllers/CartController.cs:107-132 | the handler has the specification's status and tables, and keeps the database consistent |
| CartController.ChangeQuantityAt | Controllers/CartController.cs:113-129 | on the caller's row, case by case: 417 for a step up on a row already holding the stock; else the 32-bit sum is stored; a step down to 0 or below deletes the row |
| CartController.IncreaseQuantity | Controllers/CartController.cs:93-96 | the change with step +1 |
| CartController.DecreaseQuantity | Controllers/CartController.cs:101-104 | the change with step -1 |
| CartController.ChangeQuantityEdits | Controllers/CartController.cs:107-132 | a change touches only the named row's quantity or presence, and keeps the database consistent and the cart duplicate-free |
| CartController.IncreaseWithinStock | Controllers/CartController.cs:113-118 | an increase succeeds exactly when the row holds less than the stock; it then adds one, and the quantity stays within the stock |
| CartController.DecreaseLowersOrDeletes | Controllers/CartController.cs:120-128 | a decrease always succeeds: it deletes a row of quantity 1 or less and otherwise lowers the quantity by one |
| CartController.DecreaseWrapsAtInt32Min | Controllers/CartController.cs:123 | at the 32-bit minimum the decrement wraps to the maximum, and the row is kept |
| CartController.UpdateQuantitySpec | Controllers/CartController.cs:137-157 | 404 exactly when the row is not the caller's; 417 only for a positive quantity; nothing changes unless 200 |
| CartController.UpdateQuantity | Controllers/CartController.cs:137-157 | the handler has the specification's status and tables, and keeps the database consistent |
| CartController.UpdateQuantityEdits | Controllers/CartController.cs:143-154 | setting touches only the named row, and keeps the database consistent and the cart duplicate-free |
| CartController.UpdateQuantityOutcomes | Controllers/CartController.cs:143-154 | 417 exactly for a quantity above the stock; 0 or below deletes the row; otherwise the quantity is stored, within the declared range and the stock |
| CartController.LineOf | Controllers/CartController.cs:45-74 | a shown line carries the row's key and quantity, the book's fields, and price times quantity |
| CartController.CartLines | Controllers/CartController.cs:45-74 | one line per row, in order, each next to its book |
| CartController.DisplayCartItems | Controllers/CartController.cs:45-74 | as many lines as the caller's cart size, which is the count reported |
| CartController.DisplayCartItemsShowsRow | Controllers/CartController.cs:45-74 | every line shows one of the caller's rows next to its current book |
| CartController.DisplayCartItemsListsRow | Controllers/CartController.cs:45-74 | every row of the caller is shown |
| CartController.SyncRows | Controllers/CartController.cs:178-188 | the merge stages at most one row per entry, each the caller's, under consecutive keys |
| CartController.SyncRowsFresh | Controllers/CartController.cs:181-186 | every staged row names a book that is available and not in the stored cart |
| CartController.SyncRowsFromPayload | Controllers/CartController.cs:186 | every staged row carries the book and the quantity of a payload entry |
| CartController.SyncRowsComplete | Controllers/CartController.cs:181-186 | every entry for an available book that is not in the stored cart is staged, with the posted quantity |
| CartController.PlaceOrderSpec | Controllers/CartController.cs:172-193 | 500 exactly when an entry lacks its book, with nothing changed; 200 otherwise with the new cart size; no payload changes nothing |
| CartController.PlaceOrder | Controllers/CartController.cs:172-193 | the merge loop stages the specification's rows, and the handler has its status, count and tables |
| CartController.MergeOne | Controllers/CartController.cs:180-187 | one pass of the merge loop |
| CartController.PlaceOrderMerged | Controllers/CartController.cs:176-190 | a full payload appends the staged rows under the next keys and answers 200 |
| CartController.PlaceOrderValid | Controllers/CartController.cs:172-193 | the merge keeps the database consistent |
| CartController.PlaceOrderOnlyAddsCallersRows | Controllers/CartController.cs:176-190 | the merge only appends rows of the caller under the next keys; stored rows and other tables stay |
| CartController.PlaceOrderHoldsAvailable | Controllers/CartController.cs:181-186 | afterwards the caller's cart holds a posted book exactly when it held it before or the book is available |
| CartController.PlaceOrderKeepsCartUnique | Controllers/CartController.cs:176-190 | a payload naming each book once keeps the caller's cart duplicate-free |
| CartController.PlaceOrderDuplicateLoophole | Controllers/CartController.cs:181 | a consistent, duplicate-free database exists where a successful merge leaves two rows for one (user, book): the payload names the book twice |
| CartController.PlaceOrderStoresNegativeQuantity | Controllers/CartController.cs:186 | a successful merge can store a negative quantity, outside the declared range of a cart quantity |
| SellersController.OwnedLookup | Controllers/SellersController.cs:48 | the lookup by (id, seller) fails exactly when the caller owns no book with that id |
| SellersController.SellerBooks | Controllers/SellersController.cs:95 | exactly the caller's books |
| SellersController.GetBooksCount | Controllers/SellersController.cs:127-132 | the caller's book count, zero exactly when the caller has no book |
| SellersController.AddBookSpec | Controllers/SellersController.cs:19-41 | the new book takes the next id and is appended after all existing books; the reported count is the caller's count afterwards |
| SellersController.AddBook | Controllers/SellersController.cs:19-41 | 201, with the specification's count, id and tables, keeping the database consistent |
| SellersController.AddBookCreatesDraft | Controllers/SellersController.cs:23-37 | the new book is the caller's, carries the body's fields, is a draft never rejected, and is the only change |
| SellersController.AddBookCountGrows | Controllers/SellersController.cs:39 | the reported count is the caller's count before, plus one |
| SellersController.UpdateBookSpec | Controllers/SellersController.cs:45-65 | 404 exactly when the caller owns no such book, with nothing changed; 200 otherwise |
| SellersController.UpdateBook | Controllers/SellersController.cs:45-65 | the handler has the specification's status and tables, and keeps the database consistent |
| SellersController.UpdateBookEffects | Controllers/SellersController.cs:51-62 | the five fields are overwritten; an approved book goes back to draft with no rejections; any other keeps its flags and count; nothing else changes |
| SellersController.RemoveBookSpec | Controllers/SellersController.cs:69-88 | 404 exactly when the caller owns no such book, with nothing changed; 200 otherwise |
| SellersController.RemoveBook | Controllers/SellersController.cs:69-88 | the handler has the specification's status and tables, and keeps the database consistent |
| SellersController.DeleteBook | Controllers/SellersController.cs:85-86 | removing a book applies the cascade the context declares |
| SellersController.RemoveOrderedBookWithdraws | Controllers/SellersController.cs:76-83 | a book with past orders stays, with stock 0 and not approved; its submission flag and rejection count are kept; nothing else changes |
| SellersController.RemoveUnorderedBookDeletes | Controllers/SellersController.cs:85-87 | a book never ordered is deleted, together with every cart row, wish-list row and review that named it, and every line item stays |
| SellersController.SendForApprovalSpec | Controllers/SellersController.cs:104-113 | 404 exactly when the caller owns no such book, with nothing changed; 200 otherwise |
| SellersController.SendForApproval | Controllers/SellersController.cs:104-113 | the handler has the specification's status and tables, and keeps the database consistent |
| SellersController.SendForApprovalPhases | Controllers/SellersController.cs:110 | only the submission flag is set: a draft or pending book becomes pending, and an approved one becomes approved and pending |
| SellersController.SendForApprovalBreaksApprovedNotPending | Controllers/SellersController.cs:110 | a consistent database exists where submitting an approved book leaves it approved and pending |
| SellersController.DisplayBooks | Controllers/SellersController.cs:92-100 | 500 exactly when the 32-bit offset or the size is negative, which MySQL refuses; otherwise 200 with at most pageSize of the caller's books and the caller's book count as the total |
| SellersController.DisplayBooksWindow | Controllers/SellersController.cs:95-98 | a page served with 200 has the caller's books in id order, skipping (pageNo - 1) * pageSize in 32-bit arithmetic and keeping at most pageSize |
| SellersController.DisplayBooksOffsetWraps | Controllers/SellersController.cs:98 | the page number is not clamped (page 0 of size 5 has offset -5), and the 32-bit offset wraps (page 2^30 + 1 of size 4 has offset 0) |
| SellersController.DisplayBooksPageZeroRefused | Controllers/SellersController.cs:98 | page 0 is refused with 500, and page 2^30 + 1 of size 4 shows exactly page 1 |
| SellersController.SearchMyBooks | Controllers/SellersController.cs:117-123 | exactly the caller's books whose name contains the query |
| AdminController.GetSellersForVerification | Controllers/AdminController.cs:17-26 | exactly the vendors owning a book that was sent and is not approved |
| AdminController.GetBooksForVerification | Controllers/AdminController.cs:30-44 | one entry per book of the seller that was sent and is not approved |
| AdminController.GetBooksForVerificationComplete | Controllers/AdminController.cs:33 | every such book of the seller is listed |
| AdminController.ApprovesIff | Controllers/AdminController.cs:51 | the verdict approves exactly for "true" in any letter case |
| AdminController.VerifyBookSpec | Controllers/AdminController.cs:48-70 | 404 exactly when no book has that id and seller, with nothing changed; the reply says whether the verdict approved |
| AdminController.VerifyBook | Controllers/AdminController.cs:48-70 | the handler has the specification's status, verdict and tables, and keeps the database consistent |
| AdminController.VerifyBookEffects | Controllers/AdminController.cs:54-67 | approval makes the book approved and keeps its rejection count; rejection makes it a draft and adds one rejection; it leaves the queue either way; no other field changes |
| AdminController.VerifyBookApprovesDraft | Controllers/AdminController.cs:52-57 | a consistent database exists where a draft that was never submitted is approved directly |
| ReviewController.AddReviewSpec | Controllers/ReviewController.cs:19-47 | 403 exactly without a matching purchase; then 400 exactly for a book already reviewed; else 200 with one review more; nothing changes on 403 and 400 |
| ReviewController.AddReview | Controllers/ReviewController.cs:19-47 | the handler has the specification's status and tables, and keeps the database consistent |
| ReviewController.AddReviewValid | Controllers/ReviewController.cs:37-45 | a review keeps the database consistent |
| ReviewController.AddReviewAddsOne | Controllers/ReviewController.cs:37-45 | on success the only change is one review carrying the caller, the book, the content, the rating and the time, under a fresh id |
| ReviewController.AddReviewIgnoresRating | Controllers/ReviewController.cs:37-45 | the status is the same whatever rating is sent, so a rating outside 1 to 5 is stored |
| ReviewController.AddReviewKeepsReviewsUnique | Controllers/ReviewController.cs:31-44 | a review keeps at most one review per (user, book) |
| ReviewController.LastOrderItem | Controllers/ReviewController.cs:73-76 | the line item chosen is one of the caller's from a latest-dated order; there is none exactly when the caller has no line item |
| ReviewController.AddQuickReviewSpec | Controllers/ReviewController.cs:68-82 | without a line item of the caller the answer is 400 with nothing changed |
| ReviewController.AddQuickReview | Controllers/ReviewController.cs:68-82 | the handler has the specification's status and tables, and keeps the database consistent |
| ReviewController.AddQuickReviewOutcomes | Controllers/ReviewController.cs:77-81 | the quick review never answers 403; it answers 400 exactly when there is no line item or the chosen book is already reviewed, and 200 otherwise |
| ReviewController.GetReviews | Controllers/ReviewController.cs:52-63 | one entry per review of the book, each the view of such a review |
| ReviewController.GetReviewsComplete | Controllers/ReviewController.cs:54-61 | every review of the book is listed |
| WishlistsController.WishRows | Controllers/WishlistsController.cs:43-46 | exactly the caller's rows |
| WishlistsController.WishCount | Controllers/WishlistsController.cs:33 | the caller's row count, zero exactly when the caller has no row |
| WishlistsController.AddToWishlistSpec | Controllers/WishlistsController.cs:19-35 | 208 exactly when the pair is listed; otherwise 500 exactly when the book does not exist (the foreign key fails); else 200 with the caller's count afterwards; nothing changes unless 200 |
| WishlistsController.AddToWishlist | Controllers/WishlistsController.cs:19-35 | the handler has the specification's status, count and tables, and keeps the database consistent |
| WishlistsController.AddToWishlistValid | Controllers/WishlistsController.cs:29-31 | adding keeps the database consistent |
| WishlistsController.AddToWishlistKeepsPairsUnique | Controllers/WishlistsController.cs:23-31 | adding keeps at most one row per (user, book) |
| WishlistsController.AddToWishlistAddsOne | Controllers/WishlistsController.cs:29-31 | a success appends exactly the row (caller, book) under the next id, and nothing else changes |
| WishlistsController.AddToWishlistCountGrows | Controllers/WishlistsController.cs:33-34 | the reported count is the caller's count before, plus one |
| WishlistsController.RemoveFromWishlistSpec | Controllers/WishlistsController.cs:64-77 | 404 exactly when the pair is not listed, with nothing changed; otherwise 200 with the caller's count afterwards |
| WishlistsController.RemoveFromWishlist | Controllers/WishlistsController.cs:64-77 | the handler has the specification's status, count and tables, and keeps the database consistent |
| WishlistsController.WishIndex | Controllers/WishlistsController.cs:67 | the row of the pair is found, and no other row has that pair |
| WishlistsController.RemoveFromWishlistRemovesRow | Controllers/WishlistsController.cs:72-73 | removing deletes exactly the row of the pair; every other row and table stays |
| WishlistsController.RemoveFromWishlistCountShrinks | Controllers/WishlistsController.cs:75-76 | the reported count is the caller's count before, minus one |
| WishlistsController.WishLines | Controllers/WishlistsController.cs:48-57 | one entry per row, in order, each showing the row's book |
| WishlistsController.ViewWishlist | Controllers/WishlistsController.cs:40-59 | as many entries as the caller has rows |
| WishlistsController.ViewWishlistShowsRow | Controllers/WishlistsController.cs:43-57 | every entry shows the current book of one of the caller's rows |
| WishlistsController.ViewWishlistListsRow | Controllers/WishlistsController.cs:43-57 | every row of the caller is shown by its current book |
| AddressController.AddAddressSpec | Controllers/AddressController.cs:18-40 | the upsert never shrinks the address table |
| AddressController.AddAddress | Controllers/AddressController.cs:18-40 | 200, with the specification's tables, keeping the database consistent |
| AddressController.AddAddressValid | Controllers/AddressController.cs:22-38 | the upsert keeps the database consistent |
| AddressController.SlotIndex | Controllers/AddressController.cs:22 | with one address per (user, exact type), the lookup finds exactly that address |
| AddressController.AddAddressOverwrites | Controllers/AddressController.cs:23-32 | an existing address of that type has its seven fields overwritten from the body and keeps its id, owner and type; nothing else changes |
| AddressController.AddAddressAppends | Controllers/AddressController.cs:33-37 | otherwise the body is appended under the next id, owned by the caller whatever it said |
| AddressController.AddAddressKeepsSlotsUnique | Controllers/AddressController.cs:22-38 | the upsert keeps one address per (user, exact type), and other users' addresses are unchanged |
| AddressController.GetAddressByType | Controllers/AddressController.cs:45-51 | the caller's address of exactly that type; there is none exactly when the caller has no address of that type |
| AddressController.GetAddressStatus | Controllers/AddressController.cs:48-50 | 404 exactly when there is no such address, 200 otherwise |
| AddressController.GetAddressAfterAdd | Controllers/AddressController.cs:22-50 | after an upsert, the lookup by that type returns the fields just written |
| BooksController.ReviewCount | Controllers/BooksController.cs:32 | the number of reviews naming the book, zero exactly when there is none |
| BooksController.ListingShowsBook | Controllers/BooksController.cs:20-32 | an entry shows the book's columns and its review count |
| BooksController.Listings | Controllers/BooksController.cs:18-33 | one entry per book passing the filter, each the entry of such a book, and every such book is listed |
| BooksController.GetAllBooks | Controllers/BooksController.cs:15-35 | exactly the approved books, as many as the approved count |
| BooksController.GetBookCount | Controllers/BooksController.cs:39-43 | the number of approved books, zero exactly when none is approved |
| BooksController.ByPriceDesc | Controllers/BooksController.cs:65 | prices never rise, and the sort is a permutation |
| BooksController.ByPriceAsc | Controllers/BooksController.cs:89 | prices never fall, and the sort is a permutation |
| BooksController.GetBooksByPriceDesc | Controllers/BooksController.cs:47-67 | a permutation of the approved listing in which prices never rise |
| BooksController.GetBooksByPriceAsc | Controllers/BooksController.cs:71-91 | a permutation of the approved listing in which prices never fall |
| BooksController.PriceSortsListApproved | Controllers/BooksController.cs:47-91 | both price orders list exactly the approved entries |
| BooksController.ClampPage | Controllers/BooksController.cs:97 | a page number below 1 is read as 1, any other is kept |
| BooksController.GetBookByPage | Controllers/BooksController.cs:95-119 | 500 exactly when the 32-bit offset of the clamped page or the size is negative, which MySQL refuses; otherwise 200 with at most pageSize approved entries and the approved count as the total |
| BooksController.PageById | Controllers/BooksController.cs:115-117 | at most pageSize entries, all taken from the listing |
| BooksController.GetBookByPageClamps | Controllers/BooksController.cs:97 | every page number below 1 shows page 1 |
| BooksController.GetBookByPageWindow | Controllers/BooksController.cs:114-118 | a page served with 200 skips (clamped page - 1) * pageSize approved entries, in 32-bit arithmetic and in id order, and keeps at most pageSize; page 1 of a non-negative size is served and starts at the first |
| BooksController.GetBookByPageRefusesNegative | Controllers/BooksController.cs:116-117 | a negative size is refused with 500, and so is page 2^29 + 1 of size 4, whose offset wraps to -2^31 |
| BooksController.SearchHits | Controllers/BooksController.cs:125 | exactly the approved books whose author or name contains the text |
| BooksController.SearchByText | Controllers/BooksController.cs:123-143 | one entry per selected book, in table order |
| BooksController.SearchEmptyTextListsAll | Controllers/BooksController.cs:125 | the empty text lists the whole approved catalogue |
| UsersController.RegisterStatus | Controllers/UsersController.cs:22-48 | the reply is 201 exactly for a registration and 409 exactly for a taken email or user name |
| UsersController.RegisterSpec | Controllers/UsersController.cs:17-49 | 500 exactly when decryption fails; then 409 exactly for a taken email; then 409 exactly for a taken user name; nothing changes unless 201 |
| UsersController.Register | Controllers/UsersController.cs:17-49 | the handler has the specification's status and tables, and keeps the database consistent |
| UsersController.RegisterValid | Controllers/UsersController.cs:31-43 | registration keeps the database consistent |
| UsersController.RegisterAddsAccount | Controllers/UsersController.cs:31-43 | a success appends exactly one account under the next id: verified, with the body's fields and the hash of the decrypted password |
| UsersController.RegisterKeepsAccountsUnique | Controllers/UsersController.cs:22-43 | registration keeps emails unique and user names unique |
| UsersController.RegisterEmailCheckedFirst | Controllers/UsersController.cs:22-29 | a taken email is reported whether or not the user name is also taken |
| UsersController.Login | Controllers/UsersController.cs:53-83 | 500 exactly when decryption fails; 200 exactly when a user is returned, which is then a matching, verified account with the right hash |
| UsersController.LoginDecision | Controllers/UsersController.cs:57-68 | on the first matching user: 401 exactly when the hashes differ; 403 exactly for the right hash on an unverified account; 200 exactly for the right hash on a verified one |
| UsersController.LoginUnknown | Controllers/UsersController.cs:57-63 | without a user of that login id and role the answer is 401 |
| UsersController.LoginFirstMatchShadows | Controllers/UsersController.cs:57-60 | a database exists, with unique emails and user names, where a user cannot log in with the right password because an earlier user's email equals the login id |
| UsersController.ForgotPassword | Controllers/UsersController.cs:87-106 | 404 exactly for an unknown email, 200 otherwise; the store is unchanged either way |
| UsersController.ResetPasswordSpec | Controllers/UsersController.cs:110-126 | 400 exactly when no user has the body's email; 500 exactly when there is one but the new password does not decrypt; 202 exactly when there is one and it decrypts; nothing changes unless 202 |
| UsersController.ResetPassword | Controllers/UsersController.cs:110-126 | the handler has the specification's status and tables, and keeps the database consistent |
| UsersController.ResetPasswordEffects | Controllers/UsersController.cs:114-125 | with unique emails, only the password hash of the account with that email changes, to the hash of the new password, whatever the token |
| UsersController.VerifyEmailSpec | Controllers/UsersController.cs:130-142 | 400 exactly when no unverified user's id prints as the token; otherwise 202 |
| UsersController.VerifyEmail | Controllers/UsersController.cs:130-142 | the handler has the specification's status and tables, and keeps the database consistent |
| UsersController.VerifyEmailEffects | Controllers/UsersController.cs:133-141 | the token of an unverified user's id verifies exactly that user and changes nothing else |
| UsersController.VerifyEmailRefusesVerified | Controllers/UsersController.cs:133-137 | the token of an account already verified is refused with 400 |
| UsersController.Supplied | Controllers/UsersController.cs:163-164 | a supplied value replaces the current one exactly when it is present and not empty |
| UsersController.UpdateProfileSpec | Controllers/UsersController.cs:157-167 | 404 exactly when no user has the caller's id, with nothing changed; 200 otherwise |
| UsersController.UpdateProfile | Controllers/UsersController.cs:157-167 | the handler has the specification's status and tables, and keeps the database consistent |
| UsersController.UpdateProfileEffects | Controllers/UsersController.cs:163-165 | only the caller's name and mobile number can change, each exactly when a non-empty value is supplied; every other field and row stays |
| UserValidation.WordsIff | Models/User.cs:19 | `[A-Za-z]+(S[A-Za-z]+)*` for a separator class S matches exactly the strings with a letter at both ends, only letters and separators, and no two separators in a row |
| UserValidation.ValidEmailIff | Models/User.cs:12-16 | a valid email is one of at most 100 characters that the pattern matches; the pattern alone implies the required and the `@` rules |
| UserValidation.LocalPartHasNoAt | Models/User.cs:14 | the part before the pattern's `@` holds no `@` |
| UserValidation.DomainPartHasNoAt | Models/User.cs:14 | the part after the pattern's `@` holds no `@` |
| UserValidation.EmailAcceptsDoubleDot | Models/User.cs:14 | "a..@x.com" is valid: the part before the `@` may hold two dots in a row and end in a dot |
| UserValidation.ValidNameIff | Models/User.cs:18-21 | a valid name is 3 to 50 characters of letters and single white-space characters, with a letter at both ends |
| UserValidation.NameAcceptsTab | Models/User.cs:19 | a tab may separate the words of a name |
| UserValidation.ValidUserNameIff | Models/User.cs:23-26 | a valid user name is 4 to 16 ASCII letters and digits |
| UserValidation.ValidPasswordIff | Models/User.cs:28-30 | a valid password is 8 to 16 characters without a line feed, with a digit, a lower-case and an upper-case letter |
| UserValidation.ValidMobileIff | Models/User.cs:34-36 | a valid mobile number is exactly ten digits; the bound of 15 adds nothing |

## Left out

- I/O, concurrency and transactions are not modelled. Each request is one atomic step over the tables, so races between the stock test and the deduction of a checkout, and partial failure between two `SaveChanges` calls, are absent.
- Decryption, hashing and token creation are left out: `DecryptPassword` and `HashPassword` are function parameters, login compares hashes, and no JWT token is produced.
- E-mail sending and GUID generation in `ForgotPassword` are left out (they are randomness and I/O).
- `UploadImage` and every image field are left out (file-system I/O).
- `Logout` changes no state and returns 200, so it has no model.
- The caller's id and the current time are parameters. Claim parsing, authorisation attributes and role gating are not modelled.
- The JSON shaping of replies is not modelled. Only the status and the computed data are.
- The 208 of `AddToCart` and `AddToWishlist` travels inside an HTTP 200 reply. The model reports the 208.
- `averageRating` in the catalogue listings is not modelled (it is a floating-point average).
- Model binding is not modelled. The validators are standalone predicates over ASCII strings, and whether the framework applies them on a given endpoint is out of scope.
- .NET's Unicode `\d` and `\s` are reduced to ASCII digits and ASCII white space.
- Case-insensitive comparison (`ToLower`) covers ASCII letters only.
- Strings compare ordinally; database collation is not modelled.
- A database `ORDER BY` leaves the order of equal keys open. The model's sort keeps table order.
- A null search text is not modelled.
- A null cart guest payload is modelled as no payload. A null entry, or an entry without a book, is modelled as a 500 before anything is saved.
- A non-zero `AddressId` in the body of `AddAddress` is ignored on insert: the model always assigns the next id.
- Foreign keys that point at users are not part of `Valid()`: the caller's id is taken as given. No handler deletes a user.
- DeleteUserCascade: the user's addresses stay. `Address.UserId` is a required key and would cascade by convention, but another user's order may name such an address through the optional `Order.AddressId`. By convention that key is set to null only on tracked rows, and the database otherwise refuses the deletion. The model's total function represents neither outcome.
- The 500 of a refused page query follows MySQL's rule that `LIMIT` and `OFFSET` are non-negative. Other database providers are not modelled.
- DeductAll: stock is subtracted without 32-bit wrap-around, so an overflow of a book's stock is not modelled.
- VerifyBookSpec: the rejection count grows without 32-bit wrap-around.
- AddQuickReviewSpec: its own contract states only the case without a line item. The other outcomes are stated by `ReviewController.AddQuickReviewOutcomes`.
- AddAddressSpec: its own contract states only that the table does not shrink. The upsert's effects are stated by `AddressController.AddAddressOverwrites`, `AddressController.AddAddressAppends` and `AddressController.AddAddressKeepsSlotsUnique`.
- Prices are C# `decimal` values, modelled as exact `real`s. Decimal overflow and rounding are not modelled.
- The migrations and the program's wiring are not part of this model.
