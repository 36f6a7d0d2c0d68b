# Storefront cart, checkout and catalog — a Dafny model

This project models the core of a small Django storefront:
- the cart views (`add_to_cart`, `remove_from_cart`, `update_cart`, and the total shown by `cart`);
- checkout (`place_order`) and cancellation (`cancel_order`);
- the filtering and ordering of the catalog listing (`products`);
- the human-facing order id (`generate_order_id`);
- the record shapes, invariants and delete policies of the models those views touch.

The database is an immutable `Store` value:
- Each table is a map from primary key to row. Next-id counters stand for the auto-increment sequences.
- Carts are keyed by user, so one cart per user holds by construction (`Cart.user` is one-to-one).
- Money is integer cents, because every price column is a two-decimal `DecimalField`.

Every view that writes is a pure function from a store and the request's inputs to a `Reply(next, failure)`. The read-only views return what they show: `CartView` gives an optional page, and `ListProducts` gives the listed product ids. A failure may still change the store, exactly where the code does so:
- `add_to_cart` creates the cart before its later checks can fail.
- The item inserts and line deletions of `place_order` run outside its `transaction.atomic()` block.

To expose that, `PlaceOrder` takes a `fault` parameter that names the database write that fails:
- `0` is the header insert, the only atomic write.
- `1..k` are the `k` item inserts.
- `k+1..2k` are the line deletions.

Writes before the failing one persist.

Files:
- `order_ids.dfy` (module `OrderIds`): `generate_order_id`, with the clock reading passed in.
- `models.dfy` (module `Models`): the records, the invariant `Valid`, the `Status` choices and the delete policies.
- `cart.dfy` (module `CartViews`): the cart views, and the cart total as a reference sum proved equal to the aggregate and to a loop.
- `checkout.dfy` (module `Checkout`): `place_order` and `cancel_order`. Most lemmas are stated on `Commit`, which is `place_order` after the cart lookup, with the generated id as a parameter.
- `catalog.dfy` (module `Catalog`): the filter form's effect on the listing, and the four sort keys.

Behaviour that follows the code rather than the intended design:
- **Checkout atomicity.** Checkout is not all-or-nothing. Only a failing header insert, such as a duplicate `order_id`, leaves nothing behind. A failure during the item inserts leaves an order with only some of its items (`FailedItemInsertLeavesPartialOrder`).
- **Empty cart.** Checking out an empty cart creates an order with subtotal 0; nothing refuses it.
- **No cart.** A user without a cart gets `NoCart` at checkout, and nothing is written. In the code this is an unhandled exception raised before any write.
- **Cancelling.** `cancel_order` does not compare the requester with the order's owner, and it deletes the order rather than setting its status.
- **Default listing order.** The listing is ordered by `-created_at` unless a sort key is chosen. The sort key is read even when the form is invalid.
- **Price bounds.** A maximum price of 0 is ignored (truthiness test). A minimum of 0 applies (`is not None` test).
- **Duplicate adds.** The one-line-per-product rule of a cart is kept only by the check in `add_to_cart`; the database has no such constraint.

## Model

| member | source | states |
|---|---|---|
| OrderIds.Decimal | store/utils.py:6 | The rendering of one field is non-empty, all digits, has no leading zero for a positive number, and is one character long exactly when the number is below ten. |
| OrderIds.DecimalRoundTrip | store/utils.py:6 | Reading a field's digits back yields the number, so each field's rendering loses nothing on its own. |
| OrderIds.GenerateOrderId | store/utils.py:4-6 | The id consists of digits only and has at least six characters, one per field. |
| OrderIds.SameMinuteSameId | store/utils.py:5-6 | Two clock readings that agree down to the minute give the same id for the same user, whatever the seconds and microseconds. |
| OrderIds.MonthDayCollision | store/utils.py:6 | Month 1 with day 11 and month 11 with day 1 give the same id, so the generator is not injective. |
| OrderIds.UserHourCollision | store/utils.py:6 | User 1 at hour 12 and user 11 at hour 2 give the same id, so two users can collide in one minute. |
| OrderIds.OrderIdFitsColumn | store/models.py:73 | For a four-digit year, two-digit month, day, hour and minute, and a user id below 10^18, the id fits the 30-character `order_id` column. |
| Models.ParseStatus | store/models.py:60-65 | Reading a status column value gives back a status whose value is that string, and every one of the five values is accepted. |
| Models.StatusRoundTrip | store/models.py:60-76 | Every status survives a round trip through its stored value, and that value fits the 20-character column. |
| Models.EmptyStore | store/models.py:30-108 | An empty database satisfies every invariant. |
| Models.DeleteOrder | store/models.py:90-95 | Deleting an order removes that order and exactly the items that belong to it (cascade), and nothing else. |
| Models.DeleteOrderPreservesValid | store/models.py:90-95 | The cascade leaves no item pointing at a missing order, so the invariant holds afterwards. |
| Models.DeleteProduct | store/models.py:96-99 | A product referenced by an order item cannot be deleted (protect). Otherwise deleting it removes exactly its cart lines (cascade, store/models.py:40). A missing product is reported. A refused deletion changes nothing. |
| Models.DeleteProductPreservesValid | store/models.py:39-48 | After either outcome no cart line or order item refers to a missing product. |
| CartViews.GetOrCreateCart | store/views.py:102 | Returns the user's existing cart unchanged, or creates exactly one new cart with an unused id. No other user's cart changes, and the invariant is kept. |
| CartViews.GetOrCreateCartIdempotent | store/views.py:102 | Asking twice gives the same cart and store as asking once, so a user never gets a second cart. |
| CartViews.AddToCart | store/views.py:98-128 | Succeeds exactly when the product exists, the cart has no line for it, and the quantity is an integer the `PositiveIntegerField` column accepts (store/models.py:48): 0 up to PostgreSQL's 2^31-1. A larger quantity fails the insert, which the exception handler reports, and the cart stays. A missing or non-integer quantity field is refused as not an integer; the view's `except Exception` catches the `TypeError` of `int(None)` too. A success adds exactly one line to the user's cart with the requested quantity. A missing product changes nothing. A duplicate add changes nothing if the cart already existed. Any failure changes at most the lazily created cart. |
| CartViews.AddToCartPreservesValid | store/views.py:104-120 | Adding keeps every invariant, in particular one line per product per cart. |
| CartViews.AddTwiceRejected | store/views.py:104-108 | Adding the same product a second time is refused with `AlreadyInCart` and changes nothing, whatever the quantity. |
| CartViews.RemoveFromCart | store/views.py:131-146 | The view as evidently intended. A missing line id is refused with `LineNotFound` and changes nothing. Otherwise exactly that line is deleted, from whichever cart holds it, and every other line is unchanged. |
| CartViews.RemoveFromCartPreservesValid | store/views.py:131-146 | Removing a line keeps every invariant. |
| CartViews.RemoveFromCartAsWritten | store/views.py:131-146 | The view as written. An existing line is deleted and nothing else changes. For a missing line the view falls off its end, so the request is a server error (`Unhandled`) and nothing changes. |
| CartViews.RemoveFromCartAsWrittenSameStore | store/views.py:135-146 | For every line id, both versions leave the same store. Their failures differ exactly when the line does not exist. |
| CartViews.RemoveTwiceFails | store/views.py:133-136 | A second removal of the same line fails: the corrected view reports `LineNotFound`, and the view as written ends in a server error with no change. |
| CartViews.UpdateCart | store/views.py:149-174 | The view as evidently intended. It succeeds exactly when the line exists and the quantity is an integer the column accepts. A negative quantity is refused with `NegativeQuantity`. A quantity above the column maximum, or a missing quantity field (`int(None)` raises `TypeError`, which `except ValueError` does not catch), ends in an uncaught error. A success sets only that line's quantity and changes no other line or table. Every failure changes nothing. |
| CartViews.UpdateCartPreservesValid | store/views.py:149-174 | Updating keeps every invariant. |
| CartViews.UpdateCartAsWritten | store/views.py:160-171 | The view as written. A quantity the column accepts is stored on the line. Any other integer, negative or too large, reaches `save()`, which the column refuses. That error is uncaught (`Unhandled`), as is a missing quantity field, and nothing is written. |
| CartViews.UpdateCartAsWrittenSameStore | store/views.py:167-171 | For every request, the view as written and the corrected view leave the same store. Their failures differ exactly when the line exists and the quantity is a negative integer. |
| CartViews.UpdateCartAsWrittenFailsUnhandled | store/views.py:167-171 | For any existing line and any negative quantity, the view as written ends in an uncaught error after queuing its message. The corrected view refuses with `NegativeQuantity`. Neither changes the store. |
| CartViews.CartLineIds | store/views.py:187 | The rows of the cart are exactly its lines. |
| CartViews.CartAggregateIsTotal | store/views.py:187-194 | `Sum` of the annotated `price * quantity` over the cart's rows equals the reference total: the sum over every line of the cart of its product's price times its quantity. |
| CartViews.CartView | store/views.py:178-202 | A user without a cart gets no page. Otherwise there is one row per cart line, each carrying that line's price times quantity, and the page total equals both the sum of the rows and the reference cart total. |
| CartViews.ComputeCartTotal | store/models.py:51-53 | A running sum of `CartProduct.total_price` over the cart's lines, one line at a time, equals the reference cart total, and so the aggregate the cart page shows (store/views.py:187-194). |
| CartViews.EmptyCartTotalIsZero | store/views.py:194 | A cart with no lines totals zero (`or 0`). |
| CartViews.AddToCartTotal | store/views.py:118-120 | A successful add raises the user's cart total by the product's price times the quantity, and leaves every other cart's total unchanged. |
| CartViews.RemoveFromCartTotal | store/views.py:142 | A removal lowers the total of the line's cart by that line's total, and leaves every other cart's total unchanged. |
| CartViews.UpdateCartTotal | store/views.py:170-171 | An update changes the total of the line's cart by the price times the change in quantity, and leaves every other cart's total unchanged. |
| Checkout.PlaceOrder | store/views.py:206-254 | A user without a cart gets `NoCart` with no change. An id already taken gives `DuplicateOrderId` with no change. A failing header insert leaves the store as it was. It succeeds exactly when the user has a cart, the id is free and no write fails. Products and carts are never changed. |
| Checkout.Commit | store/views.py:220-249 | The same outcomes as `PlaceOrder`, for a given generated id and a user known to have a cart. |
| Checkout.CheckoutCopiesCart | store/views.py:211-241 | A successful checkout adds one Pending order whose subtotal is the cart total and whose tax, shipping cost and total are 0. It adds one item per cart line, copying the product's name and current price and the line's quantity. It empties the user's cart. No other order, item or line changes. |
| Checkout.PlaceOrderPreservesValid | store/views.py:220-241 | Every outcome of checkout keeps the invariant, partial ones included. In particular order ids stay unique and items point at existing orders and products. |
| Checkout.FailedItemInsertLeavesPartialOrder | store/views.py:223-241 | When the insert of item `j` fails, the new order header stays, holding exactly the items before `j`, and every cart line stays. Checkout is not all-or-nothing. |
| Checkout.SameMinuteCheckoutFails | store/views.py:221-245 | A second checkout by the same user within the same minute fails as a duplicate id and changes nothing. |
| Checkout.CrossUserCheckoutCollides | store/views.py:221-245 | User 1 checking out at 12:mm makes a later checkout by user 11 at 2:mm the same day fail as a duplicate. |
| Checkout.PlacedItemsSumToSubtotal | store/views.py:211-238 | The new order's items, each priced at its snapshot price, add up to the order's subtotal. |
| Checkout.SnapshotSurvivesPriceChange | store/models.py:100-105 | After checkout, changing a product's price does not change any new item's total, which stays the line total at checkout time. For an item of that product with a non-zero quantity, the total no longer equals the quantity at the product's new price. |
| Checkout.CancelOrder | store/views.py:258-268 | Succeeds exactly when the order exists, whoever the requester is. It then deletes the order and, by cascade, its items and nothing else. A missing order changes nothing. |
| Checkout.CancelOrderPreservesValid | store/views.py:258-268 | Cancelling keeps every invariant. |
| Checkout.CancelAfterCheckout | store/views.py:260-265 | Cancelling the order that checkout just made restores the order and item tables, but the cart's lines do not come back. |
| Catalog.ParseSortKey | store/form.py:4-11 | A submitted value is accepted exactly when it is one of the four choices, and then it names that choice. |
| Catalog.SortKeyRoundTrip | store/form.py:4-11 | Every sort key survives a round trip through its submitted value. |
| Catalog.ContainsIffOccurs | store/views.py:37-40 | The substring test holds exactly when the term occurs at some position of the name. |
| Catalog.CaseInsensitive | store/views.py:37-40 | `icontains` ignores ASCII case: lower-casing either the name or the term first does not change the outcome. |
| Catalog.IContainsItself | store/views.py:37-40 | Every name matches itself as a search term. |
| Catalog.Where | store/views.py:37-64 | One `filter` call keeps exactly the rows that satisfy its condition, and no row appears twice. |
| Catalog.Filtered | store/views.py:34-64 | The four guarded filter calls keep exactly the rows the reference selection accepts. With a valid form: name contains the term if one is given, price at least the minimum if one is given, at most the maximum if one is given and non-zero, and some chosen category if any are chosen. With an invalid form every row is kept. |
| Catalog.SortBy | store/views.py:66-76 | The result is a permutation of the rows, ordered by the key: ascending price, descending price, ascending or descending creation time. |
| Catalog.OrderOf | store/views.py:30-76 | The chosen key's rank orders two products exactly as the view's `order_by` chain does for the submitted value: ascending or descending price, oldest first, or newest first. Newest first also covers no key, the initial `-created_at`. |
| Catalog.ScanTable | store/views.py:30 | Listing the table yields every product exactly once. |
| Catalog.ListProducts | store/views.py:28-76 | The listing holds exactly the products the form selects, each once, ordered by the form's key. |
| Catalog.MaxZeroIgnored | store/views.py:51-56 | A maximum price of zero selects exactly what no maximum selects. |
| Catalog.MinZeroApplied | store/views.py:43-48 | A minimum price of zero is applied, and excludes any product with a negative price. |
| Catalog.NameTermNarrows | store/views.py:35-40 | Adding a name term to a form that had none never adds a product to the selection. |
| Catalog.PriceDescIsDescending | store/views.py:71-72 | Under `price_desc` each listed price is at least every later one. |
| Catalog.DefaultIsNewestFirst | store/views.py:30 | Without a sort key each listed product is at least as new as every later one. |

## Left out

- **Pagination.** `Paginator(products, 16)` and `get_page` are library behaviour.
- **Other views.** The `home` and `product_detail` views only render.
- **Accounts.** Authentication, registration and sessions are library calls. The logged-in user is a parameter.
- **Presentation.** Messages, redirects, templates and `print` calls are left out.
- **Clock.** `datetime.now()` is a `Timestamp` parameter.
- **Concurrency.** Concurrent requests, transaction isolation, and the check-then-insert race of `add_to_cart` are sequential-model gaps. Every request is atomic with respect to the others.
- **Form cleaning.** `ProductFiltereForm`'s field cleaning is taken as done. `FilterForm` holds `is_valid()` and the cleaned values, such as whitespace stripping and the 60-character name limit.
- **Duplicate category rows.** The join in `categories__in` can repeat a product that has several of the chosen categories. The listing holds each selected product once.
- **Non-ASCII case.** `icontains` is modelled with ASCII case folding, which is what SQLite's `LIKE` does. Other backends also fold non-ASCII letters.
- **Row order.** Rows of `CartProduct` are read in ascending primary-key order (`CartViews.CartLineIdsIncreasing`). The code asks for no order, and no property depends on it except which item number each line gets.
- **Unused fields.** `featured` (read only by `home`), the status labels, images, descriptions, `updated_at`, `added_at`, `__str__` and `Category` rows are left out. A product carries only its category ids.
- **Nullable `created_at`.** It is modelled as always set.
- **User deletion.** Its cascade to the cart and its protection of orders are not modelled, because no core view deletes users.
- CartViews.AddToCart: the quantity maximum is PostgreSQL's 2^31-1. MySQL's `integer UNSIGNED` column holds up to 2^32-1 and SQLite up to 2^63-1, so on those backends the model fails some inserts the database would accept.
- CartViews.UpdateCart: the same PostgreSQL maximum applies, with the same MySQL and SQLite difference. The lower bound 0 holds on every backend.
- CartViews.UpdateCartAsWritten: the same PostgreSQL maximum applies, with the same MySQL and SQLite difference.
- Checkout.PlaceOrder: does not model the ten-digit limit of the `subtotal` column. A cart total of 10^10 cents or more would make the header insert fail, and the model lets it succeed.
- Checkout.PlaceOrder: the check that the generated id fits the 30-character column is stated separately (`OrderIds.OrderIdFitsColumn`). Its enforcement depends on the database backend, so a too-long id is not a failure here.
- Catalog.ListProducts: the order among products with equal sort values is left open, as the database leaves it. Only sortedness and membership are promised.

## Findings

| source | as written | input that shows it | evidently intended | confidence | as-written member | corrected member |
|---|---|---|---|---|---|---|
| store/views.py:167-171 | After queuing the error message for a negative quantity, `update_cart` does not return. It assigns the quantity and calls `save()`. The `quantity >= 0` constraint of the column refuses the save, and no handler catches the error, so the request ends in a server error. | Any existing line and quantity `-1`: the view as written fails with `Unhandled`, and the store is unchanged. | Return after the message: a handled refusal (`NegativeQuantity`) with a redirect to the cart and the store unchanged. | not executed | CartViews.UpdateCartAsWritten, CartViews.UpdateCartAsWrittenFailsUnhandled | CartViews.UpdateCart |
| store/views.py:131-146 | `remove_from_cart` returns only inside the `else` of its lookup. When the line does not exist it queues the message and then returns `None`, which Django refuses as a response, so the request ends in a server error. | Any line id not in the table: the view as written fails with `Unhandled`, and the store is unchanged. | A handled refusal (`LineNotFound`) with a redirect to the cart, as `update_cart` does. | not executed | CartViews.RemoveFromCartAsWritten, CartViews.RemoveTwiceFails | CartViews.RemoveFromCart |
