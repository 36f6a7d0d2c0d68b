/**
 * The records of the storefront (store/models.py) and the invariants the
 * database and the views keep over them.
 *
 * Each table is a map from primary key to row; the next-id counters stand
 * for the database's auto-increment sequences. Money is integer cents, since
 * every price is a DecimalField with two decimal places.
 */
module Models {

  datatype Option<+T> = None | Some(value: T)

  type UserId = nat
  type ProductId = nat
  type CategoryId = nat
  type CartId = nat
  type LineId = nat
  type OrderPk = nat
  type ItemId = nat

  /** An amount of money in cents. */
  type Cents = int

  /** `max_digits=10, decimal_places=2`: at most ten digits of cents. */
  const DecimalLimit: int := 10_000_000_000

  predicate FitsDecimal(c: Cents) {
    -DecimalLimit < c < DecimalLimit
  }

  /** The largest quantity the `PositiveIntegerField` column stores on
      PostgreSQL: a 32-bit `integer`, the range 0..2^31-1 Django declares for
      the field. MySQL's `integer UNSIGNED` and SQLite accept more. */
  const QuantityMax: int := 2_147_483_647

  /** The values a quantity column accepts: the `>= 0` check every backend
      puts on a `PositiveIntegerField`, and the column's width. Any other
      value makes the write fail. */
  predicate QuantityFits(n: int) {
    0 <= n <= QuantityMax
  }

  /** A catalog product; the image and description are not modelled. */
  datatype Product = Product(
    name: string,
    price: Cents,
    createdAt: int,
    categories: set<CategoryId>)

  /** A row of the cart's through table (`CartProduct`). */
  datatype CartLine = CartLine(cart: CartId, product: ProductId, quantity: int)

  /** `Order.Status`: the five choices of the status column. */
  datatype Status = Pending | Paid | Cancelled | Shipped | Delivered

  datatype Order = Order(
    orderId: string,
    user: UserId,
    status: Status,
    subtotal: Cents,
    tax: Cents,
    shippingCost: Cents,
    total: Cents)

  /** An order line: the product's name and price are copies taken at
      checkout, not references. */
  datatype OrderItem = OrderItem(
    order: OrderPk,
    product: ProductId,
    productName: string,
    quantity: int,
    price: Cents)

  /** The database. `carts` is keyed by user: `Cart.user` is a one-to-one
      field, so a user has at most one cart by construction. */
  datatype Store = Store(
    products: map<ProductId, Product>,
    carts: map<UserId, CartId>,
    lines: map<LineId, CartLine>,
    orders: map<OrderPk, Order>,
    items: map<ItemId, OrderItem>,
    nextCart: CartId,
    nextLine: LineId,
    nextOrder: OrderPk,
    nextItem: ItemId)

  /** The failures the views report. */
  datatype Error =
    | ProductNotFound
    | LineNotFound
    | OrderNotFound
    | AlreadyInCart
    | NotAnInteger
    | NegativeQuantity
    | NoCart
    | DuplicateOrderId
    | WriteFailed
    // an exception no handler of the view catches: a server error
    | Unhandled
    | ProductProtected

  /** The store after a request and whether the request failed. A failed
      request need not leave the store as it found it. */
  datatype Reply = Reply(next: Store, failure: Option<Error>) {
    predicate Succeeded() {
      failure.None?
    }
  }

  // ---------------------------------------------------------------------
  // Status choices
  // ---------------------------------------------------------------------

  /** The value stored in the status column. */
  function StatusValue(st: Status): string {
    match st
    case Pending => "Pending"
    case Paid => "Paid"
    case Cancelled => "Cancelled"
    case Shipped => "Shipped"
    case Delivered => "Delivered"
  }

  /** Reads a status column value; anything but the five choices is refused. */
  function ParseStatus(v: string): (r: Option<Status>)
    ensures r.Some? ==> StatusValue(r.value) == v
    ensures (exists st :: StatusValue(st) == v) ==> r.Some?
  {
    if v == "Pending" then Some(Pending)
    else if v == "Paid" then Some(Paid)
    else if v == "Cancelled" then Some(Cancelled)
    else if v == "Shipped" then Some(Shipped)
    else if v == "Delivered" then Some(Delivered)
    else None
  }

  /** Every status value survives a round trip through the column and fits
      its 20-character width. */
  lemma StatusRoundTrip(st: Status)
    ensures ParseStatus(StatusValue(st)) == Some(st)
    ensures |StatusValue(st)| <= 20
  {
  }

  // ---------------------------------------------------------------------
  // Invariants
  // ---------------------------------------------------------------------

  predicate CartExists(s: Store, c: CartId) {
    exists u :: u in s.carts && s.carts[u] == c
  }

  /** Two users never share a cart, and cart ids come from the sequence. */
  predicate CartsValid(s: Store) {
    && (forall u, v :: u in s.carts && v in s.carts && u != v ==> s.carts[u] != s.carts[v])
    && (forall u :: u in s.carts ==> s.carts[u] < s.nextCart)
  }

  predicate ProductsValid(s: Store) {
    forall p :: p in s.products ==> FitsDecimal(s.products[p].price)
  }

  /** A cart line refers to an existing cart and product and has a quantity
      its column accepts (`PositiveIntegerField` admits zero). */
  predicate LineOk(s: Store, l: CartLine) {
    CartExists(s, l.cart) && l.product in s.products && QuantityFits(l.quantity)
  }

  predicate LinesValid(s: Store) {
    forall id :: id in s.lines ==> id < s.nextLine && LineOk(s, s.lines[id])
  }

  /** At most one line per (cart, product) pair. The database has no such
      constraint; only the check in `add_to_cart` keeps it. */
  predicate OneLinePerProduct(s: Store) {
    forall a, b :: a in s.lines && b in s.lines && a != b && s.lines[a].cart == s.lines[b].cart
      ==> s.lines[a].product != s.lines[b].product
  }

  predicate OrdersValid(s: Store) {
    && (forall pk :: pk in s.orders ==> pk < s.nextOrder)
    && (forall a, b :: a in s.orders && b in s.orders && a != b
          ==> s.orders[a].orderId != s.orders[b].orderId)
  }

  /** An order item belongs to an existing order, refers to a product that
      cannot be deleted under it, and holds a quantity its column accepts and a
      two-decimal price. */
  predicate ItemOk(s: Store, it: OrderItem) {
    it.order in s.orders && it.product in s.products && QuantityFits(it.quantity) && FitsDecimal(it.price)
  }

  predicate ItemsValid(s: Store) {
    forall i :: i in s.items ==> i < s.nextItem && ItemOk(s, s.items[i])
  }

  predicate Valid(s: Store) {
    && CartsValid(s)
    && ProductsValid(s)
    && LinesValid(s)
    && OneLinePerProduct(s)
    && OrdersValid(s)
    && ItemsValid(s)
  }

  /** What reading a cart and writing an order need: every row's id comes
      from its sequence and every line names an existing product. Implied by
      `Valid`. */
  predicate Resolved(s: Store) {
    && (forall id :: id in s.lines ==> id < s.nextLine)
    && AllPriced(s)
    && (forall pk :: pk in s.orders ==> pk < s.nextOrder)
    && (forall i :: i in s.items ==> i < s.nextItem)
  }

  /** The store of a fresh installation. */
  function EmptyStore(): (s: Store)
    ensures Valid(s)
  {
    Store(map[], map[], map[], map[], map[], 0, 0, 0, 0)
  }

  // ---------------------------------------------------------------------
  // Derived amounts
  // ---------------------------------------------------------------------

  predicate Priced(s: Store, id: LineId) {
    id in s.lines && s.lines[id].product in s.products
  }

  /** Every cart line names an existing product, so every line has a price. */
  predicate AllPriced(s: Store) {
    forall id :: id in s.lines ==> s.lines[id].product in s.products
  }

  /** `CartProduct.total_price`: the product's current price times the line's
      quantity. */
  function LineTotal(s: Store, id: LineId): Cents
    requires Priced(s, id)
  {
    s.products[s.lines[id].product].price * s.lines[id].quantity
  }

  /** `OrderItem.get_total_price`: the item's own snapshot price times its
      quantity. */
  function ItemTotal(it: OrderItem): Cents {
    it.price * it.quantity
  }

  // ---------------------------------------------------------------------
  // Delete policies
  // ---------------------------------------------------------------------

  /** Deleting an order: `OrderItem.order` is `on_delete=CASCADE`, so the
      order's items go with it and nothing else changes. */
  function DeleteOrder(s: Store, pk: OrderPk): (t: Store)
    requires pk in s.orders
    ensures t.orders.Keys == s.orders.Keys - {pk}
    ensures forall o :: o in t.orders ==> t.orders[o] == s.orders[o]
    ensures forall i :: i in t.items <==> i in s.items && s.items[i].order != pk
    ensures forall i :: i in t.items ==> t.items[i] == s.items[i]
    ensures t == s.(orders := t.orders, items := t.items)
  {
    s.(orders := s.orders - {pk},
       items := map i | i in s.items && s.items[i].order != pk :: s.items[i])
  }

  lemma DeleteOrderPreservesValid(s: Store, pk: OrderPk)
    requires Valid(s) && pk in s.orders
    ensures Valid(DeleteOrder(s, pk))
  {
    var t := DeleteOrder(s, pk);
    forall i | i in t.items
      ensures i < t.nextItem && ItemOk(t, t.items[i])
    {
      assert s.items[i].order != pk;
    }
  }

  predicate ReferencedByItem(s: Store, p: ProductId) {
    exists i :: i in s.items && s.items[i].product == p
  }

  /** Deleting a product: `CartProduct.product` is `on_delete=CASCADE`, so
      the product leaves every cart; `OrderItem.product` is `PROTECT`, so the
      deletion is refused while any order item refers to the product. */
  function DeleteProduct(s: Store, p: ProductId): (r: Reply)
    ensures r.failure == Some(ProductNotFound) <==> p !in s.products
    ensures r.failure == Some(ProductProtected) <==> p in s.products && ReferencedByItem(s, p)
    ensures !r.Succeeded() ==> r.next == s
    ensures r.Succeeded() ==>
      && r.next.products.Keys == s.products.Keys - {p}
      && (forall q :: q in r.next.products ==> r.next.products[q] == s.products[q])
      && (forall id :: id in r.next.lines <==> id in s.lines && s.lines[id].product != p)
      && (forall id :: id in r.next.lines ==> r.next.lines[id] == s.lines[id])
      && r.next == s.(products := r.next.products, lines := r.next.lines)
  {
    if p !in s.products then Reply(s, Some(ProductNotFound))
    else if ReferencedByItem(s, p) then Reply(s, Some(ProductProtected))
    else
      Reply(s.(products := s.products - {p},
               lines := map id | id in s.lines && s.lines[id].product != p :: s.lines[id]),
            None)
  }

  lemma DeleteProductPreservesValid(s: Store, p: ProductId)
    requires Valid(s)
    ensures Valid(DeleteProduct(s, p).next)
  {
    var r := DeleteProduct(s, p);
    if r.Succeeded() {
      var t := r.next;
      forall i | i in t.items
        ensures i < t.nextItem && ItemOk(t, t.items[i])
      {
        assert s.items[i].product != p;
      }
      forall id | id in t.lines
        ensures id < t.nextLine && LineOk(t, t.lines[id])
      {
        assert s.lines[id].product != p;
      }
    }
  }
}
