/**
 * The cart views of store/views.py: `add_to_cart`, `remove_from_cart`,
 * `update_cart` and the total shown by `cart`.
 *
 * Each view is a function from the store and the request's inputs to a
 * `Reply`. Messages, redirects and the login decorator are left out; the
 * logged-in user is a parameter.
 */
module CartViews {
  import opened Models

  /** The quantity field of the posted form as `int(...)` sees it: a number,
      a value that is not one (`ValueError`), or no field at all, where
      `int(None)` raises `TypeError`. */
  datatype QuantityInput = Integer(n: int) | NotInteger | Missing

  /** The user's cart and the store it lives in. */
  datatype CartHandle = CartHandle(store: Store, cart: CartId)

  // ---------------------------------------------------------------------
  // Cart lookup
  // ---------------------------------------------------------------------

  /** `Cart.objects.get_or_create(user=...)`: the user's cart, created empty
      on first use. */
  function GetOrCreateCart(s: Store, u: UserId): (h: CartHandle)
    ensures u in h.store.carts && h.store.carts[u] == h.cart
    ensures h.store.carts.Keys == s.carts.Keys + {u}
    ensures forall v :: v in s.carts ==> h.store.carts[v] == s.carts[v]
    ensures u in s.carts ==> h.store == s
    ensures Valid(s) ==> Valid(h.store)
    ensures Valid(s) && u !in s.carts ==> !CartExists(s, h.cart)
    ensures h.store == s.(carts := h.store.carts, nextCart := h.store.nextCart)
  {
    if u in s.carts then CartHandle(s, s.carts[u])
    else
      var t := s.(carts := s.carts[u := s.nextCart], nextCart := s.nextCart + 1);
      assert Valid(s) ==> Valid(t) by {
        if Valid(s) {
          forall id | id in t.lines ensures LineOk(t, t.lines[id]) {
            var w :| w in s.carts && s.carts[w] == s.lines[id].cart;
            assert t.carts[w] == s.lines[id].cart;
          }
        }
      }
      CartHandle(t, s.nextCart)
  }

  /** Asking twice gives the same cart and the same store as asking once. */
  lemma GetOrCreateCartIdempotent(s: Store, u: UserId)
    ensures GetOrCreateCart(GetOrCreateCart(s, u).store, u) == GetOrCreateCart(s, u)
  {
  }

  /** The id of the line for product `p` in cart `c`, if there is one. */
  predicate HasLine(s: Store, c: CartId, p: ProductId) {
    exists id :: id in s.lines && s.lines[id].cart == c && s.lines[id].product == p
  }

  // ---------------------------------------------------------------------
  // add_to_cart
  // ---------------------------------------------------------------------

  /** `add_to_cart(request, pk)`. A missing product fails before anything
      else. The user's cart is then got or created, and stays created even
      if a later check fails. A second line for the same product, a
      non-integer or a negative quantity is refused; zero is accepted. A
      quantity the column cannot hold makes the insert fail, and the
      exception handler reports it. */
  function AddToCart(s: Store, u: UserId, p: ProductId, q: QuantityInput): (r: Reply)
    requires Resolved(s)
    ensures Resolved(r.next)
    ensures r.Succeeded() <==>
      p in s.products && !HasLine(s, GetOrCreateCart(s, u).cart, p) && q.Integer? && QuantityFits(q.n)
    ensures Valid(s) ==> (r.Succeeded() <==>
      p in s.products && !(u in s.carts && HasLine(s, s.carts[u], p)) && q.Integer? && QuantityFits(q.n))
    // a quantity beyond the column makes the insert fail; the cart stays
    ensures r.failure == Some(WriteFailed) <==>
      p in s.products && !HasLine(s, GetOrCreateCart(s, u).cart, p) && q.Integer? && q.n > QuantityMax
    ensures p !in s.products ==> r == Reply(s, Some(ProductNotFound))
    ensures p in s.products && u in s.carts && HasLine(s, s.carts[u], p)
      ==> r == Reply(s, Some(AlreadyInCart))
    ensures p in s.products ==> u in r.next.carts
    // get-or-create never replaces or duplicates a cart
    ensures r.next.carts.Keys <= s.carts.Keys + {u}
    ensures forall v :: v in s.carts ==> v in r.next.carts && r.next.carts[v] == s.carts[v]
    // a failure changes nothing but possibly the lazily created cart
    ensures !r.Succeeded() ==>
      r.next == s.(carts := r.next.carts, nextCart := r.next.nextCart)
    // a success adds exactly one line, to the user's cart, with the quantity asked for
    ensures r.Succeeded() ==>
      && r.next.lines == s.lines[s.nextLine := CartLine(r.next.carts[u], p, q.n)]
      && r.next.nextLine == s.nextLine + 1
      && r.next == s.(carts := r.next.carts, nextCart := r.next.nextCart,
                      lines := r.next.lines, nextLine := r.next.nextLine)
  {
    if p !in s.products then Reply(s, Some(ProductNotFound))
    else
      var h := GetOrCreateCart(s, u);
      var t := h.store;
      if HasLine(t, h.cart, p) then Reply(t, Some(AlreadyInCart))
      else match q
        case NotInteger | Missing => Reply(t, Some(NotAnInteger))
        case Integer(n) =>
          if n < 0 then Reply(t, Some(NegativeQuantity))
          else if n > QuantityMax then Reply(t, Some(WriteFailed))
          else Reply(t.(lines := t.lines[t.nextLine := CartLine(h.cart, p, n)],
                        nextLine := t.nextLine + 1), None)
  }

  lemma AddToCartPreservesValid(s: Store, u: UserId, p: ProductId, q: QuantityInput)
    requires Valid(s)
    ensures Valid(AddToCart(s, u, p, q).next)
  {
    var r := AddToCart(s, u, p, q);
    if r.Succeeded() {
      var h := GetOrCreateCart(s, u);
      var t := r.next;
      assert Valid(h.store);
      assert s.nextLine !in s.lines;
      forall id | id in t.lines ensures id < t.nextLine && LineOk(t, t.lines[id]) {
        if id != s.nextLine {
          var w :| w in h.store.carts && h.store.carts[w] == t.lines[id].cart;
          assert t.carts[w] == t.lines[id].cart;
        } else {
          assert t.carts[u] == t.lines[id].cart;
        }
      }
      assert !HasLine(h.store, h.cart, p);
      forall a, b | a in t.lines && b in t.lines && a != b && t.lines[a].cart == t.lines[b].cart
        ensures t.lines[a].product != t.lines[b].product
      {
        if a == s.nextLine {
          assert b in s.lines;
        } else if b == s.nextLine {
          assert a in s.lines;
        }
      }
    }
  }

  /** Adding the same product twice: the second add is refused with
      `AlreadyInCart`, whatever its quantity, and changes nothing. */
  lemma {:induction false} AddTwiceRejected(s: Store, u: UserId, p: ProductId, q1: QuantityInput, q2: QuantityInput)
    requires Resolved(s)
    requires AddToCart(s, u, p, q1).Succeeded()
    ensures AddToCart(AddToCart(s, u, p, q1).next, u, p, q2)
         == Reply(AddToCart(s, u, p, q1).next, Some(AlreadyInCart))
  {
    var t := AddToCart(s, u, p, q1).next;
    assert t.lines[s.nextLine] == CartLine(t.carts[u], p, q1.n);
    assert HasLine(t, t.carts[u], p);
  }

  // ---------------------------------------------------------------------
  // remove_from_cart
  // ---------------------------------------------------------------------

  /** `remove_from_cart(request, pk)` as evidently intended: deletes the
      line with that primary key, in whichever cart it is (the view checks no
      ownership). A missing line is refused with its message and a redirect. */
  function RemoveFromCart(s: Store, id: LineId): (r: Reply)
    ensures !r.Succeeded() <==> id !in s.lines
    ensures !r.Succeeded() ==> r == Reply(s, Some(LineNotFound))
    ensures r.Succeeded() ==>
      && r.next.lines.Keys == s.lines.Keys - {id}
      && (forall k :: k in r.next.lines ==> r.next.lines[k] == s.lines[k])
      && r.next == s.(lines := r.next.lines)
  {
    if id !in s.lines then Reply(s, Some(LineNotFound))
    else Reply(s.(lines := s.lines - {id}), None)
  }

  lemma RemoveFromCartPreservesValid(s: Store, id: LineId)
    requires Valid(s)
    ensures Valid(RemoveFromCart(s, id).next)
  {
  }

  /** `remove_from_cart` as the view is written: its only `return` is in
      the `else` of the lookup, so after the message for a missing line the
      view returns `None`, which Django turns into a server error. */
  function RemoveFromCartAsWritten(s: Store, id: LineId): (r: Reply)
    ensures r.Succeeded() <==> id in s.lines
    ensures !r.Succeeded() ==> r == Reply(s, Some(Unhandled))
    ensures r.Succeeded() ==> r.next.lines == s.lines - {id} && r.next == s.(lines := r.next.lines)
  {
    if id !in s.lines then Reply(s, Some(Unhandled))
    else Reply(s.(lines := s.lines - {id}), None)
  }

  /** The missing `return` does not reach the store: both versions leave the
      same store, and their failures differ exactly for a missing line. */
  lemma RemoveFromCartAsWrittenSameStore(s: Store, id: LineId)
    ensures RemoveFromCartAsWritten(s, id).next == RemoveFromCart(s, id).next
    ensures RemoveFromCartAsWritten(s, id).failure != RemoveFromCart(s, id).failure <==> id !in s.lines
  {
  }

  /** Removing is not repeatable: the second removal of a line fails, with
      the refusal when corrected and with a server error as written. */
  lemma RemoveTwiceFails(s: Store, id: LineId)
    requires RemoveFromCart(s, id).Succeeded()
    ensures RemoveFromCart(RemoveFromCart(s, id).next, id).failure == Some(LineNotFound)
    ensures RemoveFromCartAsWritten(RemoveFromCartAsWritten(s, id).next, id)
         == Reply(RemoveFromCartAsWritten(s, id).next, Some(Unhandled))
  {
  }

  // ---------------------------------------------------------------------
  // update_cart
  // ---------------------------------------------------------------------

  /** `update_cart(request, pk)` as evidently intended: sets the quantity of
      one line. A missing line or a non-integer quantity changes nothing; a
      missing quantity field raises past the `except ValueError`. A
      negative quantity is refused with its message and changes nothing (the
      view as written goes on to the save: see `UpdateCartAsWritten`). Zero
      is accepted and keeps the line. A quantity beyond the column makes
      `save()` raise, uncaught, with nothing written. */
  function UpdateCart(s: Store, id: LineId, q: QuantityInput): (r: Reply)
    ensures r.Succeeded() <==> id in s.lines && q.Integer? && QuantityFits(q.n)
    ensures r.failure == Some(NegativeQuantity) <==> id in s.lines && q.Integer? && q.n < 0
    ensures r.failure == Some(Unhandled) <==>
      id in s.lines && (q.Missing? || (q.Integer? && q.n > QuantityMax))
    ensures id !in s.lines ==> r.failure == Some(LineNotFound)
    ensures !r.Succeeded() ==> r.next == s
    ensures r.Succeeded() ==>
      && r.next.lines.Keys == s.lines.Keys
      && r.next.lines[id] == s.lines[id].(quantity := q.n)
      && (forall k :: k in s.lines && k != id ==> r.next.lines[k] == s.lines[k])
      && r.next == s.(lines := r.next.lines)
  {
    if id !in s.lines then Reply(s, Some(LineNotFound))
    else match q
      case NotInteger => Reply(s, Some(NotAnInteger))
      case Missing => Reply(s, Some(Unhandled))
      case Integer(n) =>
        if n < 0 then Reply(s, Some(NegativeQuantity))
        else if n > QuantityMax then Reply(s, Some(Unhandled))
        else Reply(s.(lines := s.lines[id := s.lines[id].(quantity := n)]), None)
  }

  lemma UpdateCartPreservesValid(s: Store, id: LineId, q: QuantityInput)
    requires Valid(s)
    ensures Valid(UpdateCart(s, id, q).next)
  {
    var r := UpdateCart(s, id, q);
    if r.Succeeded() {
      var t := r.next;
      forall a, b | a in t.lines && b in t.lines && a != b && t.lines[a].cart == t.lines[b].cart
        ensures t.lines[a].product != t.lines[b].product
      {
        assert s.lines[a].cart == s.lines[b].cart;
      }
    }
  }

  /** `update_cart` as the view is written: after queuing the message for a
      negative quantity it does not return, but assigns the quantity and
      calls `save()`. The column refuses any quantity it cannot hold, a
      negative one included, and no handler catches that error. */
  function UpdateCartAsWritten(s: Store, id: LineId, q: QuantityInput): (r: Reply)
    ensures r.Succeeded() <==> id in s.lines && q.Integer? && QuantityFits(q.n)
    ensures r.failure == Some(Unhandled) <==>
      id in s.lines && (q.Missing? || (q.Integer? && !QuantityFits(q.n)))
    ensures !r.Succeeded() ==> r.next == s
    ensures r.Succeeded() ==> id in r.next.lines && r.next.lines[id] == s.lines[id].(quantity := q.n)
  {
    if id !in s.lines then Reply(s, Some(LineNotFound))
    else match q
      case NotInteger => Reply(s, Some(NotAnInteger))
      case Missing => Reply(s, Some(Unhandled))
      case Integer(n) =>
        if !QuantityFits(n) then Reply(s, Some(Unhandled))
        else Reply(s.(lines := s.lines[id := s.lines[id].(quantity := n)]), None)
  }

  /** The missing `return` does not reach the store: the view as written and
      the corrected one leave the same store for every request, and differ
      only in how a negative quantity fails. */
  lemma UpdateCartAsWrittenSameStore(s: Store, id: LineId, q: QuantityInput)
    ensures UpdateCartAsWritten(s, id, q).next == UpdateCart(s, id, q).next
    ensures UpdateCartAsWritten(s, id, q).failure != UpdateCart(s, id, q).failure
        <==> id in s.lines && q.Integer? && q.n < 0
  {
  }

  /** A negative quantity on an existing line: the view as written queues
      its message and then fails with an uncaught error, a server error, where
      the corrected view refuses it with the message alone. Neither writes. */
  lemma UpdateCartAsWrittenFailsUnhandled(s: Store, id: LineId, n: int)
    requires id in s.lines && n < 0
    ensures UpdateCartAsWritten(s, id, Integer(n)) == Reply(s, Some(Unhandled))
    ensures UpdateCart(s, id, Integer(n)) == Reply(s, Some(NegativeQuantity))
  {
  }

  // ---------------------------------------------------------------------
  // Cart total
  // ---------------------------------------------------------------------

  /** What line `k` contributes to cart `c`'s total: its price times its
      quantity if it is a line of `c`, nothing otherwise. */
  function Contribution(s: Store, c: CartId, k: LineId): Cents
    requires AllPriced(s)
  {
    if k in s.lines && s.lines[k].cart == c then LineTotal(s, k) else 0
  }

  function TotalUpTo(s: Store, c: CartId, n: nat): Cents
    requires AllPriced(s)
  {
    if n == 0 then 0 else TotalUpTo(s, c, n - 1) + Contribution(s, c, n - 1)
  }

  /** Reference definition of a cart's total: the sum, over every line of the
      cart, of its product's price times its quantity. */
  function CartTotal(s: Store, c: CartId): Cents
    requires Resolved(s)
  {
    TotalUpTo(s, c, s.nextLine)
  }

  /** The ids of cart `c`'s lines below `n`, ascending. */
  function IdsUpTo(lines: map<LineId, CartLine>, c: CartId, n: nat): (r: seq<LineId>)
    ensures forall x :: x in r <==> x < n && x in lines && lines[x].cart == c
  {
    if n == 0 then []
    else IdsUpTo(lines, c, n - 1) + (if n - 1 in lines && lines[n - 1].cart == c then [n - 1] else [])
  }

  predicate Increasing(ids: seq<LineId>) {
    forall i, j :: 0 <= i < j < |ids| ==> ids[i] < ids[j]
  }

  lemma {:induction false} IdsUpToIncreasing(lines: map<LineId, CartLine>, c: CartId, n: nat)
    ensures Increasing(IdsUpTo(lines, c, n))
  {
    if n > 0 {
      IdsUpToIncreasing(lines, c, n - 1);
      var prev := IdsUpTo(lines, c, n - 1);
      assert forall i :: 0 <= i < |prev| ==> prev[i] in prev;
    }
  }

  /** `CartProduct.objects.filter(cart=...)`: the cart's lines, each exactly
      once, in primary-key order. */
  function CartLineIds(s: Store, c: CartId): (r: seq<LineId>)
    requires Resolved(s)
    ensures forall x :: x in r <==> x in s.lines && s.lines[x].cart == c
  {
    IdsUpTo(s.lines, c, s.nextLine)
  }

  lemma CartLineIdsIncreasing(s: Store, c: CartId)
    requires Resolved(s)
    ensures Increasing(CartLineIds(s, c))
  {
    IdsUpToIncreasing(s.lines, c, s.nextLine);
  }

  predicate AllPricedIds(s: Store, ids: seq<LineId>) {
    forall i :: 0 <= i < |ids| ==> Priced(s, ids[i])
  }

  /** `aggregate(total=Sum("subtotal"))`, with `or 0` for no rows: the sum of
      the rows' `price * quantity` in row order. */
  function SumLines(s: Store, ids: seq<LineId>): Cents
    requires AllPricedIds(s, ids)
  {
    if ids == [] then 0 else SumLines(s, ids[..|ids| - 1]) + LineTotal(s, ids[|ids| - 1])
  }

  lemma {:induction false} SumLinesAppend(s: Store, ids: seq<LineId>, x: LineId)
    requires AllPricedIds(s, ids) && Priced(s, x)
    ensures AllPricedIds(s, ids + [x])
    ensures SumLines(s, ids + [x]) == SumLines(s, ids) + LineTotal(s, x)
  {
    assert (ids + [x])[..|ids|] == ids;
  }

  /** Aggregating the cart's rows gives the reference total. */
  lemma {:induction false} AggregateIsTotal(s: Store, c: CartId, n: nat)
    requires AllPriced(s)
    ensures AllPricedIds(s, IdsUpTo(s.lines, c, n))
    ensures SumLines(s, IdsUpTo(s.lines, c, n)) == TotalUpTo(s, c, n)
  {
    if n > 0 {
      AggregateIsTotal(s, c, n - 1);
      var prev := IdsUpTo(s.lines, c, n - 1);
      assert TotalUpTo(s, c, n) == TotalUpTo(s, c, n - 1) + Contribution(s, c, n - 1);
      if n - 1 in s.lines && s.lines[n - 1].cart == c {
        assert Priced(s, n - 1);
        assert IdsUpTo(s.lines, c, n) == prev + [n - 1];
        SumLinesAppend(s, prev, n - 1);
      } else {
        assert IdsUpTo(s.lines, c, n) == prev + [];
        assert prev + [] == prev;
      }
    }
  }

  lemma CartAggregateIsTotal(s: Store, c: CartId)
    requires Resolved(s)
    ensures AllPricedIds(s, CartLineIds(s, c))
    ensures SumLines(s, CartLineIds(s, c)) == CartTotal(s, c)
  {
    AggregateIsTotal(s, c, s.nextLine);
  }

  /** One row of the cart page: a line and its annotated subtotal. */
  datatype CartRow = CartRow(line: LineId, subtotal: Cents)

  datatype CartPage = CartPage(rows: seq<CartRow>, total: Cents)

  function SumRows(rows: seq<CartRow>): Cents {
    if rows == [] then 0 else SumRows(rows[..|rows| - 1]) + rows[|rows| - 1].subtotal
  }

  /** `cart(request)`: the user's lines with `product.price * quantity`
      annotated, and their sum. A user without a cart gets an error. */
  function CartView(s: Store, u: UserId): (r: Option<CartPage>)
    requires Resolved(s)
    ensures r.None? <==> u !in s.carts
    ensures r.Some? ==>
      && |r.value.rows| == |CartLineIds(s, s.carts[u])|
      && (forall i :: 0 <= i < |r.value.rows| ==>
            var id := CartLineIds(s, s.carts[u])[i];
            r.value.rows[i] == CartRow(id, LineTotal(s, id)))
      && r.value.total == SumRows(r.value.rows)
      && r.value.total == CartTotal(s, s.carts[u])
  {
    if u !in s.carts then None
    else
      var c := s.carts[u];
      var ids := CartLineIds(s, c);
      var rows := seq(|ids|, i requires 0 <= i < |ids| => CartRow(ids[i], LineTotal(s, ids[i])));
      RowsSumLines(s, ids, rows);
      CartAggregateIsTotal(s, c);
      Some(CartPage(rows, SumRows(rows)))
  }

  lemma {:induction false} RowsSumLines(s: Store, ids: seq<LineId>, rows: seq<CartRow>)
    requires AllPricedIds(s, ids)
    requires |rows| == |ids|
    requires forall i :: 0 <= i < |ids| ==> rows[i].subtotal == LineTotal(s, ids[i])
    ensures SumRows(rows) == SumLines(s, ids)
  {
    if ids != [] {
      RowsSumLines(s, ids[..|ids| - 1], rows[..|rows| - 1]);
    }
  }

  /** The cart total as a running sum of each line's `total_price`, visiting
      the cart's lines one by one. It agrees with the reference total, and so
      with the aggregate the page shows. */
  method ComputeCartTotal(s: Store, c: CartId) returns (total: Cents)
    requires Resolved(s)
    ensures total == CartTotal(s, c)
  {
    var ids := CartLineIds(s, c);
    CartAggregateIsTotal(s, c);
    total := 0;
    var i := 0;
    while i < |ids|
      invariant 0 <= i <= |ids|
      invariant AllPricedIds(s, ids[..i])
      invariant total == SumLines(s, ids[..i])
    {
      SumLinesStep(s, ids, i);
      total := total + LineTotal(s, ids[i]);
      i := i + 1;
    }
    assert ids[..i] == ids;
  }

  lemma SumLinesStep(s: Store, ids: seq<LineId>, i: nat)
    requires AllPricedIds(s, ids) && i < |ids|
    ensures AllPricedIds(s, ids[..i]) && AllPricedIds(s, ids[..i + 1])
    ensures SumLines(s, ids[..i + 1]) == SumLines(s, ids[..i]) + LineTotal(s, ids[i])
  {
    assert ids[..i + 1] == ids[..i] + [ids[i]];
    SumLinesAppend(s, ids[..i], ids[i]);
  }

  /** An empty cart totals zero. */
  lemma EmptyCartTotalIsZero(s: Store, c: CartId)
    requires Resolved(s)
    requires forall id :: id in s.lines ==> s.lines[id].cart != c
    ensures CartTotal(s, c) == 0
  {
    ZeroUpTo(s, c, s.nextLine);
  }

  lemma {:induction false} ZeroUpTo(s: Store, c: CartId, n: nat)
    requires AllPriced(s)
    requires forall id :: id in s.lines ==> s.lines[id].cart != c
    ensures TotalUpTo(s, c, n) == 0
  {
    if n > 0 { ZeroUpTo(s, c, n - 1); }
  }

  /** Two stores whose lines contribute alike to cart `c` except at line `x`
      differ in total only by what `x` contributes. */
  lemma {:induction false} TotalUpToDiff(s: Store, t: Store, c: CartId, x: LineId, n: nat)
    requires AllPriced(s) && AllPriced(t)
    requires forall k :: k != x ==> Contribution(s, c, k) == Contribution(t, c, k)
    ensures TotalUpTo(t, c, n)
         == TotalUpTo(s, c, n) + (if x < n then Contribution(t, c, x) - Contribution(s, c, x) else 0)
  {
    if n > 0 { TotalUpToDiff(s, t, c, x, n - 1); }
  }

  /** Changing or adding one line `x` (and nothing else that a total reads)
      changes cart `d`'s total by the difference in what `x` contributes. */
  lemma OneLineChanged(s: Store, t: Store, d: CartId, x: LineId)
    requires AllPriced(s) && AllPriced(t)
    requires t.products == s.products
    requires forall k :: k != x ==> (k in t.lines <==> k in s.lines)
    requires forall k :: k != x && k in s.lines ==> k in t.lines && t.lines[k] == s.lines[k]
    requires x < t.nextLine && t.nextLine >= s.nextLine
    requires forall k :: k in s.lines ==> k < s.nextLine
    requires forall k :: k in t.lines ==> k < t.nextLine
    ensures TotalUpTo(t, d, t.nextLine)
         == TotalUpTo(s, d, s.nextLine) + Contribution(t, d, x) - Contribution(s, d, x)
  {
    TotalUpToDiff(s, t, d, x, t.nextLine);
    TotalUpToBeyond(s, d, s.nextLine, t.nextLine);
  }

  /** Line ids at or above the sequence add nothing to a total. */
  lemma {:induction false} TotalUpToBeyond(s: Store, d: CartId, n: nat, m: nat)
    requires AllPriced(s) && n <= m
    requires forall k :: k in s.lines ==> k < n
    ensures TotalUpTo(s, d, m) == TotalUpTo(s, d, n)
    decreases m
  {
    if m > n { TotalUpToBeyond(s, d, n, m - 1); }
  }

  /** A successful add raises the total of the user's cart by the new line's
      price times quantity and leaves every other cart's total alone. */
  lemma AddToCartTotal(s: Store, u: UserId, p: ProductId, q: QuantityInput, d: CartId)
    requires Resolved(s)
    requires AddToCart(s, u, p, q).Succeeded()
    ensures Resolved(AddToCart(s, u, p, q).next)
    ensures var t := AddToCart(s, u, p, q).next;
      CartTotal(t, d)
      == CartTotal(s, d) + (if d == t.carts[u] then s.products[p].price * q.n else 0)
  {
    var t := AddToCart(s, u, p, q).next;
    var x := s.nextLine;
    assert x !in s.lines;
    assert t.lines == s.lines[x := CartLine(t.carts[u], p, q.n)];
    OneLineChanged(s, t, d, x);
  }

  /** A successful removal lowers the line's cart total by the line's total
      and leaves every other cart's total alone. */
  lemma RemoveFromCartTotal(s: Store, id: LineId, d: CartId)
    requires Resolved(s)
    requires id in s.lines
    ensures Resolved(RemoveFromCart(s, id).next)
    ensures CartTotal(RemoveFromCart(s, id).next, d)
         == CartTotal(s, d) - (if d == s.lines[id].cart then LineTotal(s, id) else 0)
  {
    var t := RemoveFromCart(s, id).next;
    OneLineChanged(s, t, d, id);
  }

  /** A successful update changes the line's cart total by the product's
      price times the change in quantity. */
  lemma UpdateCartTotal(s: Store, id: LineId, q: QuantityInput, d: CartId)
    requires Resolved(s)
    requires UpdateCart(s, id, q).Succeeded()
    ensures Resolved(UpdateCart(s, id, q).next)
    ensures CartTotal(UpdateCart(s, id, q).next, d)
         == CartTotal(s, d)
            + (if d == s.lines[id].cart
               then s.products[s.lines[id].product].price * (q.n - s.lines[id].quantity)
               else 0)
  {
    var t := UpdateCart(s, id, q).next;
    OneLineChanged(s, t, d, id);
    var price := s.products[s.lines[id].product].price;
    assert price * q.n - price * s.lines[id].quantity == price * (q.n - s.lines[id].quantity);
  }
}
