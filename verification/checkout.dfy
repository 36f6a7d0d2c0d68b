/**
 * Checkout and cancellation (store/views.py `place_order`, `cancel_order`).
 *
 * `place_order` issues, in order: the insert of the order header (the only
 * write inside `transaction.atomic()`), one insert per cart line, and one
 * delete per cart line. A database failure can strike any of these writes;
 * the `fault` parameter names the write that fails (0 for the header, 1..k
 * for the item inserts, k+1..2k for the deletions) and `None` means none
 * does. Writes before the failing one persist, except that a failing header
 * insert leaves nothing behind.
 */
module Checkout {
  import opened Models
  import opened OrderIds
  import opened CartViews

  predicate OrderIdTaken(s: Store, oid: string) {
    exists pk :: pk in s.orders && s.orders[pk].orderId == oid
  }

  /** `Order.objects.create(user=..., order_id=..., subtotal=...)`: every
      other column takes its declared default. */
  function NewOrder(oid: string, u: UserId, subtotal: Cents): Order {
    Order(oid, u, Pending, subtotal, 0, 0, 0)
  }

  /** The order item made from cart line `id`: the product's name and price
      as they are now, and the line's quantity. */
  function Snapshot(s: Store, pk: OrderPk, id: LineId): OrderItem
    requires Priced(s, id)
  {
    var line := s.lines[id];
    var p := s.products[line.product];
    OrderItem(pk, line.product, p.name, line.quantity, p.price)
  }

  /** The items made from the first `n` lines of `ids`, numbered upward from
      the item sequence. */
  function NewItems(s: Store, pk: OrderPk, ids: seq<LineId>, n: nat): (m: map<ItemId, OrderItem>)
    requires AllPricedIds(s, ids) && n <= |ids|
    ensures forall k :: k in m <==> s.nextItem <= k < s.nextItem + n
    ensures forall i :: 0 <= i < n ==> m[s.nextItem + i] == Snapshot(s, pk, ids[i])
  {
    if n == 0 then map[]
    else NewItems(s, pk, ids, n - 1)[s.nextItem + n - 1 := Snapshot(s, pk, ids[n - 1])]
  }

  /** The first `n` lines of `ids`. */
  function Consumed(ids: seq<LineId>, n: nat): (d: set<LineId>)
    requires n <= |ids|
    ensures forall x :: x in d <==> x in ids[..n]
  {
    set i | 0 <= i < n :: ids[i]
  }

  /** How many of `writes` writes succeed when write number `fault` fails. */
  function WritesDone(fault: Option<nat>, writes: nat): (w: nat)
    ensures w <= writes
    ensures w == writes <==> fault.None? || fault.value >= writes
  {
    if fault.Some? && fault.value < writes then fault.value else writes
  }

  function Min(a: nat, b: nat): nat {
    if a <= b then a else b
  }

  /** `place_order(request)` for user `u` at time `now`. */
  function PlaceOrder(s: Store, u: UserId, now: Timestamp, fault: Option<nat>): (r: Reply)
    requires Resolved(s)
    ensures Resolved(r.next)
    // the user has no cart: `request.user.cart` raises before any write
    ensures u !in s.carts ==> r == Reply(s, Some(NoCart))
    // the one failure the atomic block covers: a duplicate order id
    ensures u in s.carts && OrderIdTaken(s, GenerateOrderId(now, u))
      ==> r == Reply(s, Some(DuplicateOrderId))
    ensures fault == Some(0) ==> r.next == s
    ensures r.Succeeded() <==>
      && u in s.carts
      && !OrderIdTaken(s, GenerateOrderId(now, u))
      && (fault.None? || fault.value > 2 * |CartLineIds(s, s.carts[u])|)
    ensures r.next.products == s.products && r.next.carts == s.carts
  {
    if u !in s.carts then Reply(s, Some(NoCart))
    else
      CommitResolved(s, u, GenerateOrderId(now, u), fault);
      Commit(s, u, GenerateOrderId(now, u), fault)
  }

  lemma CommitResolved(s: Store, u: UserId, oid: string, fault: Option<nat>)
    requires Resolved(s) && u in s.carts
    ensures Resolved(Commit(s, u, oid, fault).next)
  {
    if !OrderIdTaken(s, oid) {
      var ids, w := CommitUnfold(s, u, oid, fault);
      if w > 0 {
        var made := Min(w - 1, |ids|);
        var t := Apply(s, u, oid, SumLines(s, ids), ids, made, w - 1 - made);
        ItemsAdded(s, s.nextOrder, ids, made, t.items);
      }
    }
  }

  /** The part of `place_order` after the cart is found, with the generated
      id `oid`: the atomic header insert, then the item inserts and the line
      deletions. */
  function Commit(s: Store, u: UserId, oid: string, fault: Option<nat>): (r: Reply)
    requires Resolved(s) && u in s.carts
    ensures OrderIdTaken(s, oid) ==> r == Reply(s, Some(DuplicateOrderId))
    ensures fault == Some(0) ==> r.next == s
    ensures r.Succeeded() <==>
      && !OrderIdTaken(s, oid)
      && (fault.None? || fault.value > 2 * |CartLineIds(s, s.carts[u])|)
    ensures r.next.products == s.products && r.next.carts == s.carts
  {
    var c := s.carts[u];
    var ids := CartLineIds(s, c);
    CartAggregateIsTotal(s, c);
    var subtotal := SumLines(s, ids);
    if OrderIdTaken(s, oid) then Reply(s, Some(DuplicateOrderId))
    else
      var k := |ids|;
      var w := WritesDone(fault, 2 * k + 1);
      if w == 0 then Reply(s, Some(WriteFailed))
      else
        var made := Min(w - 1, k);
        var cleared := w - 1 - made;
        var t := Apply(s, u, oid, subtotal, ids, made, cleared);
        Reply(t, if w == 2 * k + 1 then None else Some(WriteFailed))
  }

  /** The store after the header insert, `made` item inserts and `cleared`
      line deletions. */
  function Apply(s: Store, u: UserId, oid: string, subtotal: Cents, ids: seq<LineId>, made: nat, cleared: nat): (t: Store)
    requires AllPricedIds(s, ids)
    requires made <= |ids| && cleared <= |ids|
  {
    s.(orders := s.orders[s.nextOrder := NewOrder(oid, u, subtotal)],
       nextOrder := s.nextOrder + 1,
       items := s.items + NewItems(s, s.nextOrder, ids, made),
       nextItem := s.nextItem + made,
       lines := s.lines - Consumed(ids, cleared))
  }

  /** A successful checkout turns the user's cart into one pending order
      whose subtotal is the cart total and whose tax, shipping cost and total
      stay at their zero defaults, plus one item per cart line copying the
      product's name and price and the line's quantity; it empties the cart
      and touches no other line, order or item. */
  lemma CheckoutCopiesCart(s: Store, u: UserId, oid: string)
    requires Resolved(s) && u in s.carts
    requires Commit(s, u, oid, None).Succeeded()
    ensures var r := Commit(s, u, oid, None);
      var c := s.carts[u];
      var ids := CartLineIds(s, c);
      var pk := s.nextOrder;
      // one new order, pending, with the cart total as subtotal and the
      // other amounts left at their zero defaults
      && r.next.orders == s.orders[pk := Order(oid, u, Pending, CartTotal(s, c), 0, 0, 0)]
      // one new item per cart line, copying name, price and quantity
      && (forall k :: k in r.next.items <==> k in s.items || s.nextItem <= k < s.nextItem + |ids|)
      && (forall k :: k in s.items ==> r.next.items[k] == s.items[k])
      && (forall i :: 0 <= i < |ids| ==> r.next.items[s.nextItem + i] == Snapshot(s, pk, ids[i]))
      // the cart is emptied and no other line is touched
      && (forall id :: id in r.next.lines <==> id in s.lines && s.lines[id].cart != c)
      && (forall id :: id in r.next.lines ==> r.next.lines[id] == s.lines[id])
  {
    var c := s.carts[u];
    var ids := CartLineIds(s, c);
    var k := |ids|;
    var _, _ := CommitUnfold(s, u, oid, None);
    var t := Commit(s, u, oid, None).next;
    assert t == Apply(s, u, oid, SumLines(s, ids), ids, k, k);
    ItemsAdded(s, s.nextOrder, ids, k, t.items);
    CartCleared(s, c, ids, t.lines);
  }

  /** The item table after `n` item inserts: the old rows untouched and `n`
      new rows above them, one snapshot per line. */
  lemma ItemsAdded(s: Store, pk: OrderPk, ids: seq<LineId>, n: nat, items: map<ItemId, OrderItem>)
    requires AllPricedIds(s, ids) && n <= |ids|
    requires forall i :: i in s.items ==> i < s.nextItem
    requires items == s.items + NewItems(s, pk, ids, n)
    ensures forall k :: k in items <==> k in s.items || s.nextItem <= k < s.nextItem + n
    ensures forall k :: k in s.items ==> items[k] == s.items[k]
    ensures forall i :: 0 <= i < n ==> items[s.nextItem + i] == Snapshot(s, pk, ids[i])
  {
    var added := NewItems(s, pk, ids, n);
    forall i | 0 <= i < n ensures items[s.nextItem + i] == Snapshot(s, pk, ids[i]) {
      assert s.nextItem + i in added;
    }
    forall j | j in s.items ensures items[j] == s.items[j] {
      assert j !in added;
    }
  }

  /** The line table after every line of cart `c` is deleted. */
  lemma CartCleared(s: Store, c: CartId, ids: seq<LineId>, lines: map<LineId, CartLine>)
    requires Resolved(s) && ids == CartLineIds(s, c)
    requires lines == s.lines - Consumed(ids, |ids|)
    ensures forall id :: id in lines <==> id in s.lines && s.lines[id].cart != c
    ensures forall id :: id in lines ==> lines[id] == s.lines[id]
  {
    assert ids[..|ids|] == ids;
  }

  /** A checkout that passes the cart and id checks: which writes happen is
      decided by the fault alone. */
  lemma CommitUnfold(s: Store, u: UserId, oid: string, fault: Option<nat>) returns (ids: seq<LineId>, w: nat)
    requires Resolved(s) && u in s.carts
    requires !OrderIdTaken(s, oid)
    ensures ids == CartLineIds(s, s.carts[u]) && AllPricedIds(s, ids)
    ensures SumLines(s, ids) == CartTotal(s, s.carts[u])
    ensures w == WritesDone(fault, 2 * |ids| + 1)
    ensures w == 0 ==> Commit(s, u, oid, fault) == Reply(s, Some(WriteFailed))
    ensures w > 0 ==>
      Commit(s, u, oid, fault)
      == Reply(Apply(s, u, oid, SumLines(s, ids), ids, Min(w - 1, |ids|), w - 1 - Min(w - 1, |ids|)),
               if w == 2 * |ids| + 1 then None else Some(WriteFailed))
  {
    ids := CartLineIds(s, s.carts[u]);
    w := WritesDone(fault, 2 * |ids| + 1);
    CartAggregateIsTotal(s, s.carts[u]);
  }

  lemma ApplyValid(s: Store, u: UserId, oid: string, subtotal: Cents, ids: seq<LineId>, made: nat, cleared: nat)
    requires Valid(s) && u in s.carts
    requires ids == CartLineIds(s, s.carts[u])
    requires AllPricedIds(s, ids)
    requires !OrderIdTaken(s, oid)
    requires made <= |ids| && cleared <= |ids|
    ensures Valid(Apply(s, u, oid, subtotal, ids, made, cleared))
  {
    var t := Apply(s, u, oid, subtotal, ids, made, cleared);
    var pk := s.nextOrder;
    assert pk !in s.orders;
    forall a, b | a in t.orders && b in t.orders && a != b
      ensures t.orders[a].orderId != t.orders[b].orderId
    {
      if a == pk {
        assert s.orders[b].orderId != oid;
      } else if b == pk {
        assert s.orders[a].orderId != oid;
      }
    }
    forall i | i in t.items
      ensures i < t.nextItem && ItemOk(t, t.items[i])
    {
      if i in s.items {
        assert i < s.nextItem;
        assert i !in NewItems(s, pk, ids, made);
      } else {
        var id := ids[i - s.nextItem];
        assert id in ids;
        assert s.lines[id].quantity >= 0;
        assert FitsDecimal(s.products[s.lines[id].product].price);
      }
    }
    forall id | id in t.lines
      ensures id < t.nextLine && LineOk(t, t.lines[id])
    {
      var w :| w in s.carts && s.carts[w] == s.lines[id].cart;
      assert t.carts[w] == t.lines[id].cart;
    }
  }

  /** Valid in any case, so that facts about a second request can be stated. */
  lemma PlaceOrderPreservesValid(s: Store, u: UserId, now: Timestamp, fault: Option<nat>)
    requires Valid(s)
    ensures Valid(PlaceOrder(s, u, now, fault).next)
  {
    assert Resolved(s);
    if u in s.carts {
      CommitPreservesValid(s, u, GenerateOrderId(now, u), fault);
    }
  }

  lemma CommitPreservesValid(s: Store, u: UserId, oid: string, fault: Option<nat>)
    requires Valid(s) && u in s.carts
    ensures Resolved(s)
    ensures Valid(Commit(s, u, oid, fault).next)
  {
    assert Resolved(s);
    if !OrderIdTaken(s, oid) {
      var ids, w := CommitUnfold(s, u, oid, fault);
      if w > 0 {
        var made := Min(w - 1, |ids|);
        ApplyValid(s, u, oid, SumLines(s, ids), ids, made, w - 1 - made);
      }
    }
  }

  // ---------------------------------------------------------------------
  // What the code does not guarantee
  // ---------------------------------------------------------------------

  /** Checkout is not all-or-nothing. If the write of item `j` (1-based)
      fails, the order header stays, with only the items before it, and the
      cart keeps every line. */
  lemma FailedItemInsertLeavesPartialOrder(s: Store, u: UserId, oid: string, j: nat)
    requires Resolved(s) && u in s.carts
    requires forall i :: i in s.items ==> s.items[i].order in s.orders
    requires !OrderIdTaken(s, oid)
    requires 1 <= j <= |CartLineIds(s, s.carts[u])|
    ensures var r := Commit(s, u, oid, Some(j));
      && r.failure == Some(WriteFailed)
      && s.nextOrder in r.next.orders
      && s.nextOrder !in s.orders
      && (forall i :: i in r.next.items && r.next.items[i].order == s.nextOrder
            <==> s.nextItem <= i < s.nextItem + j - 1)
      && r.next.lines == s.lines
  {
    var ids := CartLineIds(s, s.carts[u]);
    var k := |ids|;
    assert WritesDone(Some(j), 2 * k + 1) == j;
    assert Min(j - 1, k) == j - 1;
    var _, _ := CommitUnfold(s, u, oid, Some(j));
    PartialCheckout(s, u, oid, SumLines(s, ids), ids, j - 1);
  }

  /** The store after the header insert and `n` item inserts. */
  lemma PartialCheckout(s: Store, u: UserId, oid: string, subtotal: Cents, ids: seq<LineId>, n: nat)
    requires Resolved(s)
    requires forall i :: i in s.items ==> s.items[i].order in s.orders
    requires AllPricedIds(s, ids) && n <= |ids|
    ensures var t := Apply(s, u, oid, subtotal, ids, n, 0);
      && s.nextOrder in t.orders
      && s.nextOrder !in s.orders
      && (forall i :: i in t.items && t.items[i].order == s.nextOrder
            <==> s.nextItem <= i < s.nextItem + n)
      && t.lines == s.lines
  {
    var pk := s.nextOrder;
    var t := Apply(s, u, oid, subtotal, ids, n, 0);
    ItemsAdded(s, pk, ids, n, t.items);
    forall i | s.nextItem <= i < s.nextItem + n ensures t.items[i].order == pk {
      assert t.items[s.nextItem + (i - s.nextItem)] == Snapshot(s, pk, ids[i - s.nextItem]);
    }
    assert pk !in s.orders;
    forall i | i in s.items ensures s.items[i].order != pk {
      assert s.items[i].order in s.orders;
    }
    assert Consumed(ids, 0) == {};
  }

  /** The id has minute granularity, so a second checkout by the same user in
      the same minute fails as a duplicate and changes nothing. */
  lemma SameMinuteCheckoutFails(s: Store, u: UserId, t1: Timestamp, t2: Timestamp, fault: Option<nat>)
    requires Resolved(s)
    requires PlaceOrder(s, u, t1, None).Succeeded()
    requires SameMinute(t1, t2)
    ensures var s1 := PlaceOrder(s, u, t1, None).next;
      PlaceOrder(s1, u, t2, fault) == Reply(s1, Some(DuplicateOrderId))
  {
    var s1 := PlaceOrder(s, u, t1, None).next;
    CheckoutCopiesCart(s, u, GenerateOrderId(t1, u));
    SameMinuteSameId(t1, t2, u);
    assert s1.orders[s.nextOrder].orderId == GenerateOrderId(t2, u);
    assert OrderIdTaken(s1, GenerateOrderId(t2, u));
  }

  /** The id has no separators, so user 1 checking out at 12:mm and then
      user 11 at 2:mm on the same day collide: the second checkout fails. */
  lemma CrossUserCheckoutCollides(s: Store, y: nat, m: nat, d: nat, mi: nat, fault: Option<nat>)
    requires Resolved(s)
    requires PlaceOrder(s, 1, Timestamp(y, m, d, 12, mi, 0, 0), None).Succeeded()
    requires 11 in s.carts
    ensures var s1 := PlaceOrder(s, 1, Timestamp(y, m, d, 12, mi, 0, 0), None).next;
      PlaceOrder(s1, 11, Timestamp(y, m, d, 2, mi, 0, 0), fault) == Reply(s1, Some(DuplicateOrderId))
  {
    var s1 := PlaceOrder(s, 1, Timestamp(y, m, d, 12, mi, 0, 0), None).next;
    CheckoutCopiesCart(s, 1, GenerateOrderId(Timestamp(y, m, d, 12, mi, 0, 0), 1));
    UserHourCollision(y, m, d, mi);
    var oid := GenerateOrderId(Timestamp(y, m, d, 2, mi, 0, 0), 11);
    assert s1.orders[s.nextOrder].orderId == oid;
    assert OrderIdTaken(s1, oid);
  }

  // ---------------------------------------------------------------------
  // Snapshots
  // ---------------------------------------------------------------------

  /** The sum of the totals of `n` consecutive items from `base`. */
  function SumItems(items: map<ItemId, OrderItem>, base: nat, n: nat): Cents
    requires forall k :: base <= k < base + n ==> k in items
  {
    if n == 0 then 0 else SumItems(items, base, n - 1) + ItemTotal(items[base + n - 1])
  }

  lemma {:induction false} SnapshotSum(s: Store, pk: OrderPk, ids: seq<LineId>, items: map<ItemId, OrderItem>, n: nat)
    requires AllPricedIds(s, ids) && n <= |ids|
    requires forall k :: s.nextItem <= k < s.nextItem + |ids| ==> k in items
    requires forall i :: 0 <= i < |ids| ==> items[s.nextItem + i] == Snapshot(s, pk, ids[i])
    ensures AllPricedIds(s, ids[..n])
    ensures SumItems(items, s.nextItem, n) == SumLines(s, ids[..n])
  {
    if n > 0 {
      SnapshotSum(s, pk, ids, items, n - 1);
      SumLinesStep(s, ids, n - 1);
    }
  }

  /** The items of a new order add up to its subtotal. */
  lemma PlacedItemsSumToSubtotal(s: Store, u: UserId, oid: string)
    requires Resolved(s) && u in s.carts
    requires Commit(s, u, oid, None).Succeeded()
    ensures var r := Commit(s, u, oid, None).next;
      var k := |CartLineIds(s, s.carts[u])|;
      && (forall i :: s.nextItem <= i < s.nextItem + k ==> i in r.items)
      && SumItems(r.items, s.nextItem, k) == r.orders[s.nextOrder].subtotal
  {
    var r := Commit(s, u, oid, None).next;
    var ids := CartLineIds(s, s.carts[u]);
    CheckoutCopiesCart(s, u, oid);
    CartAggregateIsTotal(s, s.carts[u]);
    SnapshotSum(s, s.nextOrder, ids, r.items, |ids|);
    assert ids[..|ids|] == ids;
  }

  /** A price change after checkout does not reach the order: each item's
      total stays the line total at the moment of checkout. */
  lemma SnapshotSurvivesPriceChange(s: Store, u: UserId, oid: string, p: ProductId, price: Cents)
    requires Resolved(s) && u in s.carts
    requires Commit(s, u, oid, None).Succeeded()
    requires p in s.products
    ensures var r := Commit(s, u, oid, None).next;
      var edited := r.(products := r.products[p := r.products[p].(price := price)]);
      var ids := CartLineIds(s, s.carts[u]);
      forall i :: 0 <= i < |ids| ==>
        && s.nextItem + i in edited.items
        && ItemTotal(edited.items[s.nextItem + i]) == LineTotal(s, ids[i])
        // the edit is visible at the product: an item of `p` no longer
        // totals its quantity at the product's current price
        && (s.lines[ids[i]].product == p && s.lines[ids[i]].quantity != 0
              && price != s.products[p].price
            ==> ItemTotal(edited.items[s.nextItem + i])
                != edited.products[p].price * edited.items[s.nextItem + i].quantity)
  {
    var r := Commit(s, u, oid, None).next;
    var edited := r.(products := r.products[p := r.products[p].(price := price)]);
    var ids := CartLineIds(s, s.carts[u]);
    CheckoutCopiesCart(s, u, oid);
    assert edited.items == r.items;
    assert edited.products[p].price == price;
    forall i | 0 <= i < |ids|
      ensures ItemTotal(edited.items[s.nextItem + i]) == LineTotal(s, ids[i])
      ensures s.lines[ids[i]].product == p && s.lines[ids[i]].quantity != 0
                && price != s.products[p].price
              ==> ItemTotal(edited.items[s.nextItem + i]) != price * edited.items[s.nextItem + i].quantity
    {
      SnapshotKeepsPrice(s, s.nextOrder, ids[i], p, price);
    }
  }

  /** An item snapshot totals the line's total at checkout; at any other
      price of its product, the same quantity totals differently. */
  lemma SnapshotKeepsPrice(s: Store, pk: OrderPk, id: LineId, p: ProductId, price: Cents)
    requires Priced(s, id)
    ensures ItemTotal(Snapshot(s, pk, id)) == LineTotal(s, id)
    ensures s.lines[id].product == p && s.lines[id].quantity != 0 && price != s.products[p].price
            ==> ItemTotal(Snapshot(s, pk, id)) != price * Snapshot(s, pk, id).quantity
  {
    var q := s.lines[id].quantity;
    var was := s.products[s.lines[id].product].price;
    if q != 0 && price != was {
      assert (price - was) * q != 0;
      assert price * q - was * q == (price - was) * q;
    }
  }

  // ---------------------------------------------------------------------
  // cancel_order
  // ---------------------------------------------------------------------

  /** `cancel_order(request, pk)`: deletes the order with that primary key,
      and by cascade its items. The requester is not compared with the
      order's owner. */
  function CancelOrder(s: Store, requester: UserId, pk: OrderPk): (r: Reply)
    ensures r.Succeeded() <==> pk in s.orders
    ensures !r.Succeeded() ==> r == Reply(s, Some(OrderNotFound))
    ensures r.Succeeded() ==>
      && pk !in r.next.orders
      && (forall i :: i in r.next.items ==> r.next.items[i].order != pk)
      && r.next == DeleteOrder(s, pk)
  {
    if pk !in s.orders then Reply(s, Some(OrderNotFound)) else Reply(DeleteOrder(s, pk), None)
  }

  lemma CancelOrderPreservesValid(s: Store, requester: UserId, pk: OrderPk)
    requires Valid(s)
    ensures Valid(CancelOrder(s, requester, pk).next)
  {
    if pk in s.orders { DeleteOrderPreservesValid(s, pk); }
  }

  /** Cancelling right after checkout removes exactly what the checkout
      added to the orders and items, but does not give the cart its lines
      back. */
  lemma CancelAfterCheckout(s: Store, u: UserId, oid: string, requester: UserId)
    requires Resolved(s) && u in s.carts
    requires forall i :: i in s.items ==> s.items[i].order in s.orders
    requires Commit(s, u, oid, None).Succeeded()
    ensures var s1 := Commit(s, u, oid, None).next;
      var r := CancelOrder(s1, requester, s.nextOrder);
      && r.Succeeded()
      && r.next.orders == s.orders
      && r.next.items == s.items
      && r.next.lines == Commit(s, u, oid, None).next.lines
      && (forall id :: id in r.next.lines ==> r.next.lines[id].cart != s.carts[u])
  {
    var s1 := Commit(s, u, oid, None).next;
    CheckoutCopiesCart(s, u, oid);
    var o := s1.orders[s.nextOrder];
    var ids := CartLineIds(s, s.carts[u]);
    var n := |ids|;
    forall k | s.nextItem <= k < s.nextItem + n && k !in s.items
      ensures s1.items[k].order == s.nextOrder
    {
      assert s1.items[s.nextItem + (k - s.nextItem)] == Snapshot(s, s.nextOrder, ids[k - s.nextItem]);
    }
    DeleteUndoesInsert(s, s1, o, n);
  }

  /** Deleting an order that was just inserted, with its `n` items, restores
      the order and item tables. */
  lemma DeleteUndoesInsert(s: Store, s1: Store, o: Order, n: nat)
    requires forall pk :: pk in s.orders ==> pk < s.nextOrder
    requires forall i :: i in s.items ==> s.items[i].order in s.orders
    requires s1.orders == s.orders[s.nextOrder := o]
    requires forall k :: k in s1.items <==> k in s.items || s.nextItem <= k < s.nextItem + n
    requires forall k :: k in s.items ==> s1.items[k] == s.items[k]
    requires forall k :: s.nextItem <= k < s.nextItem + n && k !in s.items ==> s1.items[k].order == s.nextOrder
    ensures DeleteOrder(s1, s.nextOrder).orders == s.orders
    ensures DeleteOrder(s1, s.nextOrder).items == s.items
  {
    var pk := s.nextOrder;
    var t := DeleteOrder(s1, pk);
    assert pk !in s.orders;
    assert t.orders == s.orders;
    forall i | i in s.items ensures s.items[i].order != pk {
      assert s.items[i].order in s.orders;
    }
    assert t.items == s.items;
  }
}
