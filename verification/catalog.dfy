/**
 * The catalog listing (store/views.py `products`): the product table
 * narrowed by the filter form's cleaned fields, one filter after another,
 * then ordered by the chosen sort key.
 *
 * Product prices are cents; the form's bounds are decimals in currency
 * units and are kept exact as `real` values. Pagination is not modelled.
 */
module Catalog {
  import opened Models

  // ---------------------------------------------------------------------
  // Sort keys (store/form.py SORTING_CHOICES)
  // ---------------------------------------------------------------------

  datatype SortKey = PriceAsc | PriceDesc | Latest | Oldest

  /** The value a sort choice submits. */
  function SortKeyValue(k: SortKey): string {
    match k
    case PriceAsc => "price_asc"
    case PriceDesc => "price_desc"
    case Latest => "latest"
    case Oldest => "oldest"
  }

  /** The choice field's cleaning: one of the four values, or nothing. */
  function ParseSortKey(v: string): (r: Option<SortKey>)
    ensures r.Some? ==> SortKeyValue(r.value) == v
    ensures (exists k :: SortKeyValue(k) == v) ==> r.Some?
  {
    if v == "price_asc" then Some(PriceAsc)
    else if v == "price_desc" then Some(PriceDesc)
    else if v == "latest" then Some(Latest)
    else if v == "oldest" then Some(Oldest)
    else None
  }

  lemma SortKeyRoundTrip(k: SortKey)
    ensures ParseSortKey(SortKeyValue(k)) == Some(k)
  {
  }

  // ---------------------------------------------------------------------
  // The filter form
  // ---------------------------------------------------------------------

  /** `ProductFiltereForm` after cleaning. `valid` is `is_valid()`; the other
      fields are what `cleaned_data.get` returns for each (an empty name, no
      bound, no category or no sort key when the field is blank or did not
      clean). */
  datatype FilterForm = FilterForm(
    valid: bool,
    name: string,
    minPrice: Option<real>,
    maxPrice: Option<real>,
    categories: set<CategoryId>,
    sortKey: Option<SortKey>)

  /** A price in currency units. */
  function Units(c: Cents): real {
    c as real / 100.0
  }

  // ---------------------------------------------------------------------
  // Case-insensitive substring test (`name__icontains`)
  // ---------------------------------------------------------------------

  /** ASCII lower-casing of one character. */
  function Lower(c: char): char {
    if 'A' <= c <= 'Z' then (c as int + 32) as char else c
  }

  function LowerStr(s: string): (r: string)
    ensures |r| == |s|
    ensures forall i :: 0 <= i < |s| ==> r[i] == Lower(s[i])
  {
    if s == [] then [] else [Lower(s[0])] + LowerStr(s[1..])
  }

  predicate OccursAt(s: string, t: string, i: int) {
    0 <= i && i + |t| <= |s| && s[i..i + |t|] == t
  }

  /** `t` is a substring of `s`, found by trying each start position. */
  function Contains(s: string, t: string): bool
    decreases |s|
  {
    |t| <= |s| && (s[..|t|] == t || Contains(s[1..], t))
  }

  /** `Contains` finds exactly the substrings: some start position holds `t`. */
  lemma {:induction false} ContainsIffOccurs(s: string, t: string)
    ensures Contains(s, t) <==> exists i :: OccursAt(s, t, i)
    decreases |s|
  {
    if |t| <= |s| && s[..|t|] != t {
      assert OccursAt(s, t, 0) <==> s[..|t|] == t;
      ContainsIffOccurs(s[1..], t);
      forall i | 0 < i && OccursAt(s, t, i) ensures OccursAt(s[1..], t, i - 1) {
        assert s[1..][i - 1..i - 1 + |t|] == s[i..i + |t|];
      }
      forall i | OccursAt(s[1..], t, i) ensures OccursAt(s, t, i + 1) {
        assert s[1..][i..i + |t|] == s[i + 1..i + 1 + |t|];
      }
    } else if |t| <= |s| {
      assert OccursAt(s, t, 0);
    }
  }

  function IContains(s: string, t: string): bool {
    Contains(LowerStr(s), LowerStr(t))
  }

  lemma {:induction false} LowerStrIdempotent(s: string)
    ensures LowerStr(LowerStr(s)) == LowerStr(s)
  {
    var a := LowerStr(LowerStr(s));
    assert forall i :: 0 <= i < |s| ==> a[i] == LowerStr(s)[i];
  }

  /** The test ignores ASCII case on both sides: lower-casing the name or
      the term first changes nothing. */
  lemma CaseInsensitive(s: string, t: string)
    ensures IContains(LowerStr(s), t) == IContains(s, t)
    ensures IContains(s, LowerStr(t)) == IContains(s, t)
  {
    LowerStrIdempotent(s);
    LowerStrIdempotent(t);
  }

  /** Every name contains itself, whatever its case. */
  lemma {:induction false} IContainsItself(s: string)
    ensures IContains(s, s)
  {
    var l := LowerStr(s);
    assert l[..|l|] == l;
  }

  // ---------------------------------------------------------------------
  // Filtering
  // ---------------------------------------------------------------------

  /** One queryset `filter` call of the view. */
  datatype Condition =
    | NameHas(term: string)
    | PriceAtLeast(low: real)
    | PriceAtMost(high: real)
    | InCategories(wanted: set<CategoryId>)

  predicate Holds(c: Condition, p: Product) {
    match c
    case NameHas(term) => IContains(p.name, term)
    case PriceAtLeast(low) => Units(p.price) >= low
    case PriceAtMost(high) => Units(p.price) <= high
    case InCategories(wanted) => exists k :: k in wanted && k in p.categories
  }

  lemma SharesCategory(wanted: set<CategoryId>, has: set<CategoryId>)
    ensures (exists k :: k in wanted && k in has) <==> has * wanted != {}
  {
    if has * wanted != {} {
      var k :| k in has * wanted;
      assert k in wanted && k in has;
    }
    assert forall k :: k in wanted && k in has ==> k in has * wanted;
  }

  predicate Listed(ps: map<ProductId, Product>, rows: seq<ProductId>) {
    forall i :: 0 <= i < |rows| ==> rows[i] in ps
  }

  predicate Distinct(rows: seq<ProductId>) {
    forall i, j :: 0 <= i < j < |rows| ==> rows[i] != rows[j]
  }

  /** `rows.filter(c)`: the rows satisfying `c`, in their order. */
  function Where(ps: map<ProductId, Product>, rows: seq<ProductId>, c: Condition): (r: seq<ProductId>)
    requires Listed(ps, rows)
    ensures Listed(ps, r)
    ensures forall p :: p in r <==> p in rows && Holds(c, ps[p])
    ensures Distinct(rows) ==> Distinct(r)
  {
    if rows == [] then []
    else
      var rest := Where(ps, rows[1..], c);
      assert forall p :: p in rows[1..] ==> p in rows;
      if Holds(c, ps[rows[0]]) then
        assert Distinct(rows) ==> rows[0] !in rows[1..];
        [rows[0]] + rest
      else rest
  }

  /** Reference definition of the selection: with a valid form, a product
      is listed when its name contains the term (if a term is given), its
      price is at least the minimum (if one is given, zero included), at
      most the maximum (if one is given and is not zero) and it has one of
      the chosen categories (if any are chosen). With an invalid form every
      product is listed. */
  predicate Selected(f: FilterForm, p: Product) {
    f.valid ==>
      && (f.name != [] ==> IContains(p.name, f.name))
      && (f.minPrice.Some? ==> f.minPrice.value <= Units(p.price))
      && (f.maxPrice.Some? && f.maxPrice.value != 0.0 ==> Units(p.price) <= f.maxPrice.value)
      && (f.categories != {} ==> p.categories * f.categories != {})
  }

  // ---------------------------------------------------------------------
  // Ordering
  // ---------------------------------------------------------------------

  /** The value the key orders by, ascending: `-price` and `-created_at`
      are descending orders, so they rank by the negated field. */
  function Rank(k: SortKey, p: Product): int {
    match k
    case PriceAsc => p.price
    case PriceDesc => -p.price
    case Oldest => p.createdAt
    case Latest => -p.createdAt
  }

  predicate SortedBy(ps: map<ProductId, Product>, k: SortKey, rows: seq<ProductId>)
    requires Listed(ps, rows)
  {
    forall i, j :: 0 <= i < j < |rows| ==> Rank(k, ps[rows[i]]) <= Rank(k, ps[rows[j]])
  }

  /** Whether `p` may be listed before `q`, read off the view's chain of
      `order_by` calls by the submitted value: no value, or one that matches
      no branch, keeps the initial `-created_at`. */
  predicate ListedBefore(key: Option<SortKey>, p: Product, q: Product) {
    var v := if key.Some? then SortKeyValue(key.value) else "";
    if v == "price_asc" then p.price <= q.price
    else if v == "price_desc" then p.price >= q.price
    else if v == "oldest" then p.createdAt <= q.createdAt
    else p.createdAt >= q.createdAt
  }

  /** The key the listing is ordered by, even when the form is invalid: its
      rank orders two products exactly as the view's `order_by` does. */
  function OrderOf(f: FilterForm): (k: SortKey)
    ensures forall p, q :: Rank(k, p) <= Rank(k, q) <==> ListedBefore(f.sortKey, p, q)
  {
    if f.sortKey.Some? then f.sortKey.value else Latest
  }

  /** Puts `x` in front of the first row that ranks strictly after it. */
  function Insert(ps: map<ProductId, Product>, k: SortKey, x: ProductId, rows: seq<ProductId>): (r: seq<ProductId>)
    requires x in ps && Listed(ps, rows) && SortedBy(ps, k, rows)
    ensures Listed(ps, r) && SortedBy(ps, k, r)
    ensures multiset(r) == multiset(rows) + multiset{x}
  {
    if rows == [] then [x]
    else if Rank(k, ps[x]) <= Rank(k, ps[rows[0]]) then [x] + rows
    else
      var rest := Insert(ps, k, x, rows[1..]);
      assert rows == [rows[0]] + rows[1..];
      HeadStaysFirst(ps, k, x, rows, rest);
      SortedCons(ps, k, rows[0], rest);
      [rows[0]] + rest
  }

  /** When `x` ranks after the head of a sorted list, the head still ranks
      at or before everything left once `x` is inserted into the tail. */
  lemma HeadStaysFirst(ps: map<ProductId, Product>, k: SortKey, x: ProductId, rows: seq<ProductId>, rest: seq<ProductId>)
    requires x in ps && Listed(ps, rows) && SortedBy(ps, k, rows) && rows != []
    requires Rank(k, ps[rows[0]]) < Rank(k, ps[x])
    requires Listed(ps, rest)
    requires multiset(rest) == multiset(rows[1..]) + multiset{x}
    ensures forall j :: 0 <= j < |rest| ==> Rank(k, ps[rows[0]]) <= Rank(k, ps[rest[j]])
  {
    forall j | 0 <= j < |rest| ensures Rank(k, ps[rows[0]]) <= Rank(k, ps[rest[j]]) {
      assert rest[j] in multiset(rest);
      if rest[j] != x {
        assert rest[j] in rows[1..];
        var m :| 0 <= m < |rows[1..]| && rows[1..][m] == rest[j];
        assert rows[m + 1] == rest[j];
      }
    }
  }

  lemma SortedCons(ps: map<ProductId, Product>, k: SortKey, h: ProductId, rest: seq<ProductId>)
    requires h in ps && Listed(ps, rest) && SortedBy(ps, k, rest)
    requires forall j :: 0 <= j < |rest| ==> Rank(k, ps[h]) <= Rank(k, ps[rest[j]])
    ensures Listed(ps, [h] + rest) && SortedBy(ps, k, [h] + rest)
  {
    var r := [h] + rest;
    forall i, j | 0 <= i < j < |r| ensures Rank(k, ps[r[i]]) <= Rank(k, ps[r[j]]) {
      assert r[j] == rest[j - 1];
      if i > 0 {
        assert r[i] == rest[i - 1];
      }
    }
  }

  /** `order_by(...)`: an insertion sort of the rows by the key's rank. The
      database leaves the order of equal ranks open, and so does the
      contract. */
  function SortBy(ps: map<ProductId, Product>, k: SortKey, rows: seq<ProductId>): (r: seq<ProductId>)
    requires Listed(ps, rows)
    ensures Listed(ps, r) && SortedBy(ps, k, r)
    ensures multiset(r) == multiset(rows)
  {
    if rows == [] then []
    else
      assert rows == [rows[0]] + rows[1..];
      Insert(ps, k, rows[0], SortBy(ps, k, rows[1..]))
  }

  /** Sorting keeps distinct rows distinct. */
  lemma PermutationKeepsDistinct(a: seq<ProductId>, b: seq<ProductId>)
    requires multiset(a) == multiset(b) && Distinct(a)
    ensures Distinct(b)
  {
    forall i, j | 0 <= i < j < |b| ensures b[i] != b[j] {
      if b[i] == b[j] {
        var x := b[i];
        assert b == b[..j] + [x] + b[j + 1..];
        assert x in b[..j];
        assert multiset(b)[x] >= 2 by {
          assert multiset(b) == multiset(b[..j]) + multiset{x} + multiset(b[j + 1..]);
        }
        DistinctCountsOne(a, x);
        assert false;
      }
    }
  }

  lemma {:induction false} DistinctCountsOne(a: seq<ProductId>, x: ProductId)
    requires Distinct(a)
    ensures multiset(a)[x] <= 1
  {
    if a != [] {
      assert a == [a[0]] + a[1..];
      assert Distinct(a[1..]) by {
        forall i, j | 0 <= i < j < |a[1..]| ensures a[1..][i] != a[1..][j] {
          assert a[1..][i] == a[i + 1] && a[1..][j] == a[j + 1];
        }
      }
      DistinctCountsOne(a[1..], x);
      if a[0] == x {
        assert x !in a[1..];
      }
    }
  }

  // ---------------------------------------------------------------------
  // The view
  // ---------------------------------------------------------------------

  /** `products(request)` up to pagination: every product the form selects,
      each once, ordered by the chosen key (`-created_at` by default). The
      table scan's order is left open; only the sort decides the result's
      order. */
  method ListProducts(s: Store, f: FilterForm) returns (r: seq<ProductId>)
    ensures Listed(s.products, r)
    ensures forall p :: p in r <==> p in s.products && Selected(f, s.products[p])
    ensures Distinct(r)
    ensures SortedBy(s.products, OrderOf(f), r)
  {
    var rows := ScanTable(s.products);
    rows := Filtered(s.products, rows, f);
    r := SortBy(s.products, OrderOf(f), rows);
    PermutationKeepsDistinct(rows, r);
    assert forall p :: p in r <==> p in multiset(rows);
  }

  /** `Product.objects.all()`: every product once, in an order the database
      chooses. */
  method ScanTable(ps: map<ProductId, Product>) returns (rows: seq<ProductId>)
    ensures Listed(ps, rows) && Distinct(rows)
    ensures forall p :: p in rows <==> p in ps
  {
    rows := [];
    var rest := ps.Keys;
    while rest != {}
      invariant Listed(ps, rows) && Distinct(rows)
      invariant forall p :: p in rows ==> p !in rest
      invariant forall p :: p in ps <==> p in rows || p in rest
      decreases |rest|
    {
      var p :| p in rest;
      rows := rows + [p];
      rest := rest - {p};
    }
  }

  /** The view's four `if ...: products = products.filter(...)` steps, in
      order: each applies only when the form is valid and its field is
      truthy (`is not None` for the minimum). */
  function Filtered(ps: map<ProductId, Product>, rows: seq<ProductId>, f: FilterForm): (r: seq<ProductId>)
    requires Listed(ps, rows)
    ensures Listed(ps, r)
    ensures forall p :: p in r <==> p in rows && Selected(f, ps[p])
    ensures Distinct(rows) ==> Distinct(r)
  {
    var a := if f.valid && f.name != [] then Where(ps, rows, NameHas(f.name)) else rows;
    var b := if f.valid && f.minPrice.Some? then Where(ps, a, PriceAtLeast(f.minPrice.value)) else a;
    var c := if f.valid && f.maxPrice.Some? && f.maxPrice.value != 0.0 then Where(ps, b, PriceAtMost(f.maxPrice.value)) else b;
    var r := if f.valid && f.categories != {} then Where(ps, c, InCategories(f.categories)) else c;
    FilteredSelects(ps, rows, f, a, b, c, r);
    r
  }

  lemma FilteredSelects(ps: map<ProductId, Product>, rows: seq<ProductId>, f: FilterForm,
                        a: seq<ProductId>, b: seq<ProductId>, c: seq<ProductId>, r: seq<ProductId>)
    requires Listed(ps, rows)
    requires forall p :: p in a <==> p in rows && (f.valid && f.name != [] ==> Holds(NameHas(f.name), ps[p]))
    requires forall p :: p in b <==> p in a && (f.valid && f.minPrice.Some? ==> Holds(PriceAtLeast(f.minPrice.value), ps[p]))
    requires forall p :: p in c <==>
      p in b && (f.valid && f.maxPrice.Some? && f.maxPrice.value != 0.0 ==> Holds(PriceAtMost(f.maxPrice.value), ps[p]))
    requires forall p :: p in r <==> p in c && (f.valid && f.categories != {} ==> Holds(InCategories(f.categories), ps[p]))
    ensures forall p :: p in r <==> p in rows && Selected(f, ps[p])
  {
    forall p | p in rows ensures p in r <==> Selected(f, ps[p]) {
      SharesCategory(f.categories, ps[p].categories);
    }
  }

  // ---------------------------------------------------------------------
  // Properties of the selection and the order
  // ---------------------------------------------------------------------

  /** `if max_price:` treats a maximum of zero as no maximum: every product
      a zero maximum lets through is one no maximum lets through, and the
      other way round. */
  lemma MaxZeroIgnored(f: FilterForm, p: Product)
    ensures Selected(f.(maxPrice := Some(0.0)), p) <==> Selected(f.(maxPrice := None), p)
  {
  }

  /** `if min_price is not None:` applies a minimum of zero, which drops
      every product with a negative price. */
  lemma MinZeroApplied(f: FilterForm, p: Product)
    requires f.valid && p.price < 0
    ensures !Selected(f.(minPrice := Some(0.0)), p)
  {
  }

  /** Narrowing the form never adds a product: adding a name term to a
      valid form that had none keeps only products the first form listed. */
  lemma NameTermNarrows(f: FilterForm, p: Product, term: string)
    requires f.name == []
    requires Selected(f.(name := term), p)
    ensures Selected(f, p)
  {
  }

  /** Sorted by price, descending: each listed price is at least the next. */
  lemma {:induction false} PriceDescIsDescending(ps: map<ProductId, Product>, rows: seq<ProductId>)
    requires Listed(ps, rows) && SortedBy(ps, PriceDesc, rows)
    ensures forall i, j :: 0 <= i < j < |rows| ==> ps[rows[i]].price >= ps[rows[j]].price
  {
    forall i, j | 0 <= i < j < |rows| ensures ps[rows[i]].price >= ps[rows[j]].price {
      assert Rank(PriceDesc, ps[rows[i]]) <= Rank(PriceDesc, ps[rows[j]]);
    }
  }

  /** The default order is newest first. */
  lemma {:induction false} DefaultIsNewestFirst(ps: map<ProductId, Product>, f: FilterForm, rows: seq<ProductId>)
    requires f.sortKey.None?
    requires Listed(ps, rows) && SortedBy(ps, OrderOf(f), rows)
    ensures forall i, j :: 0 <= i < j < |rows| ==> ps[rows[i]].createdAt >= ps[rows[j]].createdAt
  {
    forall i, j | 0 <= i < j < |rows| ensures ps[rows[i]].createdAt >= ps[rows[j]].createdAt {
      assert Rank(Latest, ps[rows[i]]) <= Rank(Latest, ps[rows[j]]);
    }
  }
}
