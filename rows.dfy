/** The `products` table as a value, and the effect of each SQL statement on it. */
module Rows {
  import opened Model

  /** The table: primary key `id` to the rest of the row. */
  type Table = map<int, Row>

  function Min(a: int, b: int): int { if a <= b then a else b }

  predicate StrictlyIncreasing(s: seq<int>) {
    forall i, j :: 0 <= i < j < |s| ==> s[i] < s[j]
  }

  predicate AllIn(ids: seq<int>, t: Table) {
    forall x :: x in ids ==> x in t
  }

  // ---------------------------------------------------------------------------
  // Ordering by id
  // ---------------------------------------------------------------------------

  lemma NoElementIsEmpty(s: set<int>)
    requires forall x :: x !in s
    ensures s == {}
  {
    assert forall x :: x in s <==> x in {};
  }

  lemma HasElement(s: set<int>)
    requires s != {}
    ensures exists x :: x in s
  {
    if forall x :: x !in s {
      NoElementIsEmpty(s);
    }
  }

  ghost function MinOf(s: set<int>): (m: int)
    requires s != {}
    ensures m in s && forall y :: y in s ==> m <= y
    decreases s
  {
    HasElement(s);
    var x :| x in s;
    if forall y :: y in s ==> x <= y then x
    else
      var y :| y in s && y < x;
      assert y in s - {x};
      var m' := MinOf(s - {x});
      assert forall z :: z in s ==> z == x || z in s - {x};
      m'
  }

  /** Reference definition of `ORDER BY id`: repeatedly take the least remaining id. */
  ghost function SortedIds(ids: set<int>): (r: seq<int>)
    ensures StrictlyIncreasing(r)
    ensures forall x :: x in r <==> x in ids
    decreases ids
  {
    if ids == {} then []
    else
      var m := MinOf(ids);
      var rest := SortedIds(ids - {m});
      assert forall j :: 0 <= j < |rest| ==> m < rest[j] by {
        forall j | 0 <= j < |rest| ensures m < rest[j] {
          assert rest[j] in rest;
        }
      }
      [m] + rest
  }

  /** The store's walk over its primary-key index between `lo` (inclusive) and `hi` (exclusive). */
  function IdsBetween(t: Table, lo: int, hi: int): (r: seq<int>)
    ensures StrictlyIncreasing(r)
    ensures forall x :: x in r <==> x in t && lo <= x < hi
    decreases hi - lo
  {
    if hi <= lo then []
    else
      var rest := IdsBetween(t, lo + 1, hi);
      assert forall j :: 0 <= j < |rest| ==> lo < rest[j] by {
        forall j | 0 <= j < |rest| ensures lo < rest[j] {
          assert rest[j] in rest;
        }
      }
      if lo in t then [lo] + rest else rest
  }

  lemma TailOfIncreasing(s: seq<int>)
    requires StrictlyIncreasing(s) && s != []
    ensures forall x :: x in s[1..] <==> x in s && x != s[0]
  {
    forall x | x in s && x != s[0] ensures x in s[1..] {
      var k :| 0 <= k < |s| && s[k] == x;
      assert s[1..][k - 1] == x;
    }
  }

  /** Two ascending id sequences with the same members are the same sequence. */
  lemma {:induction false} IncreasingUnique(a: seq<int>, b: seq<int>)
    requires StrictlyIncreasing(a) && StrictlyIncreasing(b)
    requires forall x :: x in a <==> x in b
    ensures a == b
    decreases |a|
  {
    if a != [] { assert a[0] in a; }
    if b != [] { assert b[0] in b; }
    if a != [] && b != [] {
      assert a[0] in b && b[0] in a;
      var i :| 0 <= i < |b| && b[i] == a[0];
      var j :| 0 <= j < |a| && a[j] == b[0];
      assert a[0] <= a[j] && b[0] <= b[i];
      assert a[0] == b[0];
      TailOfIncreasing(a);
      TailOfIncreasing(b);
      IncreasingUnique(a[1..], b[1..]);
      assert a == [a[0]] + a[1..];
      assert b == [b[0]] + b[1..];
    }
  }

  /** When every id lies in [lo, hi), the index scan yields exactly the `ORDER BY id` order. */
  lemma ScanIsOrdered(t: Table, lo: int, hi: int)
    requires forall id :: id in t ==> lo <= id < hi
    ensures IdsBetween(t, lo, hi) == SortedIds(t.Keys)
  {
    IncreasingUnique(IdsBetween(t, lo, hi), SortedIds(t.Keys));
  }

  /** Ordering the ids neither loses nor repeats one. */
  lemma {:induction false} SortedIdsCount(ids: set<int>)
    ensures |SortedIds(ids)| == |ids|
    decreases ids
  {
    if ids != {} {
      var m := MinOf(ids);
      SortedIdsCount(ids - {m});
    }
  }

  // ---------------------------------------------------------------------------
  // Reading rows
  // ---------------------------------------------------------------------------

  /** The row mapper: id, name, description, price and stock_quantity; `getInt` reads a NULL stock as 0.
      is_active and the timestamps are not read. */
  function ToProduct(id: int, row: Row): (p: Product)
    ensures p.id == Some(id) && p.name == row.name && p.description == row.description && p.price == row.price
    ensures p.stockQuantity == Some(if row.stockQuantity.Some? then row.stockQuantity.value else 0)
  {
    Product(Some(id), row.name, row.description, row.price, Some(row.stockQuantity.GetOr(0)))
  }

  /** The mapped rows for a sequence of ids, in that order. */
  function Listing(t: Table, ids: seq<int>): (r: seq<Product>)
    requires AllIn(ids, t)
    ensures |r| == |ids|
  {
    if ids == [] then []
    else
      assert forall x :: x in ids[1..] ==> x in ids;
      [ToProduct(ids[0], t[ids[0]])] + Listing(t, ids[1..])
  }

  /** The k-th listed product is the mapping of the k-th id's row. */
  lemma {:induction false} ListingAt(t: Table, ids: seq<int>, k: int)
    requires AllIn(ids, t) && 0 <= k < |ids|
    ensures ids[k] in t && Listing(t, ids)[k] == ToProduct(ids[k], t[ids[k]])
  {
    assert ids[k] in ids;
    assert forall x :: x in ids[1..] ==> x in ids;
    assert Listing(t, ids) == [ToProduct(ids[0], t[ids[0]])] + Listing(t, ids[1..]);
    if k > 0 {
      ListingAt(t, ids[1..], k - 1);
      assert ids[1..][k - 1] == ids[k];
    }
  }

  /** Every product is the mapping of its own stored row. */
  ghost predicate MappedRows(ps: seq<Product>, t: Table) {
    forall k :: 0 <= k < |ps| ==>
      ps[k].id.Some? && ps[k].id.value in t && ps[k] == ToProduct(ps[k].id.value, t[ps[k].id.value])
  }

  /** `ps` is the table read back in some order: each row mapped, each row exactly once. */
  ghost predicate ListsTable(ps: seq<Product>, t: Table) {
    && MappedRows(ps, t)
    && (forall k, l :: 0 <= k < l < |ps| ==> ps[k].id != ps[l].id)
    && (forall id :: id in t ==> ToProduct(id, t[id]) in ps)
  }

  /** The table's ids in `ORDER BY id` order. */
  ghost function OrderedIds(t: Table): (r: seq<int>)
    ensures AllIn(r, t) && |r| == |t|
    ensures r == SortedIds(t.Keys)
  {
    SortedIdsCount(t.Keys);
    SortedIds(t.Keys)
  }

  /** Reading the table in id order lists every row exactly once. */
  lemma SortedListingListsTable(t: Table)
    ensures ListsTable(Listing(t, OrderedIds(t)), t)
  {
    var ids := OrderedIds(t);
    var ps := Listing(t, ids);
    forall k | 0 <= k < |ps| ensures ps[k] == ToProduct(ids[k], t[ids[k]]) {
      ListingAt(t, ids, k);
    }
    forall id | id in t ensures ToProduct(id, t[id]) in ps {
      assert id in ids;
      var k :| 0 <= k < |ids| && ids[k] == id;
      assert ps[k] == ToProduct(id, t[id]);
    }
  }

  // ---------------------------------------------------------------------------
  // LIMIT / OFFSET
  // ---------------------------------------------------------------------------

  /** `LIMIT size OFFSET offset` over an ordered id sequence. */
  function Window(ids: seq<int>, offset: nat, size: nat): (r: seq<int>)
    ensures |r| == if |ids| <= offset then 0 else Min(size, |ids| - offset)
    ensures forall k :: 0 <= k < |r| ==> r[k] == ids[offset + k]
    ensures forall x :: x in r ==> x in ids
  {
    ids[Min(offset, |ids|)..Min(offset + size, |ids|)]
  }

  /** `page * size`, written as repeated addition so that proofs about pages stay linear. */
  function Offset(page: nat, size: nat): nat {
    if page == 0 then 0 else Offset(page - 1, size) + size
  }

  lemma {:induction false} OffsetIsProduct(page: nat, size: nat)
    ensures Offset(page, size) == page * size
  {
    if page > 0 {
      OffsetIsProduct(page - 1, size);
      assert (page - 1) * size + size == page * size;
    }
  }

  /** Page `page` of `size` rows, ordered by id, with the count of all rows (active or not). */
  ghost function Page(t: Table, page: nat, size: nat): (r: PaginatedResult)
    ensures r.totalElements == |t| && r.currentPage == page && r.pageSize == size
  {
    PaginatedResult(Listing(t, Window(OrderedIds(t), Offset(page, size), size)), |t|, page, size)
  }

  /** Every product is the mapping of its own row, and ids strictly ascend. */
  ghost predicate AscendingRows(ps: seq<Product>, t: Table) {
    && MappedRows(ps, t)
    && (forall k, l :: 0 <= k < l < |ps| ==> ps[k].id.value < ps[l].id.value)
  }

  lemma WindowListing(t: Table, ids: seq<int>, offset: nat, size: nat)
    requires AllIn(ids, t) && StrictlyIncreasing(ids)
    ensures AscendingRows(Listing(t, Window(ids, offset, size)), t)
  {
    var w := Window(ids, offset, size);
    var c := Listing(t, w);
    forall k | 0 <= k < |c| ensures c[k] == ToProduct(w[k], t[w[k]]) {
      ListingAt(t, w, k);
    }
    forall k, l | 0 <= k < l < |c| ensures c[k].id.value < c[l].id.value {
      assert c[k].id.value == w[k] == ids[offset + k];
      assert c[l].id.value == w[l] == ids[offset + l];
    }
  }

  /** A page holds at most `size` products: exactly as many as remain after skipping
      `page * size` rows. The total counts every row, and the page coordinates are echoed. */
  lemma PageCount(t: Table, page: nat, size: nat)
    ensures var r := Page(t, page, size);
      && r.totalElements == |t| && r.currentPage == page && r.pageSize == size
      && |r.content| <= size
      && |r.content| == (if |t| <= Offset(page, size) then 0 else Min(size, |t| - Offset(page, size)))
  {
    var ids := OrderedIds(t);
    assert |ids| == |t|;
    assert |Page(t, page, size).content| == |Window(ids, Offset(page, size), size)|;
  }

  /** A page lists products in strictly ascending id order, each the mapping of its own row. */
  lemma PageOrder(t: Table, page: nat, size: nat)
    ensures AscendingRows(Page(t, page, size).content, t)
  {
    WindowListing(t, OrderedIds(t), Offset(page, size), size);
  }

  /** The ids of the windows of `size` at offsets 0, size, ..., (n - 1) * size, concatenated. */
  ghost function PageIds(ids: seq<int>, size: nat, n: nat): (r: seq<int>)
    ensures forall x :: x in r ==> x in ids
  {
    if n == 0 then [] else PageIds(ids, size, n - 1) + Window(ids, Offset(n - 1, size), size)
  }

  /** What a client sees paging from the start through pages 0 .. n-1 (see BrowseNext). */
  ghost function Browse(t: Table, size: nat, n: nat): seq<Product> {
    Listing(t, PageIds(OrderedIds(t), size, n))
  }

  lemma {:induction false} ListingAppend(t: Table, a: seq<int>, b: seq<int>)
    requires AllIn(a, t) && AllIn(b, t)
    ensures AllIn(a + b, t)
    ensures Listing(t, a) + Listing(t, b) == Listing(t, a + b)
  {
    if a != [] {
      assert forall x :: x in a[1..] ==> x in a;
      ListingAppend(t, a[1..], b);
      var head := [ToProduct(a[0], t[a[0]])];
      assert (a + b)[0] == a[0] && (a + b)[1..] == a[1..] + b;
      assert Listing(t, a + b) == head + Listing(t, a[1..] + b);
      assert Listing(t, a) == head + Listing(t, a[1..]);
      assert (head + Listing(t, a[1..])) + Listing(t, b) == head + (Listing(t, a[1..]) + Listing(t, b));
    } else {
      assert a + b == b;
    }
  }

  /** Two adjacent windows make one window. */
  lemma WindowSplit(ids: seq<int>, a: nat, b: nat)
    ensures Window(ids, 0, a) + Window(ids, a, b) == Window(ids, 0, a + b)
  {
    assert ids[..Min(a, |ids|)] + ids[Min(a, |ids|)..Min(a + b, |ids|)] == ids[..Min(a + b, |ids|)];
  }

  /** Browsing starts empty, and browsing one page further appends exactly that page's content. */
  lemma BrowseNext(t: Table, size: nat, n: nat)
    ensures Browse(t, size, 0) == []
    ensures Browse(t, size, n + 1) == Browse(t, size, n) + Page(t, n, size).content
  {
    var ids := OrderedIds(t);
    ListingAppend(t, PageIds(ids, size, n), Window(ids, Offset(n, size), size));
  }

  /** Consecutive windows from the start cover a prefix of the ids without gap or overlap. */
  lemma {:induction false} PageIdsArePrefix(ids: seq<int>, size: nat, n: nat)
    ensures PageIds(ids, size, n) == Window(ids, 0, Offset(n, size))
  {
    if n > 0 {
      PageIdsArePrefix(ids, size, n - 1);
      WindowSplit(ids, Offset(n - 1, size), size);
    }
  }

  /** Paging through n pages yields the first n * size rows in id order (all of them, if there
      are fewer), with no row skipped or repeated at a page boundary. */
  lemma BrowseIsPrefix(t: Table, size: nat, n: nat)
    ensures Browse(t, size, n) == Listing(t, Window(OrderedIds(t), 0, Offset(n, size)))
  {
    PageIdsArePrefix(OrderedIds(t), size, n);
  }

  /** Once the pages cover the table, paging through lists every row exactly once. */
  lemma BrowseListsTable(t: Table, size: nat, n: nat)
    requires |t| <= Offset(n, size)
    ensures ListsTable(Browse(t, size, n), t)
  {
    BrowseIsPrefix(t, size, n);
    SortedListingListsTable(t);
    var ids := OrderedIds(t);
    assert Window(ids, 0, Offset(n, size)) == ids;
  }

  // ---------------------------------------------------------------------------
  // Writing rows
  // ---------------------------------------------------------------------------

  /** INSERT: the product's four columns, both timestamps `now`, is_active true. */
  function NewRow(p: Product, now: Timestamp): (r: Row)
    ensures r.isActive && r.createdAt == now && r.updatedAt == now
    ensures r.name == p.name && r.description == p.description && r.price == p.price
    ensures r.stockQuantity == p.stockQuantity
  {
    Row(p.name, p.description, p.price, p.stockQuantity, now, now, true)
  }

  /** UPDATE ... SET name, description, price, stock_quantity, updated_at. */
  function UpdatedRow(row: Row, p: Product, now: Timestamp): (r: Row)
    ensures r.name == p.name && r.description == p.description && r.price == p.price
    ensures r.stockQuantity == p.stockQuantity && r.updatedAt == now
    ensures r.isActive == row.isActive && r.createdAt == row.createdAt
  {
    row.(name := p.name, description := p.description, price := p.price,
         stockQuantity := p.stockQuantity, updatedAt := now)
  }

  /** The soft delete: UPDATE ... SET is_active = false. */
  function Deactivated(row: Row): (r: Row)
    ensures !r.isActive && r.(isActive := row.isActive) == row
  {
    row.(isActive := false)
  }

  /** An inserted product reads back as itself with the new id. */
  lemma InsertReadsBack(p: Product, id: int, now: Timestamp)
    requires p.stockQuantity.Some?
    ensures ToProduct(id, NewRow(p, now)) == p.(id := Some(id))
  {
  }

  /** Two tables whose rows map to the same products list the same products. */
  lemma ListingAgrees(t: Table, u: Table, ids: seq<int>)
    requires AllIn(ids, t) && AllIn(ids, u)
    requires forall x :: x in ids ==> ToProduct(x, t[x]) == ToProduct(x, u[x])
    ensures Listing(t, ids) == Listing(u, ids)
  {
    forall k | 0 <= k < |ids| ensures Listing(t, ids)[k] == Listing(u, ids)[k] {
      assert ids[k] in ids;
      ListingAt(t, ids, k);
      ListingAt(u, ids, k);
    }
  }

  /** A soft delete changes nothing any read of this table can see: the mapper drops is_active
      and no query filters on it. */
  lemma SoftDeleteInvisible(t: Table, id: int, page: nat, size: nat)
    requires id in t
    ensures var t' := t[id := Deactivated(t[id])];
      && t'.Keys == t.Keys
      && (forall x :: x in t ==> ToProduct(x, t'[x]) == ToProduct(x, t[x]))
      && Page(t', page, size) == Page(t, page, size)
  {
    var t' := t[id := Deactivated(t[id])];
    assert t'.Keys == t.Keys;
    assert OrderedIds(t') == OrderedIds(t);
    var w := Window(OrderedIds(t), Offset(page, size), size);
    ListingAgrees(t', t, w);
  }

  /** Soft-deleting a row twice leaves the table as soft-deleting it once. */
  lemma SoftDeleteIdempotent(t: Table, id: int)
    requires id in t
    ensures var t' := t[id := Deactivated(t[id])];
      id in t' && t'[id := Deactivated(t'[id])] == t'
  {
  }

  // ---------------------------------------------------------------------------
  // The stock batch: UPDATE ... SET stock_quantity = ?, updated_at = ? WHERE id = ? AND is_active = true
  // ---------------------------------------------------------------------------

  /** Only stock_quantity and updated_at differ. */
  predicate SameExceptStock(a: Row, b: Row) {
    a.name == b.name && a.description == b.description && a.price == b.price
    && a.createdAt == b.createdAt && a.isActive == b.isActive
  }

  /** One statement of the batch. */
  function ApplyOne(t: Table, u: StockUpdate, now: Timestamp): (r: Table)
    ensures r.Keys == t.Keys
    ensures forall id :: id in t && (id != u.id || !t[id].isActive) ==> r[id] == t[id]
    ensures u.id in t && t[u.id].isActive ==>
      r[u.id] == t[u.id].(stockQuantity := Some(u.quantity), updatedAt := now)
  {
    if u.id in t && t[u.id].isActive
    then t[u.id := t[u.id].(stockQuantity := Some(u.quantity), updatedAt := now)]
    else t
  }

  /** The batch run statement by statement in list order. */
  function ApplyBatch(t: Table, batch: seq<StockUpdate>, now: Timestamp): (r: Table)
    ensures r.Keys == t.Keys
    ensures forall id :: id in t ==> SameExceptStock(r[id], t[id])
    decreases |batch|
  {
    if batch == [] then t
    else ApplyOne(ApplyBatch(t, batch[..|batch| - 1], now), batch[|batch| - 1], now)
  }

  /** A row that is inactive, or whose id the batch never names, is left as it was. */
  lemma {:induction false} BatchSkips(t: Table, batch: seq<StockUpdate>, now: Timestamp, id: int)
    requires id in t
    requires !t[id].isActive || forall k :: 0 <= k < |batch| ==> batch[k].id != id
    ensures ApplyBatch(t, batch, now)[id] == t[id]
    decreases |batch|
  {
    if batch != [] {
      BatchSkips(t, batch[..|batch| - 1], now, id);
    }
  }

  /** An active row named by the batch ends with the quantity of the LAST element naming it. */
  lemma {:induction false} BatchLastWins(t: Table, batch: seq<StockUpdate>, now: Timestamp, k: int)
    requires 0 <= k < |batch|
    requires batch[k].id in t && t[batch[k].id].isActive
    requires forall j :: k < j < |batch| ==> batch[j].id != batch[k].id
    ensures ApplyBatch(t, batch, now)[batch[k].id]
         == t[batch[k].id].(stockQuantity := Some(batch[k].quantity), updatedAt := now)
    decreases |batch|
  {
    var front := batch[..|batch| - 1];
    if k < |batch| - 1 {
      BatchLastWins(t, front, now, k);
    }
  }

  /** The parameters the batch binds, one element per product. */
  predicate Bindable(p: Product) {
    p.id.Some? && p.stockQuantity.Some?
  }

  function StockBatch(ps: seq<Product>): (r: seq<StockUpdate>)
    requires forall k :: 0 <= k < |ps| ==> Bindable(ps[k])
    ensures |r| == |ps|
    ensures forall k :: 0 <= k < |r| ==>
      Some(r[k].id) == ps[k].id && Some(r[k].quantity) == ps[k].stockQuantity
  {
    seq(|ps|, k requires 0 <= k < |ps| && Bindable(ps[k]) => StockUpdate(ps[k].id.value, ps[k].stockQuantity.value))
  }
}
