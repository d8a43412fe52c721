/** The data-access object: each public method issues one SQL statement (or one batch)
    against the `products` table, which the class holds as its state. */
module Repository {
  import opened Model
  import opened Rows

  /** Page coordinates the paginated query accepts: LIMIT and OFFSET are non-negative and
      `page * size` is computed in a Java `int`. */
  predicate PageArgs(page: int, size: int) {
    0 <= page && 0 <= size && page * size <= MaxInt
  }

  class ProductRepository {
    /** The `products` table, keyed by the primary key `id`. */
    var rows: Table
    /** The next value the auto-increment `id` column hands out. */
    var nextId: int

    /** Every stored id was handed out by the auto-increment column before `nextId`. */
    ghost predicate Valid()
      reads this
    {
      1 <= nextId && forall id :: id in rows ==> 1 <= id < nextId
    }

    /** A repository over an existing table whose ids all precede the auto-increment counter. */
    constructor (initial: Table, next: int)
      requires 1 <= next && forall id :: id in initial ==> 1 <= id < next
      ensures Valid() && rows == initial && nextId == next
    {
      rows := initial;
      nextId := next;
    }

    /** SELECT * FROM products: every row, inactive ones included, each once; no order is promised. */
    method FindAll() returns (r: seq<Product>)
      requires Valid()
      ensures ListsTable(r, rows)
    {
      var ids := IdsBetween(rows, 1, nextId);
      ScanIsOrdered(rows, 1, nextId);
      SortedListingListsTable(rows);
      r := Listing(rows, ids);
    }

    /** COUNT(*) for the total, then SELECT * ... ORDER BY id LIMIT size OFFSET page * size. */
    method FindAllPaginated(page: int, size: int) returns (r: PaginatedResult)
      requires Valid()
      requires PageArgs(page, size)
      ensures r == Page(rows, page, size)
    {
      var offset := page * size;
      OffsetIsProduct(page, size);
      var totalElements := |rows|;
      var ids := IdsBetween(rows, 1, nextId);
      ScanIsOrdered(rows, 1, nextId);
      var products := Listing(rows, Window(ids, offset, size));
      r := PaginatedResult(products, totalElements, page, size);
    }

    /** SELECT * FROM products WHERE id = ?: the row whatever its is_active flag, or nothing. */
    method FindById(id: int) returns (r: Option<Product>)
      ensures id in rows ==> r == Some(ToProduct(id, rows[id]))
      ensures id !in rows ==> r == None
    {
      if id in rows {
        r := Some(ToProduct(id, rows[id]));
      } else {
        r := None;
      }
    }

    /** INSERT with a generated id. Binding a null stock quantity with `setInt` throws before the
        statement runs. On success the argument comes back carrying the new id, and reading that
        id returns it unchanged. */
    method Save(product: Product, now: Timestamp) returns (r: Result<Product, Error>)
      requires Valid()
      modifies this
      ensures Valid()
      ensures product.stockQuantity.None? ==>
        r == Err(NullPointer) && rows == old(rows) && nextId == old(nextId)
      ensures product.stockQuantity.Some? ==>
        && old(nextId) !in old(rows)
        && rows == old(rows)[old(nextId) := NewRow(product, now)]
        && nextId == old(nextId) + 1
        && r == Ok(product.(id := Some(old(nextId))))
        && ToProduct(old(nextId), rows[old(nextId)]) == r.value
    {
      if product.stockQuantity.None? {
        return Err(NullPointer);
      }
      var id := nextId;
      rows := rows[id := NewRow(product, now)];
      nextId := nextId + 1;
      InsertReadsBack(product, id, now);
      r := Ok(product.(id := Some(id)));
    }

    /** UPDATE of the four data columns and updated_at WHERE id = ?; an inactive row is updated
        too. Zero affected rows (a null or unknown id) raise the not-found error. */
    method Update(product: Product, now: Timestamp) returns (r: Result<Product, Error>)
      requires Valid()
      modifies this
      ensures Valid() && nextId == old(nextId)
      ensures (product.id.None? || product.id.value !in old(rows)) ==>
        r == Err(EmptyResultDataAccess(product.id)) && rows == old(rows)
      ensures product.id.Some? && product.id.value in old(rows) ==>
        && r == Ok(product)
        && rows == old(rows)[product.id.value := UpdatedRow(old(rows)[product.id.value], product, now)]
    {
      if product.id.None? || product.id.value !in rows {
        return Err(EmptyResultDataAccess(product.id));
      }
      var id := product.id.value;
      rows := rows[id := UpdatedRow(rows[id], product, now)];
      r := Ok(product);
    }

    /** The soft delete: UPDATE ... SET is_active = false WHERE id = ?. The row stays; deleting
        an already inactive row succeeds again; an unknown id raises the not-found error. */
    method DeleteById(id: int) returns (r: Result<(), Error>)
      requires Valid()
      modifies this
      ensures Valid() && nextId == old(nextId)
      ensures id !in old(rows) ==> r == Err(EmptyResultDataAccess(Some(id))) && rows == old(rows)
      ensures id in old(rows) ==> r == Ok(()) && rows == old(rows)[id := Deactivated(old(rows)[id])]
    {
      if id !in rows {
        return Err(EmptyResultDataAccess(Some(id)));
      }
      rows := rows[id := Deactivated(rows[id])];
      r := Ok(());
    }

    /** One batch of `UPDATE ... SET stock_quantity = ?, updated_at = ? WHERE id = ? AND
        is_active = true`. All parameters are bound first; a null id or quantity throws while
        binding, before anything runs. Then the statements run in list order; a row that is
        absent or inactive matches nothing and is silently skipped. */
    method BulkUpdateStock(products: seq<Product>, now: Timestamp) returns (r: Result<(), Error>)
      requires Valid()
      modifies this
      ensures Valid() && nextId == old(nextId)
      ensures (forall k :: 0 <= k < |products| ==> Bindable(products[k])) ==>
        r == Ok(()) && rows == ApplyBatch(old(rows), StockBatch(products), now)
      ensures !(forall k :: 0 <= k < |products| ==> Bindable(products[k])) ==>
        r == Err(NullPointer) && rows == old(rows)
    {
      // Bind every element's parameters into the batch.
      var batch: seq<StockUpdate> := [];
      var i := 0;
      while i < |products|
        invariant 0 <= i <= |products|
        invariant forall k :: 0 <= k < i ==> Bindable(products[k])
        invariant |batch| == i
        invariant forall k :: 0 <= k < i ==>
          batch[k] == StockUpdate(products[k].id.value, products[k].stockQuantity.value)
      {
        var p := products[i];
        if p.stockQuantity.None? || p.id.None? {
          return Err(NullPointer);
        }
        batch := batch + [StockUpdate(p.id.value, p.stockQuantity.value)];
        i := i + 1;
      }
      assert batch == StockBatch(products);
      // Execute the batch.
      var j := 0;
      while j < |batch|
        invariant 0 <= j <= |batch|
        invariant rows == ApplyBatch(old(rows), batch[..j], now)
        invariant nextId == old(nextId)
      {
        assert batch[..j + 1][..j] == batch[..j];
        rows := ApplyOne(rows, batch[j], now);
        j := j + 1;
      }
      assert batch[..j] == batch;
      r := Ok(());
    }
  }
}
