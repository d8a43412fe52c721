# Product catalogue over a JDBC table, modelled in Dafny

The system is a small Spring/JDBC product catalogue. A repository class issues SQL statements
against one `products` table. A service class on top of it fetches products or reports them as
not found, checks that a product exists before updating or deleting it, merges partial update
requests, and builds new products from the request body.

This model keeps the table as a value, `map<int, Row>` keyed by the primary key, plus the
auto-increment counter. Both live in the class `Repository.ProductRepository`, and each
repository method is a method of that class. Its contract states the effect of its SQL
statement on the table:

- `INSERT` adds one row under a fresh id, with `is_active` true and both timestamps equal to `now`.
- `UPDATE` rewrites the four data columns and `updated_at`. It has no filter on `is_active`.
- The soft delete only clears `is_active`.
- `COUNT(*)` counts every row, inactive ones included.
- The paged `SELECT ... ORDER BY id LIMIT size OFFSET page * size` returns a slice of the rows in id order.
- The stock batch touches only rows that exist and are active. It runs in list order, so when an id is listed twice the last entry wins.

A stored `Row` is kept apart from the `Product` the application sees. The row mapper
(`Rows.ToProduct`) reads only id, name, description, price and stock, so `is_active` and the
timestamps never reach the caller. `getInt` turns a NULL stock into 0.

The service layer is `Service.ProductService`, which holds the repository. Its pure parts are
separate functions: the "null field keeps the old value" merge (`Service.MergeDto`) and the
product built from a create request (`Service.NewProduct`).

`ORDER BY id` has a reference definition, `Rows.SortedIds`, which repeatedly takes the least
remaining id. The compiled code walks the id index instead (`Rows.IdsBetween`), and
`Rows.ScanIsOrdered` proves that the two agree. Paging is related to the whole table by
`Rows.BrowseIsPrefix` and `Rows.BrowseListsTable`: reading pages 0, 1, 2, ... in turn yields the
rows in id order, with none skipped or repeated at a page boundary.

Where the code and its comments disagree, the model follows the code:

- The comment at `ProductRepository.java:66` says the total counts active products. The `COUNT(*)` it runs counts all rows, and so does `Rows.Page`.
- `save` calls `product.setCreatedAt(now)` (`ProductRepository.java:125`), but `Product` has no such field, so that line does not compile. The model's `Save` returns the argument carrying its new id and nothing else.

## Model

| member | source | states |
|---|---|---|
| Rows.SortedIds | src/main/java/me/vasujain/ecommerce_jdbc_template/repository/ProductRepository.java:44-46 | `ORDER BY id` as a reference: the result is strictly ascending and holds exactly the given ids |
| Rows.IdsBetween | src/main/java/me/vasujain/ecommerce_jdbc_template/repository/ProductRepository.java:44-46 | the scan over the primary-key index is strictly ascending and holds exactly the table's ids in `[lo, hi)` |
| Rows.IncreasingUnique | src/main/java/me/vasujain/ecommerce_jdbc_template/repository/ProductRepository.java:46 | two strictly ascending id sequences with the same members are equal, so ordering by the unique key gives exactly one order |
| Rows.ScanIsOrdered | src/main/java/me/vasujain/ecommerce_jdbc_template/repository/ProductRepository.java:44-46 | when every id lies in `[lo, hi)`, the index scan equals the `ORDER BY id` order |
| Rows.SortedIdsCount | src/main/java/me/vasujain/ecommerce_jdbc_template/repository/ProductRepository.java:44-46 | ordering the ids loses none and repeats none: the sequence is as long as the id set is large |
| Rows.ToProduct | src/main/java/me/vasujain/ecommerce_jdbc_template/mapper/ProductRowMapper.java:11-18 | the row mapper: the product carries the row's id, name, description and price, and its stock, with a NULL stock read by `getInt` as 0; is_active and the timestamps are dropped |
| Rows.ListingAt | src/main/java/me/vasujain/ecommerce_jdbc_template/mapper/ProductRowMapper.java:11-18 | the k-th product read back is the row mapper applied to the k-th id's row |
| Rows.ListingAppend | src/main/java/me/vasujain/ecommerce_jdbc_template/repository/ProductRepository.java:73-77 | reading back two id sequences one after the other gives the products of their concatenation |
| Rows.SortedListingListsTable | src/main/java/me/vasujain/ecommerce_jdbc_template/repository/ProductRepository.java:30 | reading the whole table in id order lists every row exactly once, inactive rows included, each mapped from its own row |
| Rows.Window | src/main/java/me/vasujain/ecommerce_jdbc_template/repository/ProductRepository.java:47 | `LIMIT size OFFSET offset`: nothing past the end, otherwise `min(size, remaining)` ids, the k-th being the id at `offset + k` |
| Rows.OffsetIsProduct | src/main/java/me/vasujain/ecommerce_jdbc_template/repository/ProductRepository.java:64 | the offset the pages use equals `page * size` |
| Rows.Page | src/main/java/me/vasujain/ecommerce_jdbc_template/repository/ProductRepository.java:60-85 | the paginated result: the rows in id order, skipping `page * size` and taking at most `size`, mapped; the total is the count of all rows and page and size are echoed |
| Rows.PageCount | src/main/java/me/vasujain/ecommerce_jdbc_template/repository/ProductRepository.java:60-85 | the total is the count of all rows, active or not; page and size are echoed; the page holds at most `size` products, exactly as many as remain after skipping `page * size` rows |
| Rows.PageOrder | src/main/java/me/vasujain/ecommerce_jdbc_template/repository/ProductRepository.java:44-48 | a page lists products in strictly ascending id order, each the mapping of its own stored row |
| Rows.BrowseNext | src/main/java/me/vasujain/ecommerce_jdbc_template/repository/ProductRepository.java:44-48 | browsing starts empty, and browsing one page further appends exactly that page's content |
| Rows.PageIdsArePrefix | src/main/java/me/vasujain/ecommerce_jdbc_template/repository/ProductRepository.java:47 | consecutive windows from offset 0 cover a prefix of the ids with no gap or overlap |
| Rows.BrowseIsPrefix | src/main/java/me/vasujain/ecommerce_jdbc_template/repository/ProductRepository.java:44-48 | pages 0 .. n-1 together are the first `n * size` rows in id order (all rows, if there are fewer) |
| Rows.BrowseListsTable | src/main/java/me/vasujain/ecommerce_jdbc_template/repository/ProductRepository.java:43-48 | once the pages cover the row count, paging through lists every row exactly once |
| Rows.NewRow | src/main/java/me/vasujain/ecommerce_jdbc_template/repository/ProductRepository.java:32-35 | INSERT writes the product's name, description, price and stock, `is_active` true, and both timestamps `now` |
| Rows.UpdatedRow | src/main/java/me/vasujain/ecommerce_jdbc_template/repository/ProductRepository.java:36-41 | UPDATE rewrites name, description, price, stock_quantity and updated_at; is_active and created_at are kept |
| Rows.Deactivated | src/main/java/me/vasujain/ecommerce_jdbc_template/repository/ProductRepository.java:42 | the soft delete clears is_active and changes no other column |
| Rows.InsertReadsBack | src/main/java/me/vasujain/ecommerce_jdbc_template/repository/ProductRepository.java:32-35 | an inserted row read back through the row mapper is the inserted product with its new id |
| Rows.SoftDeleteInvisible | src/main/java/me/vasujain/ecommerce_jdbc_template/repository/ProductRepository.java:42 | a soft delete keeps every id, changes no product any read returns, and leaves every page unchanged |
| Rows.SoftDeleteIdempotent | src/main/java/me/vasujain/ecommerce_jdbc_template/repository/ProductRepository.java:42 | soft-deleting a row a second time leaves the table as after the first |
| Rows.ApplyOne | src/main/java/me/vasujain/ecommerce_jdbc_template/repository/ProductRepository.java:171 | one batch statement: an existing active row gets the new stock and updated_at `now`; the table keeps its ids, and every other row, or an absent or inactive one, is unchanged |
| Rows.StockBatch | src/main/java/me/vasujain/ecommerce_jdbc_template/repository/ProductRepository.java:174-178 | the bound parameters, one element per product in list order, holding that product's id and stock; defined only when every product has both (`Rows.Bindable`) |
| Rows.ApplyBatch | src/main/java/me/vasujain/ecommerce_jdbc_template/repository/ProductRepository.java:170-179 | the stock batch keeps every id, and changes no column of any row other than stock and updated_at |
| Rows.BatchSkips | src/main/java/me/vasujain/ecommerce_jdbc_template/repository/ProductRepository.java:171 | a row that is inactive, or that no element names, is left exactly as it was |
| Rows.BatchLastWins | src/main/java/me/vasujain/ecommerce_jdbc_template/repository/ProductRepository.java:170-179 | an active row ends with the quantity of the last element naming it, and updated_at is `now` |
| Repository.ProductRepository.FindAll | src/main/java/me/vasujain/ecommerce_jdbc_template/repository/ProductRepository.java:55-58 | every row is returned exactly once, inactive rows included, each mapped from its own row |
| Repository.ProductRepository.FindAllPaginated | src/main/java/me/vasujain/ecommerce_jdbc_template/repository/ProductRepository.java:60-85 | the result is the id-ordered window at `page * size` of at most `size` rows, with the count of all rows and the echoed coordinates |
| Repository.ProductRepository.FindById | src/main/java/me/vasujain/ecommerce_jdbc_template/repository/ProductRepository.java:87-96 | the mapped row when the id exists, whatever its is_active flag, and nothing otherwise |
| Repository.ProductRepository.Save | src/main/java/me/vasujain/ecommerce_jdbc_template/repository/ProductRepository.java:98-128 | a null stock fails with nothing written; otherwise exactly one row is added, under an id not used before, holding the product's fields with is_active true and both timestamps `now`; other rows are unchanged, the counter advances, and the returned product carries the new id and reads back as itself |
| Repository.ProductRepository.Update | src/main/java/me/vasujain/ecommerce_jdbc_template/repository/ProductRepository.java:130-152 | a null or unknown id raises the not-found error and writes nothing; otherwise only that row changes: its four data columns and updated_at, with is_active and created_at kept, inactive rows included |
| Repository.ProductRepository.DeleteById | src/main/java/me/vasujain/ecommerce_jdbc_template/repository/ProductRepository.java:154-164 | an unknown id raises the not-found error and writes nothing; otherwise that row stays, with only is_active cleared |
| Repository.ProductRepository.BulkUpdateStock | src/main/java/me/vasujain/ecommerce_jdbc_template/repository/ProductRepository.java:166-180 | a null id or stock anywhere in the list fails before any statement runs, and nothing is written; otherwise the table is the batch applied statement by statement in list order |
| Service.MergeDto | src/main/java/me/vasujain/ecommerce_jdbc_template/service/ProductServiceImpl.java:60-63 | each field set in the request replaces the product's value, each null field keeps it, and the id is kept |
| Service.MergeEmptyIsIdentity | src/main/java/me/vasujain/ecommerce_jdbc_template/service/ProductServiceImpl.java:60-63 | an all-null request leaves the product unchanged |
| Service.MergeIdempotent | src/main/java/me/vasujain/ecommerce_jdbc_template/service/ProductServiceImpl.java:60-63 | merging the same request twice gives the same product as merging it once |
| Service.NewProduct | src/main/java/me/vasujain/ecommerce_jdbc_template/service/ProductServiceImpl.java:46-51 | the product built for a create carries no id, so the id is always assigned by the insert |
| Service.ServiceUpdatedRow | src/main/java/me/vasujain/ecommerce_jdbc_template/service/ProductServiceImpl.java:58-65 | the row a service update leaves: the stored product read through the mapper, merged with the request, and written by UPDATE; is_active and created_at are kept and updated_at is `now` |
| Service.ServiceUpdateFields | src/main/java/me/vasujain/ecommerce_jdbc_template/service/ProductServiceImpl.java:58-65 | after a service update each data column holds the request's value when set and the previously read value otherwise; is_active and created_at are kept |
| Service.ServiceUpdateEmpty | src/main/java/me/vasujain/ecommerce_jdbc_template/service/ProductServiceImpl.java:58-65 | an all-null request rewrites only updated_at, except that a NULL stock comes back as 0 from the row mapper and is written back as 0 |
| Service.ServiceUpdateIdempotent | src/main/java/me/vasujain/ecommerce_jdbc_template/service/ProductServiceImpl.java:58-65 | sending the same update twice stores the same columns as sending it once; only updated_at moves |
| Service.ProductService.GetProducts | src/main/java/me/vasujain/ecommerce_jdbc_template/service/ProductServiceImpl.java:24-33 | with the flag set, the paginated result for those coordinates; without it, the list of every row exactly once |
| Service.ProductService.GetProduct | src/main/java/me/vasujain/ecommerce_jdbc_template/service/ProductServiceImpl.java:35-41 | the stored product when the id exists, active or not; otherwise the not-found error; nothing is written |
| Service.ProductService.CreateProduct | src/main/java/me/vasujain/ecommerce_jdbc_template/service/ProductServiceImpl.java:43-53 | a null stock fails with nothing written; otherwise the request's four fields are stored under a fresh id, returned with that id, and read back as returned |
| Service.ProductService.UpdateProduct | src/main/java/me/vasujain/ecommerce_jdbc_template/service/ProductServiceImpl.java:55-66 | an unknown id raises not-found before anything is written; otherwise the stored product merged with the request is written back and returned, and only that row changes |
| Service.ProductService.DeleteProduct | src/main/java/me/vasujain/ecommerce_jdbc_template/service/ProductServiceImpl.java:68-73 | an unknown id raises not-found and nothing is written; otherwise the row stays, with is_active false and nothing else changed |

## Left out

- JdbcTemplate, PreparedStatement, KeyHolder and ResultSet plumbing. Each statement is modelled only through its effect on the table.
- `@Transactional`, concurrency and isolation. Each public method is one atomic step on the table.
- Logging.
- The clock. `LocalDateTime.now()` becomes a `now` parameter.
- Prices. `BigDecimal` is an `int`, since nothing computes with prices.
- Schema constraints such as NOT NULL columns. They are not part of the source, so nullable columns are stored as given.
- The controller: HTTP routing, the response envelope, and its floating-point `totalPages`.
- The `ProductService` interface and the Lombok builders and accessors.
- Repository.ProductRepository.FindAllPaginated: requires `0 <= page`, `0 <= size` and `page * size` within a Java `int`. Negative coordinates (an SQL error) and the wrap-around of the `int` product are not modelled.
- Service.ProductService.GetProducts: requires the same page coordinates when the flag is set, since it passes them on unchecked. A negative page or size from the query string, which reaches the SQL, is not modelled.
- Repository.ProductRepository.FindAll: the source has no `ORDER BY`, so its contract promises each row exactly once and no order. The model happens to return id order.
- Repository.ProductRepository.Save: assumes the database always returns the generated key, so the case where `setId` is skipped is not modelled. The product is returned as a new value rather than mutated in place, so aliasing of the caller's object is not captured. `setCreatedAt` does not exist on `Product` and is left out.
- Repository.ProductRepository.Update: returns the product as a value. An in-place mutation of the caller's object is not captured.
- Repository.ProductRepository.BulkUpdateStock: all elements of the batch take the same `now`, while the source reads the clock once per element.
- Repository.ProductRepository.FindById: ids are `int`, so a null `Long` argument is not modelled. The same holds for DeleteById, GetProduct, UpdateProduct and DeleteProduct.
- Service.ProductService.UpdateProduct: the fetched product is rebuilt as a value with one conditional step per field, rather than mutated through setters.
