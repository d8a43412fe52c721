/** The values that travel between the layers: the entity, the request payload,
    the paged view, the stored row and the errors the layers raise. */
module Model {

  /** Stands in for a Java reference that may be null. */
  datatype Option<+T> = None | Some(value: T) {
    function GetOr(default: T): T {
      match this
      case Some(v) => v
      case None => default
    }
  }

  /** A call that either returns a value or throws one of the errors below. */
  datatype Result<+T, +E> = Ok(value: T) | Err(error: E)

  /** Prices are BigDecimal in the source; nothing computes with them, so any value type will do. */
  type Price = int

  /** A LocalDateTime, as supplied by the caller instead of read from a clock. */
  type Timestamp = int

  /** Largest value of a Java `int`. */
  const MaxInt: int := 0x7fff_ffff

  datatype Error =
    | EmptyResultDataAccess(key: Option<int>) // the repository's UPDATE matched no row
    | ResourceNotFound(id: int)              // the service found no product with this id
    | NullPointer                            // a null Integer or Long was unboxed while binding parameters

  /** The entity as the application sees it: the five columns the row mapper reads. */
  datatype Product = Product(
    id: Option<int>,
    name: Option<string>,
    description: Option<string>,
    price: Option<Price>,
    stockQuantity: Option<int>)

  /** The request body for create and update; a None field was absent (null) in the JSON. */
  datatype ProductDto = ProductDto(
    name: Option<string>,
    description: Option<string>,
    price: Option<Price>,
    stockQuantity: Option<int>)

  /** One row of the `products` table, without its id (the id is the table's key). */
  datatype Row = Row(
    name: Option<string>,
    description: Option<string>,
    price: Option<Price>,
    stockQuantity: Option<int>,
    createdAt: Timestamp,
    updatedAt: Timestamp,
    isActive: bool)

  datatype PaginatedResult = PaginatedResult(
    content: seq<Product>,
    totalElements: int,
    currentPage: int,
    pageSize: int)

  /** What `getProducts` returns: a page, or the plain list of all products. */
  datatype ProductsResult = Paginated(page: PaginatedResult) | Listed(products: seq<Product>)

  /** The parameters one element of the stock batch binds: `stock_quantity = ?` and `id = ?`. */
  datatype StockUpdate = StockUpdate(id: int, quantity: int)
}
