/** The business layer above the repository: fetch-or-not-found, existence checks before
    update and delete, the partial-update merge, and building a new product from the request. */
module Service {
  import opened Model
  import opened Rows
  import opened Repository

  /** A field the request sets replaces the current value; a null one keeps it. */
  function Patch<T>(requested: Option<T>, current: Option<T>): Option<T> {
    if requested.Some? then requested else current
  }

  /** The partial-update merge, field by field. */
  function MergeDto(p: Product, dto: ProductDto): (r: Product)
    ensures r.id == p.id
    ensures dto.name.Some? ==> r.name == dto.name
    ensures dto.name.None? ==> r.name == p.name
    ensures dto.description.Some? ==> r.description == dto.description
    ensures dto.description.None? ==> r.description == p.description
    ensures dto.price.Some? ==> r.price == dto.price
    ensures dto.price.None? ==> r.price == p.price
    ensures dto.stockQuantity.Some? ==> r.stockQuantity == dto.stockQuantity
    ensures dto.stockQuantity.None? ==> r.stockQuantity == p.stockQuantity
  {
    Product(p.id, Patch(dto.name, p.name), Patch(dto.description, p.description),
            Patch(dto.price, p.price), Patch(dto.stockQuantity, p.stockQuantity))
  }

  /** A request with every field null. */
  predicate IsEmptyDto(dto: ProductDto) {
    dto.name.None? && dto.description.None? && dto.price.None? && dto.stockQuantity.None?
  }

  /** An all-null request changes nothing in the product. */
  lemma MergeEmptyIsIdentity(p: Product, dto: ProductDto)
    requires IsEmptyDto(dto)
    ensures MergeDto(p, dto) == p
  {
  }

  /** Merging the same request twice is merging it once. */
  lemma MergeIdempotent(p: Product, dto: ProductDto)
    ensures MergeDto(MergeDto(p, dto), dto) == MergeDto(p, dto)
  {
  }

  /** The product built from a create request: the four request fields and no id. */
  function NewProduct(dto: ProductDto): (p: Product)
    ensures p.id.None?
  {
    Product(None, dto.name, dto.description, dto.price, dto.stockQuantity)
  }

  /** The row a service update leaves: the stored product read back, merged with the request,
      and written with the repository's UPDATE. */
  function ServiceUpdatedRow(id: int, row: Row, dto: ProductDto, now: Timestamp): (r: Row)
    ensures r.isActive == row.isActive && r.createdAt == row.createdAt && r.updatedAt == now
  {
    UpdatedRow(row, MergeDto(ToProduct(id, row), dto), now)
  }

  /** After a service update each data column holds the request's value when it was set and
      the previously read value otherwise; is_active and created_at are never touched, so an
      inactive product is updated and stays inactive. */
  lemma ServiceUpdateFields(id: int, row: Row, dto: ProductDto, now: Timestamp)
    ensures var r := ServiceUpdatedRow(id, row, dto, now);
      && r.name == (if dto.name.Some? then dto.name else row.name)
      && r.description == (if dto.description.Some? then dto.description else row.description)
      && r.price == (if dto.price.Some? then dto.price else row.price)
      && r.stockQuantity == (if dto.stockQuantity.Some? then dto.stockQuantity
                             else Some(row.stockQuantity.GetOr(0)))
      && r.isActive == row.isActive && r.createdAt == row.createdAt && r.updatedAt == now
  {
  }

  /** An all-null request rewrites only updated_at, except that a NULL stock quantity, read
      back as 0 by the row mapper, is written back as 0. */
  lemma ServiceUpdateEmpty(id: int, row: Row, dto: ProductDto, now: Timestamp)
    requires IsEmptyDto(dto)
    ensures ServiceUpdatedRow(id, row, dto, now)
         == row.(stockQuantity := Some(row.stockQuantity.GetOr(0)), updatedAt := now)
    ensures row.stockQuantity.Some? ==> ServiceUpdatedRow(id, row, dto, now) == row.(updatedAt := now)
  {
    MergeEmptyIsIdentity(ToProduct(id, row), dto);
  }

  /** Sending the same update twice stores the same columns as sending it once; only updated_at
      moves. */
  lemma ServiceUpdateIdempotent(id: int, row: Row, dto: ProductDto, now1: Timestamp, now2: Timestamp)
    ensures var once := ServiceUpdatedRow(id, row, dto, now1);
      ServiceUpdatedRow(id, once, dto, now2) == once.(updatedAt := now2)
  {
    var merged := MergeDto(ToProduct(id, row), dto);
    var once := ServiceUpdatedRow(id, row, dto, now1);
    assert ToProduct(id, once) == merged;
    MergeIdempotent(ToProduct(id, row), dto);
  }

  class ProductService {
    const repository: ProductRepository

    constructor (repository: ProductRepository)
      ensures this.repository == repository
    {
      this.repository := repository;
    }

    /** The list, or a page of it, depending on the flag. */
    method GetProducts(paginate: bool, page: int, size: int) returns (r: ProductsResult)
      requires repository.Valid()
      requires paginate ==> PageArgs(page, size)
      ensures paginate ==> r == Paginated(Page(repository.rows, page, size))
      ensures !paginate ==> r.Listed? && ListsTable(r.products, repository.rows)
    {
      if paginate {
        var result := repository.FindAllPaginated(page, size);
        r := Paginated(result);
      } else {
        var products := repository.FindAll();
        r := Listed(products);
      }
    }

    /** The stored product, active or not, or the not-found error. */
    method GetProduct(id: int) returns (r: Result<Product, Error>)
      ensures id in repository.rows ==> r == Ok(ToProduct(id, repository.rows[id]))
      ensures id !in repository.rows ==> r == Err(ResourceNotFound(id))
    {
      var found := repository.FindById(id);
      if found.None? {
        return Err(ResourceNotFound(id));
      }
      r := Ok(found.value);
    }

    /** Inserts the request's four fields under a freshly generated id; the request carries no id. */
    method CreateProduct(dto: ProductDto, now: Timestamp) returns (r: Result<Product, Error>)
      requires repository.Valid()
      modifies repository
      ensures repository.Valid()
      ensures dto.stockQuantity.None? ==>
        && r == Err(NullPointer)
        && repository.rows == old(repository.rows) && repository.nextId == old(repository.nextId)
      ensures dto.stockQuantity.Some? ==>
        var id := old(repository.nextId);
        && id !in old(repository.rows)
        && repository.nextId == id + 1
        && repository.rows == old(repository.rows)[id := NewRow(NewProduct(dto), now)]
        && r == Ok(Product(Some(id), dto.name, dto.description, dto.price, dto.stockQuantity))
        && ToProduct(id, repository.rows[id]) == r.value
    {
      var product := NewProduct(dto);
      r := repository.Save(product, now);
    }

    /** Reads the product (not found: nothing is written), applies each non-null request field
        in turn, and writes all four columns back. */
    method UpdateProduct(id: int, dto: ProductDto, now: Timestamp) returns (r: Result<Product, Error>)
      requires repository.Valid()
      modifies repository
      ensures repository.Valid() && repository.nextId == old(repository.nextId)
      ensures id !in old(repository.rows) ==>
        r == Err(ResourceNotFound(id)) && repository.rows == old(repository.rows)
      ensures id in old(repository.rows) ==>
        && r == Ok(MergeDto(ToProduct(id, old(repository.rows)[id]), dto))
        && repository.rows
           == old(repository.rows)[id := ServiceUpdatedRow(id, old(repository.rows)[id], dto, now)]
    {
      var found := GetProduct(id);
      if found.Err? {
        return found;
      }
      var product := found.value;
      if dto.name.Some? { product := product.(name := dto.name); }
      if dto.description.Some? { product := product.(description := dto.description); }
      if dto.price.Some? { product := product.(price := dto.price); }
      if dto.stockQuantity.Some? { product := product.(stockQuantity := dto.stockQuantity); }
      assert product == MergeDto(found.value, dto);
      r := repository.Update(product, now);
    }

    /** Checks the product exists (not found: nothing is written), then soft-deletes it. */
    method DeleteProduct(id: int) returns (r: Result<(), Error>)
      requires repository.Valid()
      modifies repository
      ensures repository.Valid() && repository.nextId == old(repository.nextId)
      ensures id !in old(repository.rows) ==>
        r == Err(ResourceNotFound(id)) && repository.rows == old(repository.rows)
      ensures id in old(repository.rows) ==>
        && r == Ok(())
        && repository.rows == old(repository.rows)[id := Deactivated(old(repository.rows)[id])]
        && !repository.rows[id].isActive
    {
      var found := GetProduct(id);
      if found.Err? {
        return Err(found.error);
      }
      r := repository.DeleteById(id);
    }
  }
}
