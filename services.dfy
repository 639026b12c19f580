/**
 * The service layer: the order, store and product services. Each builds or
 * rewrites an entity record from a request DTO (the object-mapper's field
 * copies, written out), assigns the fields the service owns, and writes
 * through its repository. A "not found" is an exception with a fixed message.
 * Clock readings, fresh GUIDs and saved-file paths are parameters.
 */
module Services {
  import opened Wrappers
  import opened Models
  import opened Tables
  import opened Repositories

  const OrderNotFound: string := "Order not found."
  const StoreNotFound: string := "Store not found."
  const ProductNotFound: string := "Product not found"

  // ---------------------------------------------------------------------------
  // Orders

  /**
   * The object-mapper's OrderCreateDto -> Order copy: id, date, status, store
   * and one item per line. Each item gets a fresh id and the order's id; its
   * unit price is never set and stays 0. The user id is left null.
   */
  function MapOrder(dto: OrderCreateDto, itemIds: seq<Guid>): (o: Order)
    requires |itemIds| == |dto.orderItems|
    ensures o.orderId == dto.orderId && o.orderDate == dto.orderDate && o.status == dto.status
            && o.storeId == dto.storeId && o.userId.None?
    ensures |o.orderItems| == |dto.orderItems|
    ensures forall i :: 0 <= i < |o.orderItems| ==>
              o.orderItems[i] == OrderItem(itemIds[i], dto.orderId, dto.orderItems[i].productId, dto.orderItems[i].quantity, 0)
  {
    Order(dto.orderId, dto.orderDate, dto.status, None, dto.storeId,
          seq(|dto.orderItems|, i requires 0 <= i < |dto.orderItems| =>
            OrderItem(itemIds[i], dto.orderId, dto.orderItems[i].productId, dto.orderItems[i].quantity, 0)))
  }

  /**
   * The order OrderService.AddAsync hands to the repository: the client's
   * lines and store, owned by the given user, dated now, status Pending,
   * whatever status and date the client sent.
   */
  function NewOrder(dto: OrderCreateDto, userId: Option<string>, now: DateTime, itemIds: seq<Guid>): (o: Order)
    requires |itemIds| == |dto.orderItems|
    ensures o.orderId == dto.orderId && o.storeId == dto.storeId
    ensures o.userId == userId && o.orderDate == now && o.status == Pending
    ensures |o.orderItems| == |dto.orderItems|
    ensures forall i :: 0 <= i < |o.orderItems| ==>
              o.orderItems[i].productId == dto.orderItems[i].productId
              && o.orderItems[i].quantity == dto.orderItems[i].quantity
              && o.orderItems[i].orderId == dto.orderId
              && o.orderItems[i].unitPrice == 0
  {
    var mapped := MapOrder(dto, itemIds);
    Order(mapped.orderId, now, Pending, userId, mapped.storeId, mapped.orderItems)
  }

  /** The status the client sends and the date it claims have no effect on the order that is added. */
  lemma NewOrderIgnoresClientStatusAndDate(dto: OrderCreateDto, status: string, date: DateTime,
                                           userId: Option<string>, now: DateTime, itemIds: seq<Guid>)
    requires |itemIds| == |dto.orderItems|
    ensures NewOrder(dto.(status := status, orderDate := date), userId, now, itemIds) == NewOrder(dto, userId, now, itemIds)
  {
  }

  /** The order with a new status: everything but the status as it was. */
  function WithStatus(o: Order, status: string): (r: Order)
    ensures r.status == status
    ensures r.orderId == o.orderId && r.orderDate == o.orderDate && r.userId == o.userId
            && r.storeId == o.storeId && r.orderItems == o.orderItems
  {
    o.(status := status)
  }

  class OrderService {
    const orders: OrderRepository
    /** Held by the service but never used. */
    const stores: StoreRepository

    constructor (orders: OrderRepository, stores: StoreRepository)
      ensures this.orders == orders && this.stores == stores
    {
      this.orders := orders;
      this.stores := stores;
    }

    ghost predicate Valid()
      reads orders
    {
      orders.Valid()
    }

    /** GetByIdAsync: the stored order with that id, or null. */
    function GetById(id: Guid): (r: Option<Order>)
      reads orders
      ensures r.None? <==> forall o :: o in orders.rows ==> o.orderId != id
      ensures r.Some? ==> r.value in orders.rows && r.value.orderId == id
    {
      orders.GetById(id)
    }

    /** GetAllAsync: every stored order, in the model's row order. */
    function GetAll(): (r: seq<Order>)
      reads orders
      ensures |r| == |orders.rows| && forall i :: 0 <= i < |r| ==> r[i] == orders.rows[i]
    {
      orders.GetAll()
    }

    /**
     * AddAsync: map the DTO, assign the caller's id, the current time and
     * Pending, and add. Nothing looks at products or stock. The add fails
     * only when the client-chosen order id is already stored.
     */
    method Add(dto: OrderCreateDto, userId: Option<string>, now: DateTime, itemIds: seq<Guid>) returns (out: Outcome)
      requires Valid() && |itemIds| == |dto.orderItems|
      modifies orders
      ensures Valid()
      ensures out.Fail? <==> old(orders.GetById(dto.orderId)).Some?
      ensures out.Fail? ==> out == Fail(DuplicateKey) && orders.rows == old(orders.rows)
      ensures out.Pass? ==> orders.rows == old(orders.rows) + [NewOrder(dto, userId, now, itemIds)]
      ensures out.Pass? ==> orders.GetById(dto.orderId) == Some(NewOrder(dto, userId, now, itemIds))
    {
      var order := MapOrder(dto, itemIds);
      order := order.(userId := userId);
      order := order.(orderDate := now);
      order := order.(status := "Pending");
      out := orders.Add(order);
    }

    /** UpdateStatusAsync: an unknown id throws; otherwise the status becomes exactly the given string. */
    method UpdateStatus(id: Guid, status: string) returns (out: Outcome)
      requires Valid()
      modifies orders
      ensures Valid()
      ensures old(orders.GetById(id)).None? ==> out == Fail(OrderNotFound) && orders.rows == old(orders.rows)
      ensures old(orders.GetById(id)).Some? ==>
                out == Pass
                && orders.rows == Replace(old(orders.rows), OrderKey, WithStatus(old(orders.GetById(id)).value, status))
                && orders.GetById(id) == Some(WithStatus(old(orders.GetById(id)).value, status))
      ensures forall id' :: id' != id ==> orders.GetById(id') == old(orders.GetById(id'))
    {
      var order := orders.GetById(id);
      if order.None? {
        return Fail(OrderNotFound);
      }
      var updated := order.value.(status := status);
      orders.Update(updated);
      out := Pass;
    }

    /** DeleteAsync: delegated, with no existence check. */
    method Delete(id: Guid)
      requires Valid()
      modifies orders
      ensures Valid()
      ensures orders.rows == RemoveKey(old(orders.rows), OrderKey, id)
      ensures old(orders.GetById(id)).None? ==> orders.rows == old(orders.rows)
      ensures orders.GetById(id).None?
    {
      orders.Delete(id);
    }
  }

  // ---------------------------------------------------------------------------
  // Stores

  /** SaveFile: no file gives null; a file is written to disk and its public path returned. */
  function SaveFile(file: Option<FormFile>, savedPath: string): (r: Option<string>)
    ensures r.None? <==> file.None?
    ensures file.Some? ==> r == Some(savedPath)
  {
    if file.None? then None else Some(savedPath)
  }

  /**
   * The rewrite UpdateAsync makes to a fetched store: the object-mapper copies
   * the name, the update time is stamped and the logo path replaced; the id,
   * owner and creation time stay.
   */
  function ApplyStoreUpdate(dto: StoreUpdateDto, s: Store, now: DateTime, logoUrl: Option<string>): (r: Store)
    ensures r.storeName == dto.storeName && r.updatedAt == now && r.logoUrl == logoUrl
    ensures r.storeId == s.storeId && r.userId == s.userId && r.createdAt == s.createdAt
  {
    s.(storeName := dto.storeName, updatedAt := now, logoUrl := logoUrl)
  }

  class StoreService {
    const stores: StoreRepository

    constructor (stores: StoreRepository)
      ensures this.stores == stores
    {
      this.stores := stores;
    }

    ghost predicate Valid()
      reads stores
    {
      stores.Valid()
    }

    /** GetByIdAsync: the stored store with that id, or null. */
    function GetById(id: Guid): (r: Option<Store>)
      reads stores
      ensures r.None? <==> forall s :: s in stores.rows ==> s.storeId != id
      ensures r.Some? ==> r.value in stores.rows && r.value.storeId == id
    {
      stores.GetById(id)
    }

    /**
     * AddAsync: a new store named as requested, owned by the given user id,
     * stamped with two clock readings and the saved logo's path. No check
     * that the user already owns a store: a second store is added, and the
     * owner lookup still answers with the first.
     */
    method Add(dto: StoreCreateDto, userId: Option<string>, createdAt: DateTime, updatedAt: DateTime,
               newId: Guid, savedPath: string) returns (created: Store)
      requires Valid() && stores.GetById(newId).None?
      modifies stores
      ensures Valid()
      ensures created == Store(newId, dto.storeName, userId, SaveFile(dto.logo, savedPath), createdAt, updatedAt)
      ensures stores.rows == old(stores.rows) + [created]
      ensures stores.GetById(newId) == Some(created)
      ensures old(stores.GetByUserId(userId)).Some? ==> stores.GetByUserId(userId) == old(stores.GetByUserId(userId))
    {
      var store := Store(newId, dto.storeName, None, None, createdAt, updatedAt);
      store := store.(userId := userId);
      store := store.(createdAt := createdAt);
      store := store.(updatedAt := updatedAt);
      store := store.(logoUrl := SaveFile(dto.logo, savedPath));
      FindAppend(stores.rows, StoreOwner, store, userId);
      var out := stores.Add(store);
      created := store;
    }

    /**
     * UpdateAsync: an unknown id throws; otherwise the name is copied from
     * the DTO, the update time stamped, and the logo path replaced by the
     * newly saved one, or by null when no logo is sent.
     */
    method Update(id: Guid, dto: StoreUpdateDto, now: DateTime, savedPath: string) returns (out: Outcome)
      requires Valid()
      modifies stores
      ensures Valid()
      ensures old(stores.GetById(id)).None? ==> out == Fail(StoreNotFound) && stores.rows == old(stores.rows)
      ensures old(stores.GetById(id)).Some? ==>
                var s' := ApplyStoreUpdate(dto, old(stores.GetById(id)).value, now, SaveFile(dto.logo, savedPath));
                out == Pass && stores.rows == Replace(old(stores.rows), StoreKey, s') && stores.GetById(id) == Some(s')
      ensures forall id' :: id' != id ==> stores.GetById(id') == old(stores.GetById(id'))
    {
      var store := stores.GetById(id);
      if store.None? {
        return Fail(StoreNotFound);
      }
      var updated := store.value.(storeName := dto.storeName);
      updated := updated.(updatedAt := now);
      updated := updated.(logoUrl := SaveFile(dto.logo, savedPath));
      stores.Update(updated);
      out := Pass;
    }

    /** DeleteAsync: an unknown id throws; otherwise exactly that store is removed. */
    method Delete(id: Guid) returns (out: Outcome)
      requires Valid()
      modifies stores
      ensures Valid()
      ensures old(stores.GetById(id)).None? ==> out == Fail(StoreNotFound) && stores.rows == old(stores.rows)
      ensures old(stores.GetById(id)).Some? ==>
                out == Pass && multiset(stores.rows) == multiset(old(stores.rows)) - multiset{old(stores.GetById(id)).value}
                && stores.GetById(id).None?
      ensures forall id' :: id' != id ==> stores.GetById(id') == old(stores.GetById(id'))
    {
      var store := stores.GetById(id);
      if store.None? {
        return Fail(StoreNotFound);
      }
      stores.Delete(store.value);
      out := Pass;
    }

    /** SearchStoresAsync: the stores whose name contains the query, in the model's row order. */
    function Search(query: string): (r: seq<Store>)
      reads stores
      ensures forall s :: s in r <==> s in stores.rows && exists i :: OccursAt(s.storeName, query, i)
      ensures Subsequence(r, stores.rows)
    {
      stores.SearchByName(query)
    }

    /** GetByUserId: the first store, in the model's row order, owned by that user id, or null. */
    function GetByUserId(userId: Option<string>): (r: Option<Store>)
      reads stores
      ensures r.None? <==> forall s :: s in stores.rows ==> s.userId != userId
      ensures r.Some? ==> exists i :: 0 <= i < |stores.rows| && stores.rows[i] == r.value && r.value.userId == userId
                                      && forall j :: 0 <= j < i ==> stores.rows[j].userId != userId
    {
      stores.GetByUserId(userId)
    }
  }

  // ---------------------------------------------------------------------------
  // Products

  /** The object-mapper's ProductCreateDto -> Product copy, under a fresh id; no owner and no image. */
  function NewProduct(dto: ProductCreateDto, newId: Guid): (p: Product)
    ensures p.productId == newId && p.storeId == dto.storeId
    ensures p.productName == dto.productName && p.description == dto.description
            && p.price == dto.price && p.stockQuantity == dto.stockQuantity
    ensures p.userId.None? && p.imageUrl.None?
  {
    Product(newId, dto.productName, dto.description, dto.price, dto.stockQuantity, dto.storeId, None, None)
  }

  /**
   * The object-mapper's ProductUpdateDto -> Product copy onto a fetched
   * product: name, description, price and stock come from the DTO; the id,
   * store, owner and image are not in the DTO and stay.
   */
  function ApplyProductUpdate(dto: ProductUpdateDto, p: Product): (r: Product)
    ensures r.productName == dto.productName && r.description == dto.description
            && r.price == dto.price && r.stockQuantity == dto.stockQuantity
    ensures r.productId == p.productId && r.storeId == p.storeId
            && r.userId == p.userId && r.imageUrl == p.imageUrl
  {
    p.(productName := dto.productName, description := dto.description,
       price := dto.price, stockQuantity := dto.stockQuantity)
  }

  class ProductService {
    const products: ProductRepository

    constructor (products: ProductRepository)
      ensures this.products == products
    {
      this.products := products;
    }

    ghost predicate Valid()
      reads products
    {
      products.Valid()
    }

    /** GetByIdAsync: the stored product with that id, or null. */
    function GetById(id: Guid): (r: Option<Product>)
      reads products
      ensures r.None? <==> forall p :: p in products.rows ==> p.productId != id
      ensures r.Some? ==> r.value in products.rows && r.value.productId == id
    {
      products.GetById(id)
    }

    /** GetAllAsync: every stored product, in the model's row order. */
    function GetAll(): (r: seq<Product>)
      reads products
      ensures |r| == |products.rows| && forall i :: 0 <= i < |r| ==> r[i] == products.rows[i]
    {
      products.GetAll()
    }

    /** GetByStoreIdAsync: exactly the products of that store, in the model's row order. */
    function GetByStoreId(storeId: Guid): (r: seq<Product>)
      reads products
      ensures forall p :: p in r <==> p in products.rows && p.storeId == storeId
      ensures Subsequence(r, products.rows)
    {
      products.GetByStoreId(storeId)
    }

    /** AddAsync: the product is stored with the store id given in the DTO. */
    method Add(dto: ProductCreateDto, newId: Guid)
      requires Valid() && products.GetById(newId).None?
      modifies products
      ensures Valid()
      ensures products.rows == old(products.rows) + [NewProduct(dto, newId)]
      ensures products.GetById(newId) == Some(NewProduct(dto, newId))
    {
      var product := Product(newId, dto.productName, dto.description, dto.price, dto.stockQuantity, dto.storeId, None, None);
      var out := products.Add(product);
    }

    /** UpdateAsync: an unknown id throws; otherwise the DTO's fields overwrite the stored product's. */
    method Update(id: Guid, dto: ProductUpdateDto) returns (out: Outcome)
      requires Valid()
      modifies products
      ensures Valid()
      ensures old(products.GetById(id)).None? ==> out == Fail(ProductNotFound) && products.rows == old(products.rows)
      ensures old(products.GetById(id)).Some? ==>
                var p' := ApplyProductUpdate(dto, old(products.GetById(id)).value);
                out == Pass && products.rows == Replace(old(products.rows), ProductKey, p')
                && products.GetById(id) == Some(p')
      ensures forall id' :: id' != id ==> products.GetById(id') == old(products.GetById(id'))
    {
      var product := products.GetById(id);
      if product.None? {
        return Fail(ProductNotFound);
      }
      var updated := product.value.(productName := dto.productName, description := dto.description,
                                    price := dto.price, stockQuantity := dto.stockQuantity);
      products.Update(updated);
      out := Pass;
    }

    /** DeleteAsync: delegated; an unknown id is silently ignored. */
    method Delete(id: Guid)
      requires Valid()
      modifies products
      ensures Valid()
      ensures products.rows == RemoveKey(old(products.rows), ProductKey, id)
      ensures old(products.GetById(id)).None? ==> products.rows == old(products.rows)
      ensures products.GetById(id).None?
    {
      products.Delete(id);
    }
  }
}
