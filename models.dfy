/** The entity records of the marketplace and the request DTOs that create or update them. */
module Models {
  import opened Wrappers

  /** A GUID primary key. Only equality is observable. */
  type Guid(==, !new)

  /** A clock reading (DateTime.UtcNow). Only equality is observable. */
  type DateTime(==, !new)

  /** An uploaded file (IFormFile). Its contents are never inspected. */
  type FormFile(==, !new)

  /** A line of an order. Prices are whole numbers: nothing computes with them. */
  datatype OrderItem = OrderItem(
    orderItemId: Guid,
    orderId: Guid,
    productId: Guid,
    quantity: int,
    unitPrice: int)

  datatype Order = Order(
    orderId: Guid,
    orderDate: DateTime,
    status: string,
    userId: Option<string>,
    storeId: Guid,
    orderItems: seq<OrderItem>)

  datatype Product = Product(
    productId: Guid,
    productName: string,
    description: string,
    price: int,
    stockQuantity: int,
    storeId: Guid,
    userId: Option<string>,
    imageUrl: Option<string>)

  /** A store; its owning user id is nullable, like the claim it is copied from. */
  datatype Store = Store(
    storeId: Guid,
    storeName: string,
    userId: Option<string>,
    logoUrl: Option<string>,
    createdAt: DateTime,
    updatedAt: DateTime)

  /** The part of an identity user that the repositories and controllers look at. */
  datatype User = User(
    id: string,
    userName: string,
    email: string,
    createdAt: DateTime,
    updatedAt: Option<DateTime>)

  // Primary keys and the owner column, as functions that the generic tables take.
  function OrderKey(o: Order): Guid { o.orderId }
  function ProductKey(p: Product): Guid { p.productId }
  function StoreKey(s: Store): Guid { s.storeId }
  function StoreOwner(s: Store): Option<string> { s.userId }
  function UserKey(u: User): string { u.id }

  // Request bodies.
  datatype OrderItemCreateDto = OrderItemCreateDto(productId: Guid, quantity: int)

  /** The order a client posts. Its id defaults to a fresh GUID but the client may set it. */
  datatype OrderCreateDto = OrderCreateDto(
    orderId: Guid,
    orderDate: DateTime,
    status: string,
    storeId: Guid,
    orderItems: seq<OrderItemCreateDto>)

  datatype StoreCreateDto = StoreCreateDto(storeName: string, logo: Option<FormFile>)
  datatype StoreUpdateDto = StoreUpdateDto(storeName: string, logo: Option<FormFile>)

  datatype ProductCreateDto = ProductCreateDto(
    productName: string,
    description: string,
    price: int,
    stockQuantity: int,
    storeId: Guid)

  datatype ProductUpdateDto = ProductUpdateDto(
    productName: string,
    description: string,
    price: int,
    stockQuantity: int,
    image: Option<FormFile>)

  datatype UserUpdateDto = UserUpdateDto(username: string, email: string)
}
