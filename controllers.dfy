/**
 * The four API controllers. Each action first passes the role policy on its
 * route (when it has one), then looks the resource up, applies its ownership
 * test, calls the service and turns the answer into an action result. The
 * caller is a Principal; the clock, fresh ids and saved-file paths the
 * services need are parameters.
 */
module Controllers {
  import opened Wrappers
  import opened Models
  import opened Tables
  import opened Repositories
  import opened Services
  import opened Http
  import opened Authorization

  /** The answer of the authorization middleware to a caller the policy turns away: 401 without a token, 403 with one. */
  function Refusal<T>(p: Principal): (r: HttpResult<T>)
    ensures r.Challenge? <==> !p.authenticated
    ensures r.Forbid? <==> p.authenticated
  {
    if p.authenticated then Forbid else Challenge
  }

  /** The result an action guarded by a policy returns when the policy turns the caller away, and None when it lets it through. */
  function Gate<T>(policy: set<string>, p: Principal): (r: Option<HttpResult<T>>)
    ensures r.None? <==> exists role :: role in policy && IsInRole(p, role)
    ensures r.Some? ==> r == Some(Refusal(p))
  {
    match EvaluatePolicy(policy, p)
    case Allow => None
    case DenyChallenge => Some(Challenge)
    case DenyForbid => Some(Forbid)
  }

  // ---------------------------------------------------------------------------
  // Stores

  /**
   * What StoreController.Update and Delete decide before calling the service,
   * in their order: the AdminOrSeller policy, then NotFound for an unknown
   * id, then Forbid unless the caller owns the store or is "admin". None:
   * the service is called.
   */
  function StoreWriteDecision(p: Principal, found: Option<Store>): (r: Option<HttpResult<()>>)
    ensures r.None? <==> EvaluatePolicy(AdminOrSellerPolicy, p).Allow? && found.Some? && MayManageStore(p, found.value)
    ensures !EvaluatePolicy(AdminOrSellerPolicy, p).Allow? ==> r == Some(Refusal(p))
    ensures EvaluatePolicy(AdminOrSellerPolicy, p).Allow? && found.None? ==> r == Some(NotFound)
    ensures EvaluatePolicy(AdminOrSellerPolicy, p).Allow? && found.Some? && !MayManageStore(p, found.value)
            ==> r == Some(Forbid)
  {
    var gate := Gate<()>(AdminOrSellerPolicy, p);
    if gate.Some? then gate
    else if found.None? then Some(NotFound)
    else if !MayManageStore(p, found.value) then Some(Forbid)
    else None
  }

  /** The owner test compares the exact, lower-case role: a caller holding only "Admin" who is a seller but not the owner is forbidden. */
  lemma StoreAdminBypassIsCaseSensitive(p: Principal, store: Store)
    requires p.authenticated && p.roles == {SellerRole, UserControllerAdminRole}
    requires store.userId != p.nameIdentifier
    ensures StoreWriteDecision(p, Some(store)) == Some(Forbid)
  {
    assert IsInRole(p, SellerRole);
  }

  class StoreController {
    const service: StoreService

    constructor (service: StoreService)
      ensures this.service == service
    {
      this.service := service;
    }

    ghost predicate Valid()
      reads service.stores
    {
      service.Valid()
    }

    /** GetById: for a caller in admin, seller or buyer, NotFound for an unknown id and Ok with the store otherwise. */
    function GetById(p: Principal, id: Guid): (r: HttpResult<Store>)
      reads service.stores
      ensures !EvaluatePolicy(AdminOrSellerOrBuyerPolicy, p).Allow? ==> r == Refusal(p)
      ensures EvaluatePolicy(AdminOrSellerOrBuyerPolicy, p).Allow? ==>
                (r.NotFound? <==> forall s :: s in service.stores.rows ==> s.storeId != id)
      ensures EvaluatePolicy(AdminOrSellerOrBuyerPolicy, p).Allow? && !r.NotFound? ==>
                r.Ok? && r.body in service.stores.rows && r.body.storeId == id
    {
      var gate := Gate<Store>(AdminOrSellerOrBuyerPolicy, p);
      if gate.Some? then gate.value else FromNullable(service.GetById(id))
    }

    /**
     * Create: for an admin or seller, a new store owned by the caller's
     * NameIdentifier (null when the token has none), answered with Created
     * carrying its id.
     */
    method Create(p: Principal, dto: StoreCreateDto, createdAt: DateTime, updatedAt: DateTime,
                  newId: Guid, savedPath: string) returns (r: HttpResult<Store>)
      requires Valid() && service.GetById(newId).None?
      modifies service.stores
      ensures Valid()
      ensures !EvaluatePolicy(AdminOrSellerPolicy, p).Allow? ==>
                r == Refusal(p) && service.stores.rows == old(service.stores.rows)
      ensures EvaluatePolicy(AdminOrSellerPolicy, p).Allow? ==>
                var s := Store(newId, dto.storeName, p.nameIdentifier, SaveFile(dto.logo, savedPath), createdAt, updatedAt);
                r == Created(newId, s) && service.stores.rows == old(service.stores.rows) + [s]
    {
      var gate := Gate<Store>(AdminOrSellerPolicy, p);
      if gate.Some? {
        return gate.value;
      }
      var userId := p.nameIdentifier;
      var created := service.Add(dto, userId, createdAt, updatedAt, newId, savedPath);
      r := Created(created.storeId, created);
    }

    /** Update: NotFound, then Forbid, then the service update and NoContent; nothing changes unless the update runs. */
    method Update(p: Principal, id: Guid, dto: StoreUpdateDto, now: DateTime, savedPath: string) returns (r: HttpResult<()>)
      requires Valid()
      modifies service.stores
      ensures Valid()
      ensures StoreWriteDecision(p, old(service.GetById(id))).Some? ==>
                r == StoreWriteDecision(p, old(service.GetById(id))).value
                && service.stores.rows == old(service.stores.rows)
      ensures StoreWriteDecision(p, old(service.GetById(id))).None? ==>
                var s' := ApplyStoreUpdate(dto, old(service.GetById(id)).value, now, SaveFile(dto.logo, savedPath));
                r == NoContent && service.stores.rows == Replace(old(service.stores.rows), StoreKey, s')
                && service.GetById(id) == Some(s')
    {
      var store := service.GetById(id);
      var decision := StoreWriteDecision(p, store);
      if decision.Some? {
        return decision.value;
      }
      var out := service.Update(id, dto, now, savedPath);
      r := NoContent;
    }

    /** Delete: NotFound, then Forbid, then removal of exactly that store and NoContent. */
    method Delete(p: Principal, id: Guid) returns (r: HttpResult<()>)
      requires Valid()
      modifies service.stores
      ensures Valid()
      ensures StoreWriteDecision(p, old(service.GetById(id))).Some? ==>
                r == StoreWriteDecision(p, old(service.GetById(id))).value
                && service.stores.rows == old(service.stores.rows)
      ensures StoreWriteDecision(p, old(service.GetById(id))).None? ==>
                r == NoContent
                && multiset(service.stores.rows) == multiset(old(service.stores.rows)) - multiset{old(service.GetById(id)).value}
                && service.GetById(id).None?
    {
      var store := service.GetById(id);
      var decision := StoreWriteDecision(p, store);
      if decision.Some? {
        return decision.value;
      }
      var out := service.Delete(id);
      r := NoContent;
    }

    /** Search: open to anyone, and Ok even when no store matches. */
    function Search(name: string): (r: HttpResult<seq<Store>>)
      reads service.stores
      ensures r.Ok?
      ensures forall s :: s in r.body <==> s in service.stores.rows && exists i :: OccursAt(s.storeName, name, i)
    {
      Ok(service.Search(name))
    }
  }

  // ---------------------------------------------------------------------------
  // Users

  /** The rewrite UserService.UpdateAsync makes to the stored user: the user name and e-mail from the DTO. */
  function ApplyUserUpdate(dto: UserUpdateDto, u: User): (r: User)
    ensures r.userName == dto.username && r.email == dto.email
    ensures r.id == u.id && r.createdAt == u.createdAt && r.updatedAt == u.updatedAt
  {
    u.(userName := dto.username, email := dto.email)
  }

  /**
   * What UserController.Update and Delete decide before calling the service,
   * in their order: the AdminOrSellerOrBuyer policy, then NotFound for an
   * unknown id (whoever asks), then Forbid unless the caller has a
   * NameIdentifier and is "Admin" or that user. None: the service is called.
   */
  function UserWriteDecision(p: Principal, id: string, found: Option<User>): (r: Option<HttpResult<()>>)
    ensures r.None? <==> EvaluatePolicy(AdminOrSellerOrBuyerPolicy, p).Allow? && found.Some? && MayManageUser(p, id)
    ensures !EvaluatePolicy(AdminOrSellerOrBuyerPolicy, p).Allow? ==> r == Some(Refusal(p))
    ensures EvaluatePolicy(AdminOrSellerOrBuyerPolicy, p).Allow? && found.None? ==> r == Some(NotFound)
    ensures EvaluatePolicy(AdminOrSellerOrBuyerPolicy, p).Allow? && found.Some? && p.nameIdentifier.None? ==> r == Some(Forbid)
    ensures EvaluatePolicy(AdminOrSellerOrBuyerPolicy, p).Allow? && found.Some?
              && !IsInRole(p, UserControllerAdminRole) && p.nameIdentifier != Some(id)
            ==> r == Some(Forbid)
  {
    var gate := Gate<()>(AdminOrSellerOrBuyerPolicy, p);
    if gate.Some? then gate
    else if found.None? then Some(NotFound)
    else if !MayManageUser(p, id) then Some(Forbid)
    else None
  }

  /** The seeded lower-case "admin" role does not pass the user controller's "Admin" test: such a caller may only manage itself. */
  lemma SeededAdminIsNotUserAdmin(p: Principal, id: string, u: User)
    requires p.authenticated && p.roles == {AdminRole} && p.nameIdentifier != Some(id)
    ensures UserWriteDecision(p, id, Some(u)) == Some(Forbid)
  {
    assert IsInRole(p, AdminRole);
  }

  class UserController {
    const users: UserRepository

    constructor (users: UserRepository)
      ensures this.users == users
    {
      this.users := users;
    }

    ghost predicate Valid()
      reads users
    {
      users.Valid()
    }

    /** GetById: for a caller in admin, seller or buyer, NotFound for an absent user and Ok with the user otherwise. */
    function GetById(p: Principal, id: string): (r: HttpResult<User>)
      reads users
      ensures !EvaluatePolicy(AdminOrSellerOrBuyerPolicy, p).Allow? ==> r == Refusal(p)
      ensures EvaluatePolicy(AdminOrSellerOrBuyerPolicy, p).Allow? ==>
                (r.NotFound? <==> forall u :: u in users.rows ==> u.id != id)
      ensures EvaluatePolicy(AdminOrSellerOrBuyerPolicy, p).Allow? && !r.NotFound? ==>
                r.Ok? && r.body in users.rows && r.body.id == id
    {
      var gate := Gate<User>(AdminOrSellerOrBuyerPolicy, p);
      if gate.Some? then gate.value else FromNullable(users.GetById(id))
    }

    /** Update: NotFound, then Forbid, then the new user name and e-mail and NoContent; nothing changes unless the update runs. */
    method Update(p: Principal, id: string, dto: UserUpdateDto) returns (r: HttpResult<()>)
      requires Valid()
      modifies users
      ensures Valid()
      ensures UserWriteDecision(p, id, old(users.GetById(id))).Some? ==>
                r == UserWriteDecision(p, id, old(users.GetById(id))).value && users.rows == old(users.rows)
      ensures UserWriteDecision(p, id, old(users.GetById(id))).None? ==>
                var u' := ApplyUserUpdate(dto, old(users.GetById(id)).value);
                r == NoContent && users.rows == Replace(old(users.rows), UserKey, u') && users.GetById(id) == Some(u')
    {
      var user := users.GetById(id);
      var decision := UserWriteDecision(p, id, user);
      if decision.Some? {
        return decision.value;
      }
      var updated := user.value.(userName := dto.username);
      updated := updated.(email := dto.email);
      users.Update(updated);
      r := NoContent;
    }

    /** Delete: NotFound, then Forbid, then removal of exactly that user and NoContent. */
    method Delete(p: Principal, id: string) returns (r: HttpResult<()>)
      requires Valid()
      modifies users
      ensures Valid()
      ensures UserWriteDecision(p, id, old(users.GetById(id))).Some? ==>
                r == UserWriteDecision(p, id, old(users.GetById(id))).value && users.rows == old(users.rows)
      ensures UserWriteDecision(p, id, old(users.GetById(id))).None? ==>
                r == NoContent && multiset(users.rows) == multiset(old(users.rows)) - multiset{old(users.GetById(id)).value}
                && users.GetById(id).None?
    {
      var user := users.GetById(id);
      var decision := UserWriteDecision(p, id, user);
      if decision.Some? {
        return decision.value;
      }
      users.Delete(id);
      r := NoContent;
    }
  }

  // ---------------------------------------------------------------------------
  // Orders (no action carries an authorization attribute, so no caller is consulted)

  /** Update: the service's success becomes NoContent and its exception BadRequest with the message. */
  function OrderUpdateResult(out: Outcome): (r: HttpResult<()>)
    ensures r.NoContent? <==> out.Pass?
    ensures out.Fail? ==> r == BadRequest(out.error)
  {
    FromOutcome(out, NoContent)
  }

  class OrderController {
    const service: OrderService

    constructor (service: OrderService)
      ensures this.service == service
    {
      this.service := service;
    }

    ghost predicate Valid()
      reads service.orders
    {
      service.Valid()
    }

    /** GetById: NotFound when no order has the id, Ok with the order otherwise. */
    function GetById(id: Guid): (r: HttpResult<Order>)
      reads service.orders
      ensures r.NotFound? <==> forall o :: o in service.orders.rows ==> o.orderId != id
      ensures !r.NotFound? ==> r.Ok? && r.body in service.orders.rows && r.body.orderId == id
    {
      FromNullable(service.GetById(id))
    }

    /** Add: Ok once the order is stored; the exception of a duplicate id becomes BadRequest with its message. */
    method Add(dto: OrderCreateDto, userId: Option<string>, now: DateTime, itemIds: seq<Guid>) returns (r: HttpResult<()>)
      requires Valid() && |itemIds| == |dto.orderItems|
      modifies service.orders
      ensures Valid()
      ensures old(service.GetById(dto.orderId)).None? ==>
                r == Ok(()) && service.orders.rows == old(service.orders.rows) + [NewOrder(dto, userId, now, itemIds)]
      ensures old(service.GetById(dto.orderId)).Some? ==>
                r == BadRequest(DuplicateKey) && service.orders.rows == old(service.orders.rows)
    {
      var out := service.Add(dto, userId, now, itemIds);
      r := FromOutcome(out, Ok(()));
    }

    /** UpdateStatus: NoContent once the status is set; an unknown id is BadRequest("Order not found."), not NotFound. */
    method UpdateStatus(id: Guid, status: string) returns (r: HttpResult<()>)
      requires Valid()
      modifies service.orders
      ensures Valid()
      ensures old(service.GetById(id)).None? ==>
                r == BadRequest(OrderNotFound) && service.orders.rows == old(service.orders.rows)
      ensures old(service.GetById(id)).Some? ==>
                r == NoContent && service.GetById(id) == Some(WithStatus(old(service.GetById(id)).value, status))
                && service.orders.rows == Replace(old(service.orders.rows), OrderKey, WithStatus(old(service.GetById(id)).value, status))
    {
      var out := service.UpdateStatus(id, status);
      r := FromOutcome(out, NoContent);
    }

    /** Delete: NoContent whether or not the order existed. */
    method Delete(id: Guid) returns (r: HttpResult<()>)
      requires Valid()
      modifies service.orders
      ensures Valid()
      ensures r == NoContent
      ensures service.orders.rows == RemoveKey(old(service.orders.rows), OrderKey, id)
      ensures service.GetById(id).None?
    {
      service.Delete(id);
      r := NoContent;
    }
  }

  // ---------------------------------------------------------------------------
  // Products

  class ProductController {
    const service: ProductService

    constructor (service: ProductService)
      ensures this.service == service
    {
      this.service := service;
    }

    ghost predicate Valid()
      reads service.products
    {
      service.Valid()
    }

    /** GetById: open to anyone; NotFound when no product has the id, Ok with the product otherwise. */
    function GetById(id: Guid): (r: HttpResult<Product>)
      reads service.products
      ensures r.NotFound? <==> forall x :: x in service.products.rows ==> x.productId != id
      ensures !r.NotFound? ==> r.Ok? && r.body in service.products.rows && r.body.productId == id
    {
      FromNullable(service.GetById(id))
    }

    /** Add: for an admin or seller, the product is stored and Ok returned; anyone else changes nothing. */
    method Add(p: Principal, dto: ProductCreateDto, newId: Guid) returns (r: HttpResult<()>)
      requires Valid() && service.GetById(newId).None?
      modifies service.products
      ensures Valid()
      ensures !EvaluatePolicy(AdminOrSellerPolicy, p).Allow? ==>
                r == Refusal(p) && service.products.rows == old(service.products.rows)
      ensures EvaluatePolicy(AdminOrSellerPolicy, p).Allow? ==>
                r == Ok(()) && service.products.rows == old(service.products.rows) + [NewProduct(dto, newId)]
    {
      var gate := Gate<()>(AdminOrSellerPolicy, p);
      if gate.Some? {
        return gate.value;
      }
      service.Add(dto, newId);
      r := Ok(());
    }

    /** Update: for an admin or seller, NoContent once the product is rewritten, BadRequest("Product not found") for an unknown id. */
    method Update(p: Principal, id: Guid, dto: ProductUpdateDto) returns (r: HttpResult<()>)
      requires Valid()
      modifies service.products
      ensures Valid()
      ensures !EvaluatePolicy(AdminOrSellerPolicy, p).Allow? ==>
                r == Refusal(p) && service.products.rows == old(service.products.rows)
      ensures EvaluatePolicy(AdminOrSellerPolicy, p).Allow? && old(service.GetById(id)).None? ==>
                r == BadRequest(ProductNotFound) && service.products.rows == old(service.products.rows)
      ensures EvaluatePolicy(AdminOrSellerPolicy, p).Allow? && old(service.GetById(id)).Some? ==>
                var p' := ApplyProductUpdate(dto, old(service.GetById(id)).value);
                r == NoContent && service.products.rows == Replace(old(service.products.rows), ProductKey, p')
    {
      var gate := Gate<()>(AdminOrSellerPolicy, p);
      if gate.Some? {
        return gate.value;
      }
      var out := service.Update(id, dto);
      r := FromOutcome(out, NoContent);
    }

    /** Delete: for an admin or seller, NoContent whether or not the product existed. */
    method Delete(p: Principal, id: Guid) returns (r: HttpResult<()>)
      requires Valid()
      modifies service.products
      ensures Valid()
      ensures !EvaluatePolicy(AdminOrSellerPolicy, p).Allow? ==>
                r == Refusal(p) && service.products.rows == old(service.products.rows)
      ensures EvaluatePolicy(AdminOrSellerPolicy, p).Allow? ==>
                r == NoContent && service.products.rows == RemoveKey(old(service.products.rows), ProductKey, id)
    {
      var gate := Gate<()>(AdminOrSellerPolicy, p);
      if gate.Some? {
        return gate.value;
      }
      service.Delete(id);
      r := NoContent;
    }
  }
}
