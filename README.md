# BBShop marketplace back end: repositories, services and controller decisions

BBShop is a three-tier ASP.NET CRUD marketplace: Stores, Products, Orders and Users. This project models three of its layers in Dafny.

- **Repositories** (`repositories.dfy`, over the generic tables of `tables.dfy`).
  - Each repository is a class whose `rows: seq<T>` field is its table.
  - `Valid()` states the primary-key constraint.
  - Lookups are functions on the table: `GetById` is the first row with the key, as `FirstOrDefault` / `FindAsync` return it.
  - `SearchByName` is a substring filter and `GetByUserId` is the first-store-of-owner lookup.
  - Add, Update and Delete are methods that reassign `rows`. Each states the new table and proves that the key constraint still holds and that every other key's lookup is unchanged.
- **Services** (`services.dfy`).
  - `OrderService`, `StoreService` and `ProductService` build or rewrite an entity record, assign the fields they own, and write through their repository.
  - The object-mapper's field copies are written out as functions: `NewOrder`, `NewProduct`, `ApplyStoreUpdate`, `ApplyProductUpdate`.
  - A thrown exception is `Fail(message)` of the `Outcome` datatype.
- **Controllers** (`controllers.dfy`, using `authorization.dfy` and `http.dfy`).
  - Each action passes its role policy (`Gate`), then runs its not-found and ownership checks in the source's order, calls the service, and maps the answer to an `HttpResult`.
  - The ownership checks are `StoreWriteDecision` (owner or `"admin"`) and `UserWriteDecision` (self or `"Admin"`).
  - The result mappings are null to NotFound and exception to BadRequest(message).
  - `Authorization.HandleRequirement` models the resource authorization handler.

Fixed here, not modelled:
- Guid ids, clock readings and uploaded files are abstract types. User ids, which are Identity's string keys, are `string`.
- A fresh `Guid`, `DateTime.UtcNow` and the path `SaveFile` writes to are parameters of the operation that uses them.
- Prices are plain integers, since nothing computes with them.
- The nullable strings whose null the code acts on are `Option<string>`: the NameIdentifier claim, the owner `userId` fields, and the logo and image paths. Null equals null, as in C#. The other strings (names, description, status, e-mail) are never null in the model.

Where the implementation classes differ from their interfaces, or lack a rule a shop might be expected to enforce, the model follows the implementation classes:
- **Order creation.**
  - Order items get no unit-price snapshot: `UnitPrice` is never assigned and stays 0 (`NewOrder`).
  - The status and date the client sends are overwritten (`NewOrderIgnoresClientStatusAndDate`).
  - Order creation checks no stock and touches no product; `OrderService.Add` modifies only the orders table.
- **Store creation.** No one-store-per-seller rule exists. A second store by the same owner is stored, and the owner lookup answers with one of them; in the model, whose row order is insertion order, with the first (`StoreService.Add`).
- **Calls the services do not implement as named.**
  - `OrderService` has no update method. `OrderController.Update` is therefore modelled only by its result mapping, `OrderUpdateResult`.
  - `OrderController.Add` calls a one-argument `AddAsync`. The owning user id is a parameter of the model.
  - `ProductController` passes the caller id to service overloads that do not exist. The implementations take none, so a product's owner is never set.
  - `StoreController.Search` calls `SearchByNameAsync`, which is modelled as the service's `SearchStoresAsync`.
  - `OrderController.UpdateStatus` passes a status DTO where the service takes a string. The model passes the string.
- **Role names.** Role tests are exact, case-sensitive string comparisons. `Authorization.IsInRole` is the model's definition of the framework call `ClaimsPrincipal.IsInRole` (role-claim membership); its case sensitivity is what `StoreAdminBypassIsCaseSensitive` and `SeededAdminIsNotUserAdmin` prove.
  - The store controller's bypass is `"admin"`, like the seeded role.
  - The user controller's bypass is `"Admin"`, so a caller holding only the seeded `"admin"` may manage only itself (`SeededAdminIsNotUserAdmin`).

## Model

| member | source | states |
|---|---|---|
| Tables.Find | BBShop/Repositories/Implementations/OrderRepository.cs:20-26 | None exactly when no row has the key; otherwise a stored row with that key, with no earlier row having it (FirstOrDefault) |
| Tables.Filter | BBShop/Repositories/Implementations/StoreRepository.cs:44-49 | exactly the rows satisfying the predicate, each with its multiplicity in the table, in the model's row order (a subsequence of the rows) (Where) |
| Tables.Replace | BBShop/Repositories/Implementations/OrderRepository.cs:42-46 | same length; the row with the record's key becomes the record, every other row stays (Update) |
| Tables.RemoveKey | BBShop/Repositories/Implementations/OrderRepository.cs:48-56 | exactly the rows without the key remain, with their multiplicities and in the model's row order (a subsequence of the rows) (Remove) |
| Tables.FindAppend | BBShop/Repositories/Implementations/OrderRepository.cs:36-41 | after appending a row, a key already stored finds its old row, the new key finds the new row, other keys find nothing |
| Tables.FindReplace | BBShop/Repositories/Implementations/OrderRepository.cs:42-46 | after replacing, the record's key finds the record (if it was stored) and every other key finds what it did before |
| Tables.FindRemoveKey | BBShop/Repositories/Implementations/ProductRepository.cs:44-52 | after removing a key, it finds nothing and every other key finds what it did before |
| Tables.RemoveKeyAbsent | BBShop/Repositories/Implementations/OrderRepository.cs:50-55 | removing a key no row has leaves the table identical |
| Tables.UniqueKeysAppend | BBShop/Repositories/Implementations/OrderRepository.cs:36-41 | adding a row whose key is not stored keeps primary keys unique |
| Tables.UniqueKeysReplace | BBShop/Repositories/Implementations/StoreRepository.cs:32-36 | replacing a row keeps primary keys unique |
| Tables.UniqueKeysRemoveKey | BBShop/Repositories/Implementations/StoreRepository.cs:38-42 | removing rows keeps primary keys unique |
| Tables.FindUnique | BBShop/Repositories/Implementations/OrderRepository.cs:20-26 | with unique keys, the lookup of v's key returns v exactly when v is stored |
| Tables.OccursOnce | BBShop/Repositories/Implementations/StoreRepository.cs:38-42 | with unique keys, a stored row occurs exactly once |
| Tables.SameKeySameRow | BBShop/Repositories/Implementations/StoreRepository.cs:21-24 | with unique keys, two stored rows with the same key are the same row |
| Tables.RemoveKeyExactlyOne | BBShop/Repositories/Implementations/StoreRepository.cs:38-42 | with unique keys, removing a stored row's key removes exactly that one row and shortens the table by one |
| Http.FromNullable | BBShop/Controllers/OrderController.cs:22-27 | NotFound exactly when the lookup yielded null, otherwise Ok with the value |
| Http.FromOutcome | BBShop/Controllers/OrderController.cs:40-48 | success gives the action's success result, an exception BadRequest carrying its message |
| Authorization.NameIdentifierEquals | BBShop/CustomAuthorizationHandler.cs:15 | no answer (the null dereference) exactly when the claim is absent; true exactly when the claim equals the id |
| Authorization.MayManageStore | BBShop/Controllers/StoreController.cs:53 | an "admin" or the owner passes, and a caller without a NameIdentifier passes for an ownerless store (null equals null); a non-admin passes only as the owner |
| Authorization.MayManageUser | BBShop/Controllers/UserController.cs:61-62 | passing needs a NameIdentifier; the user itself passes, and so does an "Admin" with one; a non-"Admin" passes only as that user |
| Authorization.EvaluatePolicy | BBShop/Program.cs:44-51 | a RequireRole policy allows exactly the callers holding one of its roles; others are challenged if unauthenticated and forbidden otherwise |
| Authorization.HandleRequirement | BBShop/CustomAuthorizationHandler.cs:14-21 | admin always succeeds; buyer or seller succeeds when its id equals the user's; a mismatched id or none of the three roles abstains; it never fails, and throws exactly when a non-admin buyer or seller has no id claim |
| Repositories.ContainsSubstring | BBShop/Repositories/Implementations/StoreRepository.cs:47 | true exactly when the query occurs in the name as a contiguous substring at some index |
| Repositories.OrderRepository.GetById | BBShop/Repositories/Implementations/OrderRepository.cs:20-26 | null exactly when no stored order has the id; otherwise a stored order with that id |
| Repositories.OrderRepository.GetAll | BBShop/Repositories/Implementations/OrderRepository.cs:28-34 | every stored order, in the model's row order |
| Repositories.OrderRepository.Add | BBShop/Repositories/Implementations/OrderRepository.cs:36-41 | the order is appended with status forced to Pending and is then found by its id; a stored id fails with the save error and leaves the table; keys stay unique; other ids unaffected |
| Repositories.OrderRepository.Update | BBShop/Repositories/Implementations/OrderRepository.cs:42-46 | the stored order with that id is replaced and a later lookup returns the new record; other ids unaffected |
| Repositories.OrderRepository.Delete | BBShop/Repositories/Implementations/OrderRepository.cs:48-56 | a present order is removed (exactly one row less); an absent id leaves the table identical; the id is then not found; other ids unaffected |
| Repositories.StoreRepository.GetById | BBShop/Repositories/Implementations/StoreRepository.cs:21-24 | null exactly when no stored store has the id; otherwise a stored store with that id |
| Repositories.StoreRepository.Add | BBShop/Repositories/Implementations/StoreRepository.cs:26-30 | the store is appended and then found by its id; a stored id fails and leaves the table; other ids unaffected |
| Repositories.StoreRepository.Update | BBShop/Repositories/Implementations/StoreRepository.cs:32-36 | the stored record with that id is replaced by the new one; other ids unaffected |
| Repositories.StoreRepository.Delete | BBShop/Repositories/Implementations/StoreRepository.cs:38-42 | exactly that store is removed and a later lookup returns null; other ids unaffected |
| Repositories.StoreRepository.SearchByName | BBShop/Repositories/Implementations/StoreRepository.cs:44-49 | exactly the stored stores whose name contains the query as a contiguous substring, with their multiplicities and in the model's row order; the table is read only |
| Repositories.StoreRepository.GetByUserId | BBShop/Repositories/Implementations/StoreRepository.cs:51-54 | the first store in the model's row order whose owner equals the user id, or null when none has it |
| Repositories.ProductRepository.GetById | BBShop/Repositories/Implementations/ProductRepository.cs:17-20 | null exactly when no stored product has the id; otherwise a stored product with that id |
| Repositories.ProductRepository.GetAll | BBShop/Repositories/Implementations/ProductRepository.cs:22-25 | every stored product, in the model's row order |
| Repositories.ProductRepository.GetByStoreId | BBShop/Repositories/Implementations/ProductRepository.cs:27-30 | exactly the stored products of that store, with their multiplicities and in the model's row order |
| Repositories.ProductRepository.Add | BBShop/Repositories/Implementations/ProductRepository.cs:32-36 | the product is appended and then found by its id; a stored id fails and leaves the table |
| Repositories.ProductRepository.Update | BBShop/Repositories/Implementations/ProductRepository.cs:38-42 | the stored product with that id is replaced; other ids unaffected |
| Repositories.ProductRepository.Delete | BBShop/Repositories/Implementations/ProductRepository.cs:44-52 | a present product is removed (exactly one row less); an absent id is a no-op; other ids unaffected |
| Repositories.UserRepository.GetById | BBShop/Repositories/Implementations/UserRepository.cs:20-23 | null exactly when no stored user has the id; otherwise a stored user with that id |
| Repositories.UserRepository.GetAll | BBShop/Repositories/Implementations/UserRepository.cs:25-28 | every stored user, in the model's row order |
| Repositories.UserRepository.Add | BBShop/Repositories/Implementations/UserRepository.cs:30-34 | the user is appended and then found by its id; a stored id fails and leaves the table |
| Repositories.UserRepository.Update | BBShop/Repositories/Implementations/UserRepository.cs:36-40 | the stored user with that id is replaced; other ids unaffected |
| Repositories.UserRepository.Delete | BBShop/Repositories/Implementations/UserRepository.cs:42-47 | with no existence check the id must be stored; exactly that user is removed; other ids unaffected |
| Services.MapOrder | BBShop/Services/Implementations/OrderService.cs:45 | the mapped order keeps the DTO's id, date, status and store and has no user; each line becomes an item with a fresh id, the order's id, the line's product and quantity, and unit price 0 |
| Services.NewOrder | BBShop/Services/Implementations/OrderService.cs:43-51 | the added order has the DTO's id, store and lines, the caller's user id, the current time and status Pending; every item carries the order id and unit price 0 |
| Services.NewOrderIgnoresClientStatusAndDate | BBShop/Services/Implementations/OrderService.cs:47-48 | the status and date in the create DTO have no effect on the added order |
| Services.WithStatus | BBShop/Services/Implementations/OrderService.cs:60 | only the status changes; id, date, user, store and items are preserved |
| Services.OrderService.GetById | BBShop/Services/Implementations/OrderService.cs:25-29 | null exactly when no stored order has the id; otherwise a stored order with that id |
| Services.OrderService.GetAll | BBShop/Services/Implementations/OrderService.cs:31-35 | every stored order, in the model's row order |
| Services.OrderService.Add | BBShop/Services/Implementations/OrderService.cs:43-51 | the order built by NewOrder is appended and found by its id; it fails exactly when the client-chosen id is already stored, leaving the table; no other table is touched |
| Services.OrderService.UpdateStatus | BBShop/Services/Implementations/OrderService.cs:53-62 | an unknown id fails with "Order not found." and changes nothing; otherwise the status becomes exactly the given string and nothing else changes |
| Services.OrderService.Delete | BBShop/Services/Implementations/OrderService.cs:64-67 | delegates without an existence check: an absent id leaves the table identical |
| Services.SaveFile | BBShop/Services/Implementations/StoreServices.cs:76-91 | null exactly when no file is given, otherwise the saved file's path |
| Services.ApplyStoreUpdate | BBShop/Services/Implementations/StoreServices.cs:53-55 | name from the DTO, update time stamped, logo path replaced; id, owner and creation time preserved |
| Services.StoreService.GetById | BBShop/Services/Implementations/StoreServices.cs:28-32 | null exactly when no stored store has the id; otherwise a stored store with that id |
| Services.StoreService.Add | BBShop/Services/Implementations/StoreServices.cs:34-43 | the returned store is the one stored, owned by the given user id, with both timestamps and the saved logo path (null without a logo); a user's earlier store is still what the owner lookup finds |
| Services.StoreService.Update | BBShop/Services/Implementations/StoreServices.cs:45-57 | an unknown id fails with "Store not found." and changes nothing; otherwise the record is rewritten by ApplyStoreUpdate, the logo becoming null when none is sent |
| Services.StoreService.Delete | BBShop/Services/Implementations/StoreServices.cs:59-68 | an unknown id fails with "Store not found." and changes nothing; otherwise exactly that store is removed |
| Services.StoreService.Search | BBShop/Services/Implementations/StoreServices.cs:70-74 | exactly the stores whose name contains the query, in the model's row order |
| Services.StoreService.GetByUserId | BBShop/Services/Implementations/StoreServices.cs:95-99 | null exactly when no store has that owner; otherwise the first stored store, in the model's row order, with that owner |
| Services.NewProduct | BBShop/Services/Implementations/ProductService.cs:40 | the new product under the fresh id with the DTO's name, description, price, stock and store id, and no owner or image |
| Services.ApplyProductUpdate | BBShop/Services/Implementations/ProductService.cs:52 | name, description, price and stock from the DTO; id, store, owner and image preserved |
| Services.ProductService.GetById | BBShop/Services/Implementations/ProductService.cs:20-24 | null exactly when no stored product has the id; otherwise a stored product with that id |
| Services.ProductService.GetAll | BBShop/Services/Implementations/ProductService.cs:26-30 | every stored product, in the model's row order |
| Services.ProductService.GetByStoreId | BBShop/Services/Implementations/ProductService.cs:32-36 | exactly the products of that store, in the model's row order |
| Services.ProductService.Add | BBShop/Services/Implementations/ProductService.cs:38-42 | the product is stored with the DTO's store id and is found by its id |
| Services.ProductService.Update | BBShop/Services/Implementations/ProductService.cs:44-54 | with no caller and no ownership check: an unknown id fails with "Product not found" and changes nothing; otherwise the record is rewritten by ApplyProductUpdate |
| Services.ProductService.Delete | BBShop/Services/Implementations/ProductService.cs:56-59 | an unknown id is a silent no-op; otherwise the product is removed |
| Controllers.Refusal | BBShop/Program.cs:44-51 | a caller a policy turns away gets 401 (Challenge) exactly when it has no token and 403 (Forbid) exactly when it has one |
| Controllers.Gate | BBShop/Program.cs:49-50 | the request passes exactly when the caller holds one of the policy's roles; otherwise 401 without a token and 403 with one |
| Controllers.StoreWriteDecision | BBShop/Controllers/StoreController.cs:49-56 | the service is called exactly when the policy passes, the store exists and the caller owns it or is "admin"; otherwise the policy refusal, then NotFound, then Forbid, in that order |
| Controllers.StoreAdminBypassIsCaseSensitive | BBShop/Controllers/StoreController.cs:53 | a seller holding "Admin" but not "admin" who does not own the store is forbidden |
| Controllers.StoreController.GetById | BBShop/Controllers/StoreController.cs:23-33 | for admin, seller or buyer: NotFound exactly for an unknown id, otherwise Ok with the stored store |
| Controllers.StoreController.Create | BBShop/Controllers/StoreController.cs:35-42 | for admin or seller: the store is stored with the caller's NameIdentifier as owner and Created carries its id; otherwise nothing changes |
| Controllers.StoreController.Update | BBShop/Controllers/StoreController.cs:45-60 | NotFound, then Forbid for a non-owner non-admin, both changing nothing; otherwise the update runs and NoContent |
| Controllers.StoreController.Delete | BBShop/Controllers/StoreController.cs:62-77 | NotFound, then Forbid, both changing nothing; otherwise exactly that store is removed and NoContent |
| Controllers.StoreController.Search | BBShop/Controllers/StoreController.cs:79-85 | always Ok, even when nothing matches, with exactly the matching stores |
| Controllers.ApplyUserUpdate | BBShop/Services/Implementations/UserService.cs:88-89 | user name and e-mail from the DTO; id and timestamps preserved |
| Controllers.UserWriteDecision | BBShop/Controllers/UserController.cs:54-65 | NotFound for an absent user before any identity check; then Forbid without a NameIdentifier, or when the caller is neither "Admin" nor that user; otherwise the service is called |
| Controllers.SeededAdminIsNotUserAdmin | BBShop/Controllers/UserController.cs:62 | a caller holding only the seeded "admin" role is forbidden to manage another user |
| Controllers.UserController.GetById | BBShop/Controllers/UserController.cs:30-40 | for admin, seller or buyer: NotFound exactly for an absent user, otherwise Ok with the stored user |
| Controllers.UserController.Update | BBShop/Controllers/UserController.cs:50-69 | NotFound, then Forbid, both leaving the user unchanged; otherwise the new name and e-mail are stored and NoContent |
| Controllers.UserController.Delete | BBShop/Controllers/UserController.cs:71-90 | NotFound, then Forbid, both changing nothing; otherwise exactly that user is removed and NoContent |
| Controllers.OrderUpdateResult | BBShop/Controllers/OrderController.cs:51-63 | NoContent exactly on success, BadRequest with the exception message otherwise |
| Controllers.OrderController.GetById | BBShop/Controllers/OrderController.cs:19-28 | NotFound exactly for an unknown id, otherwise Ok with the stored order; no caller is consulted |
| Controllers.OrderController.Add | BBShop/Controllers/OrderController.cs:37-49 | Ok once the order is stored; a duplicate id becomes BadRequest with the save error and changes nothing |
| Controllers.OrderController.UpdateStatus | BBShop/Controllers/OrderController.cs:65-77 | NoContent with the status set; an unknown id is BadRequest("Order not found."), not NotFound, and changes nothing |
| Controllers.OrderController.Delete | BBShop/Controllers/OrderController.cs:79-84 | always NoContent, including for ids that do not exist |
| Controllers.ProductController.GetById | BBShop/Controllers/ProductController.cs:22-31 | open to anyone: NotFound exactly for an unknown id, otherwise Ok with the stored product |
| Controllers.ProductController.Add | BBShop/Controllers/ProductController.cs:47-54 | for admin or seller, the product is stored and Ok; otherwise refused and nothing changes |
| Controllers.ProductController.Update | BBShop/Controllers/ProductController.cs:56-70 | for admin or seller: NoContent once rewritten, BadRequest("Product not found") for an unknown id; otherwise refused |
| Controllers.ProductController.Delete | BBShop/Controllers/ProductController.cs:72-86 | for admin or seller, always NoContent and the id removed if present; otherwise refused |

## Left out

- Entity Framework mechanics: `Include` chains, change tracking and `SaveChangesAsync`. Each repository call is one synchronous step on its table.
- `async` and `Task`. Every operation is sequential.
- Concurrency: simultaneous requests and oversell races.
- The object-mapper projection of entities into response DTOs (`StoreDto`, `ProductDto`, `OrderDto`, `UserDto`). The model returns the entity records. `StoreDto.UserName`, taken from the navigation property, is not modelled.
- The identity layer: `UserService`, `UserManager`, `RoleManager`, `AuthController` and JWT signing.
  - `UserController` is modelled directly over the user table. Its Update applies the name and e-mail rewrite `UserService.UpdateAsync` makes.
  - The role reassignment and `UserManager` failure results of that update are not modelled.
  - `UserService.DeleteAsync`'s own null check is not modelled; the controller has already looked the user up.
- `UserController.GetAll` and `UserController.Add`: these are identity-service calls.
- `OrderController.GetAll` and `ProductController.GetAll`: they only wrap the service's `GetAll` in Ok.
- `ProductController.GetByStoreName` and `OrderService.GetByStoreNameAsync`: they call repository and service methods the implementations do not define.
- `SaveFile`'s directory creation, file stream and the random file name. The path is a parameter.
- The database collation. `Contains` is the ordinal substring test, so a case-insensitive database collation is not captured.
- The authentication middleware: token validation, and when `Challenge` versus `Forbid` is sent beyond "no token versus token".
- Startup, DI, CORS and Swagger. The role seeding appears only as the role-name constants.
- `ShoppingCart`, `CartItem` and the frontend: nothing in the back end uses them.
- The declarations of `StoreCreateDto`, `StoreUpdateDto`, `UserUpdateDto`, `OrderItemCreateDto` and `OrderStatusUpdateDto` are not modelled. Their fields are taken from the way the services and the tests use them.
- Repositories.ProductRepository.Add, Services.ProductService.Add, Controllers.ProductController.Add: the foreign key from a product to its store (BBShop/Data/AppDbContext.cs:36-39) is not checked. The model stores a product whose store id names no store and answers Ok. The source's save would throw, and with no catch in the action that is a 500.
- Repositories.StoreRepository.Add, Services.StoreService.Add, Controllers.StoreController.Create: the foreign key from a store to its owning user (BBShop/Data/AppDbContext.cs:31-34) is not checked. A store whose user id names no user is stored.
- Repositories.StoreRepository.Delete, Repositories.ProductRepository.Delete, Repositories.OrderRepository.Delete: the database's cascade deletes along the required foreign keys are not modelled. In the source, deleting a store also removes its products and orders, and deleting a product or an order removes its order items. The model's deletes change only their own table.
- The `logoUrl` field of `Store`: the entity class declares no `LogoUrl` (BBShop/Models/Store.cs:3-11), yet the store service assigns one (BBShop/Services/Implementations/StoreServices.cs:40,55) and `StoreDto` carries one. The model gives `Store` a `logoUrl` field so that the service's assignments have somewhere to go. Whether the source compiles and persists it is not captured.
- Authorization.HandleRequirement: the handler is never registered with the service container in BBShop/Program.cs, so no request path runs it. It is modelled as written.
- Repositories.OrderRepository.Add: it fails only on a duplicate key. Its foreign keys to the user, the store and, through the items, the products (BBShop/Data/AppDbContext.cs:46-64) are not checked, so an order naming an unknown store or product is stored and Ok is answered.
- Services.OrderService.Add: the item ids are parameters. The order id written into each item stands for the foreign key the ORM fills in on save.
- Services.ProductService.Add: it requires the fresh product id to be unused, because `Guid.NewGuid()` is assumed never to collide. The same holds for Services.StoreService.Add, Controllers.StoreController.Create and Controllers.ProductController.Add.
- Repositories.StoreRepository.GetByUserId, Services.StoreService.Add, Services.StoreService.GetByUserId, Repositories.StoreRepository.SearchByName, Services.StoreService.Search, Repositories.ProductRepository.GetByStoreId, Services.ProductService.GetByStoreId, Repositories.OrderRepository.GetAll, Services.OrderService.GetAll, Repositories.ProductRepository.GetAll, Services.ProductService.GetAll, Repositories.UserRepository.GetAll: the model fixes row order as insertion order, with an update keeping a row in place. None of the queries has an `OrderBy`, and PostgreSQL returns rows in no defined order, so "first" and "in order" are promises of the model only; the source guarantees only which rows are returned.
- Repositories.UserRepository.Delete, Controllers.UserController.Delete: only the user row is removed. Stores, products and orders refer to their user by foreign key (BBShop/Data/AppDbContext.cs:31-49); in the source, deleting a user who owns such rows either cascades along those keys or makes the save fail (a 500), depending on whether the keys are required. The model answers NoContent and leaves the other tables as they are.
- Repositories.StoreRepository.Update: like the other repository updates, it requires the key to be stored. The ORM throws otherwise, and every caller looks the record up first.
