# Inventory hypermedia API — Dafny model

This project models the core of a reactive Spring Boot inventory service:

- the item API of `ApiItemController`:
  - the link policy (the `self`, `item`, `add` and `delete` links each response carries, depending on the route and on whether the caller holds `ROLE_INVENTORY`);
  - the reads that pair stored items with their links (`findOne`, `findAll`);
  - the mutations `addNewItem`, `deleteItem` and `updateItem`, with their role guards;
- the access rules of `SecurityConfig`:
  - the `role` prefixing function;
  - the first-match exchange authorization table (401 / 403 / allow);
  - the two seeded users;
  - the user-details lookup.

Layout:

- `wrappers.dfy` (`Wrappers`): `Option`, standing for a reactive stream of zero or one element.
- `security.dfy` (`Security`): roles, the exchange table as a decision function, users.
- `hypermedia.dfy` (`Hypermedia`): `Link` and the relation lookup used for `getRequiredLink`/`hasLink`.
- `inventory.dfy` (`Inventory`): `Item` and `ItemRepository`.
  - `ItemRepository` is a class holding a `map<string, Item>` and the ids in insertion order.
  - It stands in for the Mongo repository the controller uses.
- `api.dfy` (`Api`): the link policy as pure functions and the specification functions of the reads.
  - The controller itself is a class whose methods read or modify the repository.
- `scenarios.dfy` (`Scenarios`): consequences across modules.
  - What the seeded users are offered.
  - Client methods that walk through add (as the API test class does), delete (once without and once with the role, then a second time), and an update.

Modelling choices:

- The Reactor composition (`Mono.zip`, `flatMap`, `zipWith`, `then`) is modelled as sequential composition.
- The store is the only state.
- Link targets are built from the fixed templates `/api`, `/api/items`, `/api/items/{id}`, `/api/items/add` and `/api/items/delete/{id}`.
- A `double` price is carried as its 64-bit pattern and only compared for equality.
- The id that Mongo generates for an item saved without one is a parameter `freshId` of `AddNewItem`, required to be unused.
- `save` with an id already present replaces the entry in place (an upsert).

Behaviour of the code that the model keeps:

- `findOne` of an absent id emits nothing. It is not a `NotFound` error: `FindOne` returns `None`.
- `findAll` fixes no order: it combines the per-item `findOne` results with `flatMap`, which emits them as they complete.
  - `FindAll`'s ensures, content equal to `ItemModels` over the store's insertion order, is the model's sequential refinement of that.
  - `ItemModelsComplete`, `ItemModelsSound` and `ItemModelsDistinct` are what the code actually promises: one model per stored item, each `findOne` of its own id, none twice.
- The `/api/items/{id}` route also accepts one trailing `/`, like every route.
- The `/api/items/{id}` route sends `GET /api/items/profile` to the profile handler.
  - So an item stored under the id `profile`, which `updateItem` or an id-carrying `addNewItem` body can create, has a self link that does not lead back to it.
  - `SelfLinkRoundTrip` therefore excludes that id, as well as ids that are not a single path segment.
- Spring's `PathPattern` `/item` also matches `/item/`, because the pattern parser's optional trailing separator is on by default.
  - `/item/**` matches `/item` and every path below `/item/`.
  - The table denies an unauthenticated caller under every rule. `Unauthorized` stands for the 401 that HTTP Basic's entry point answers with.
  - It denies an authenticated caller who lacks a required role with 403.

## Model

| member | source | states |
|---|---|---|
| `Security.Role` | src/main/java/com/greglturnquist/hackingspringboot/reactive/SecurityConfig.java:24-26 | the result is a role authority (prefix `ROLE_`) whose role name is exactly the argument |
| `Security.RoleInjective` | src/main/java/com/greglturnquist/hackingspringboot/reactive/SecurityConfig.java:24-26 | two roles give the same authority exactly when they are the same role |
| `Security.RoleOfRoleName` | src/main/java/com/greglturnquist/hackingspringboot/reactive/SecurityConfig.java:24-26 | every `ROLE_` authority is `role` of the name it carries (`RoleName` inverts `Role`) |
| `Security.InventoryAuthority` | src/main/java/com/greglturnquist/hackingspringboot/reactive/SecurityConfig.java:21-26 | `role(INVENTORY)` is `ROLE_INVENTORY`, `role(USER)` is `ROLE_USER`, and they differ |
| `Security.FirstMatchFrom` | src/main/java/com/greglturnquist/hackingspringboot/reactive/SecurityConfig.java:57-60 | the result is the first rule at or after the start that matches the exchange, none before it matches; None means no rule matches |
| `Security.Grant` | src/main/java/com/greglturnquist/hackingspringboot/reactive/SecurityConfig.java:58-60 | 401 exactly when no principal; 403 exactly when a principal lacks the role a `hasRole` rule asks for |
| `Security.Decide` | src/main/java/com/greglturnquist/hackingspringboot/reactive/SecurityConfig.java:57-60 | first-match decision; an unauthenticated exchange is always 401 |
| `Security.PolicyClosedForm` | src/main/java/com/greglturnquist/hackingspringboot/reactive/SecurityConfig.java:55-67 | the declared table equals the closed form: 401 without a principal; 403 for POST `/item` or DELETE under `/item` without `ROLE_INVENTORY`; otherwise allowed |
| `Security.PostItemNeedsInventory` | src/main/java/com/greglturnquist/hackingspringboot/reactive/SecurityConfig.java:58 | an authenticated POST `/item` is allowed exactly when `ROLE_INVENTORY` is held, else 403 |
| `Security.DeleteUnderItemNeedsInventory` | src/main/java/com/greglturnquist/hackingspringboot/reactive/SecurityConfig.java:59 | an authenticated DELETE of any `/item/...` path is allowed exactly when `ROLE_INVENTORY` is held, else 403 |
| `Security.FallThroughToAuthenticated` | src/main/java/com/greglturnquist/hackingspringboot/reactive/SecurityConfig.java:57-60 | rules are method-specific and first-match: GET `/item` and POST `/item/x` reach the catch-all (401 or allowed) |
| `Security.OtherExchangesNeedOnlyAuthentication` | src/main/java/com/greglturnquist/hackingspringboot/reactive/SecurityConfig.java:60 | outside the two inventory rules: 401 unauthenticated, allowed when authenticated whatever the roles |
| `Security.SeedUsersShape` | src/main/java/com/greglturnquist/hackingspringboot/reactive/SecurityConfig.java:44-52 | seeding gives exactly two users, greg then manager, with one shared password; both have `ROLE_USER`; only manager has `ROLE_INVENTORY` |
| `Security.FindByName` | src/main/java/com/greglturnquist/hackingspringboot/reactive/SecurityConfig.java:35 | a result is a stored user with that name; nothing exactly when no user has that name |
| `Security.LoadUser` | src/main/java/com/greglturnquist/hackingspringboot/reactive/SecurityConfig.java:34-41 | nothing exactly when the name is unknown; otherwise the details carry that name and the stored password, and the stored roles as authorities |
| `Security.SeededLogins` | src/main/java/com/greglturnquist/hackingspringboot/reactive/SecurityConfig.java:34-52 | against the seeded store: manager gets {ROLE_USER, ROLE_INVENTORY}, greg gets {ROLE_USER} (no inventory role), every other name gets nothing |
| `Hypermedia.GetLink` | src/main/java/com/greglturnquist/hackingspringboot/reactive/ApiItemController.java:137-138 | a found link is in the list and has the relation; nothing exactly when no link has it |
| `Hypermedia.GetLinkDistinct` | src/main/java/com/greglturnquist/hackingspringboot/reactive/ApiItemController.java:137-138 | with pairwise distinct relations, looking up a link's relation returns that very link |
| `Inventory.Stored` | src/main/java/com/greglturnquist/hackingspringboot/reactive/ApiItemController.java:154-155 | the stored record has the given id and the item's name, description and price |
| `Inventory.Without` | src/main/java/com/greglturnquist/hackingspringboot/reactive/ApiItemController.java:145 | the order after `deleteById` holds exactly the old ids other than the deleted one, keeps distinctness, and is unchanged when the id was absent |
| `Inventory.WithoutIdempotent` | src/main/java/com/greglturnquist/hackingspringboot/reactive/ApiItemController.java:145 | removing an id twice from the order is removing it once |
| `Inventory.ItemRepository.FindById` | src/main/java/com/greglturnquist/hackingspringboot/reactive/ApiItemController.java:126 | an item exactly when the id is stored; it is the stored item and carries that id |
| `Inventory.ItemRepository.Save` | src/main/java/com/greglturnquist/hackingspringboot/reactive/ApiItemController.java:134 | stores the item's fields under its own id or else the fresh id, replacing any entry; a new id is appended to the order; the store stays consistent |
| `Inventory.ItemRepository.DeleteById` | src/main/java/com/greglturnquist/hackingspringboot/reactive/ApiItemController.java:145 | the id is absent afterwards, every other entry unchanged, the order loses just that id |
| `Api.HasInventoryIsHasRole` | src/main/java/com/greglturnquist/hackingspringboot/reactive/ApiItemController.java:54-55 | the controller's authority test is the same test as `hasRole(INVENTORY)` |
| `Api.RootLinks` | src/main/java/com/greglturnquist/hackingspringboot/reactive/ApiItemController.java:63-77 | exactly two links with distinct relations, `self` first; `self` is `/api`, `item` is `/api/items` |
| `Api.CollectionLinks` | src/main/java/com/greglturnquist/hackingspringboot/reactive/ApiItemController.java:83-94 | one link without the role, two with it; `self` → `/api/items` first; `add` present exactly when the role is held, then → `/api/items/add`; relations distinct |
| `Api.ItemLinks` | src/main/java/com/greglturnquist/hackingspringboot/reactive/ApiItemController.java:107-124 | `self` → `/api/items/{id}` then `item` → `/api/items`; a third link `delete` → `/api/items/delete/{id}` exactly when the role is held; relations distinct |
| `Api.ItemModels` | src/main/java/com/greglturnquist/hackingspringboot/reactive/ApiItemController.java:96-100 | one model per listed id, each equal to what `findOne` gives for that id |
| `Api.ItemModelsComplete` | src/main/java/com/greglturnquist/hackingspringboot/reactive/ApiItemController.java:96-100 | over a consistent store, the collection has as many models as stored items and contains every stored item's model |
| `Api.ItemModelsSound` | src/main/java/com/greglturnquist/hackingspringboot/reactive/ApiItemController.java:96-100 | over a consistent store, every model in the collection is the `findOne` result for its own item's id |
| `Api.ItemModelsDistinct` | src/main/java/com/greglturnquist/hackingspringboot/reactive/ApiItemController.java:96-100 | over a consistent store, no model occurs twice; with the two above, the content is a permutation of the stored items' models |
| `Api.EmptyStoreHasNoModels` | src/main/java/com/greglturnquist/hackingspringboot/reactive/ApiItemController.java:96-100 | an empty store gives empty content |
| `Api.RoutedItemId` | src/main/java/com/greglturnquist/hackingspringboot/reactive/ApiItemController.java:103-104 | a path routed to `findOne` is `/api/items/` followed by the extracted id (a single segment other than `profile`), optionally with one trailing `/` |
| `Api.RoutedItemIdReaches` | src/main/java/com/greglturnquist/hackingspringboot/reactive/ApiItemController.java:103-104 | every single-segment id other than `profile` is routed from `/api/items/{id}` and from `/api/items/{id}/` |
| `Api.ItemRepresentation` | src/main/java/com/greglturnquist/hackingspringboot/reactive/ApiItemController.java:126-128 | `findOne`'s result for a store: present exactly when the id is stored, then the stored item, its self link `/api/items/{id}`, and a `delete` link exactly when the role is held |
| `Api.HasInventory` | src/main/java/com/greglturnquist/hackingspringboot/reactive/ApiItemController.java:87 | the `contains(ROLE_INVENTORY)` test of lines 87 and 115 holds exactly when the caller's authorities contain the literal `ROLE_INVENTORY` |
| `Inventory.AssignedId` | src/main/java/com/greglturnquist/hackingspringboot/reactive/ApiItemController.java:134 | `save` persists under the item's own id when it carries one, otherwise under the id the store generates |
| `Security.PathMatches` | src/main/java/com/greglturnquist/hackingspringboot/reactive/SecurityConfig.java:58-59 | `/item` matches only itself or itself followed by one `/`; `/item/**` matches only `/item` itself or paths starting with `/item/`; the catch-all matches every path |
| `Security.PathPatternsAccept` | src/main/java/com/greglturnquist/hackingspringboot/reactive/SecurityConfig.java:58-59 | the converse: a literal matches itself and itself plus `/`; a subtree matches its base and every path below it |
| `Security.ItemPatternEdgesNeedInventory` | src/main/java/com/greglturnquist/hackingspringboot/reactive/SecurityConfig.java:58-59 | POST `/item/` and DELETE `/item` are decided by `ROLE_INVENTORY` alone, like POST `/item` and DELETE `/item/<rest>` |
| `Security.SeedUsers` | src/main/java/com/greglturnquist/hackingspringboot/reactive/SecurityConfig.java:43-52 | every seeded user has the shared password and `ROLE_USER`; exactly manager has `ROLE_INVENTORY` |
| `Api.SelfLinkRoundTrip` | src/main/java/com/greglturnquist/hackingspringboot/reactive/ApiItemController.java:103-129 | a stored item's self link routes back to its id and yields the same representation |
| `Api.DeleteIdempotent` | src/main/java/com/greglturnquist/hackingspringboot/reactive/ApiItemController.java:142-147 | deleting an id twice leaves the same store (map and order) as deleting it once |
| `Api.ApiItemController.constructor` | src/main/java/com/greglturnquist/hackingspringboot/reactive/ApiItemController.java:59-61 | the controller works on the repository it is given |
| `Api.ApiItemController.FindOne` | src/main/java/com/greglturnquist/hackingspringboot/reactive/ApiItemController.java:103-129 | nothing exactly when the id is not stored; otherwise the stored item (carrying that id) with `ItemLinks(id, auth)` |
| `Api.ApiItemController.FindAll` | src/main/java/com/greglturnquist/hackingspringboot/reactive/ApiItemController.java:79-101 | the collection links for the caller, and content equal to `ItemModels` over the store's ids (see `ItemModelsComplete`, `ItemModelsSound`, `ItemModelsDistinct`) |
| `Api.ApiItemController.AddNewItem` | src/main/java/com/greglturnquist/hackingspringboot/reactive/ApiItemController.java:131-140 | without `ROLE_INVENTORY`: 403 and the store unchanged; with it: the store gains the item's fields under its assigned id, a new id is appended to the order, and the response is 201 with Location `/api/items/{id}` |
| `Api.ApiItemController.DeleteItem` | src/main/java/com/greglturnquist/hackingspringboot/reactive/ApiItemController.java:142-147 | without the role: 403 and the store unchanged; with it: 204, the id absent afterwards whether or not it was present, all else unchanged |
| `Api.ApiItemController.UpdateItem` | src/main/java/com/greglturnquist/hackingspringboot/reactive/ApiItemController.java:149-160 | no role guard; the entry under the path id becomes the body's name, description and price with that id (a body id is ignored), other entries unchanged; 204 with Location `/api/items/{id}` |
| `Scenarios.SeededAffordances` | src/main/java/com/greglturnquist/hackingspringboot/reactive/ApiItemController.java:85-124 | logged in as the seeded manager the caller is offered `add` and `delete`; as greg, neither |

## Left out

- `profile()` (the ALPS descriptor built by reflection over `Item`'s fields) is not modelled.
- `HomeController` is not modelled.
  - Its handlers delegate to an inventory service that is not part of this model.
  - Its only local logic is the cart name.
- Reactor scheduling and cancellation are not modelled. The `Mono.zip`/`flatMap` joins are sequential here.
- Spring HATEOAS URI derivation (`linkTo`/`methodOn`) and HAL JSON serialisation are not modelled.
  - The root body is stated as its link list, not as JSON text.
- Mongo internals are not modelled. The repository is an in-memory map plus insertion order, with no store failures or timeouts.
  - Generated ids are a parameter, since generating them is the store's randomness.
- `findByName` on a store holding several users of one name fails in Spring Data. The model returns the first one; the seeded names are distinct.
- BCrypt, the password hash value (a parameter of `SeedUsers`), HTTP Basic, form login and CSRF are not modelled.
  - Form login's entry point redirects unauthenticated requests that accept `text/html` to `/login` with a 302; that redirect is not modelled, and `Unauthorized` is HTTP Basic's 401 only.
  - The `/login` page, which is served before the table is consulted, is not modelled.
- Path-pattern matching is modelled only for the two patterns the table uses, the catch-all, and the `/api/items/{id}` route.
- Security.PathMatches: percent-decoding and `;` path parameters are not modelled; the path is taken as already decoded and stripped, so `/it%65m` or `/item;x=1` as raw text do not match `/item` here while Spring's matcher would match them.
- Api.RoutedItemId: percent-decoding and `;` path parameters are not modelled; ids that need encoding in a path are not routed to their decoded form (raw `/api/items/%41` yields `%41`, and `/api/items/%70rofile` is not recognised as the profile route).
- Security.LoadUser: records with an empty name or a blank role make Spring's `User` builder fail, so the lookup errors; the model maps them to details anyway. The seeded records have neither.
- `updateItem` with a missing request body (an empty `Mono`) is not modelled: the body is always present.
- Price arithmetic is not modelled, because prices are only carried and compared.
