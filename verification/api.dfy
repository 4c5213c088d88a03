/** The hypermedia item API (ApiItemController.java): the link policy of each
    route, the reads that pair stored items with their links, and the
    role-guarded mutations. Reactive composition is modelled as sequential
    composition; only the joined result is observable. */
module Api {
  import opened Wrappers
  import opened Security
  import opened Hypermedia
  import opened Inventory

  /** The authority the controller looks for, built with `role`. */
  const ROLE_INVENTORY: string := Role(INVENTORY)

  /** `auth.getAuthorities().contains(ROLE_INVENTORY)`; the same test that
      `hasRole('INVENTORY')` makes. */
  predicate HasInventory(auth: Principal)
    ensures HasInventory(auth) <==> "ROLE_INVENTORY" in auth.authorities
  {
    InventoryAuthority();
    ROLE_INVENTORY in auth.authorities
  }

  /** The controller's own test and the `@PreAuthorize` guard agree. */
  lemma HasInventoryIsHasRole(auth: Principal)
    ensures HasInventory(auth) <==> HasRole(auth.authorities, INVENTORY)
  {
  }

  // ---------------------------------------------------------------------------
  // Link targets and link policy
  // ---------------------------------------------------------------------------

  const ADD: string := "add"
  const DELETE_REL: string := "delete"

  const ApiHref: string := "/api"
  const ItemsHref: string := "/api/items"
  const AddHref: string := "/api/items/add"
  const ItemPrefix: string := "/api/items/"
  const DeletePrefix: string := "/api/items/delete/"

  function ItemHref(id: string): string {
    ItemPrefix + id
  }

  function DeleteHref(id: string): string {
    DeletePrefix + id
  }

  /** `root`: self, then the item aggregate. */
  function RootLinks(): (links: seq<Link>)
    ensures |links| == 2 && DistinctRels(links)
    ensures links[0].rel == SELF
    ensures GetLink(links, SELF) == Some(Link(SELF, ApiHref))
    ensures GetLink(links, ITEM) == Some(Link(ITEM, ItemsHref))
  {
    [Link(SELF, ApiHref), Link(ITEM, ItemsHref)]
  }

  /** Links of `findAll`: self, plus `add` for inventory holders. */
  function CollectionLinks(auth: Principal): (links: seq<Link>)
    ensures |links| == if HasInventory(auth) then 2 else 1
    ensures DistinctRels(links) && links[0] == Link(SELF, ItemsHref)
    ensures HasLink(links, ADD) <==> HasInventory(auth)
    ensures HasInventory(auth) ==> GetLink(links, ADD) == Some(Link(ADD, AddHref))
  {
    if HasInventory(auth) then [Link(SELF, ItemsHref), Link(ADD, AddHref)]
    else [Link(SELF, ItemsHref)]
  }

  /** Links of `findOne`: self and the aggregate, plus `delete` for inventory
      holders. */
  function ItemLinks(id: string, auth: Principal): (links: seq<Link>)
    ensures |links| == if HasInventory(auth) then 3 else 2
    ensures DistinctRels(links)
    ensures links[0] == Link(SELF, ItemHref(id)) && links[1] == Link(ITEM, ItemsHref)
    ensures GetLink(links, SELF) == Some(Link(SELF, ItemHref(id)))
    ensures HasLink(links, DELETE_REL) <==> HasInventory(auth)
    ensures HasInventory(auth) ==> links[2] == Link(DELETE_REL, DeleteHref(id))
  {
    var base := [Link(SELF, ItemHref(id)), Link(ITEM, ItemsHref)];
    if HasInventory(auth) then base + [Link(DELETE_REL, DeleteHref(id))] else base
  }

  // ---------------------------------------------------------------------------
  // Representations
  // ---------------------------------------------------------------------------

  /** An item together with its links. */
  datatype EntityModel = EntityModel(content: Item, links: seq<Link>)

  /** Item models together with the collection's links. */
  datatype CollectionModel = CollectionModel(content: seq<EntityModel>, links: seq<Link>)

  /** The HTTP outcome of a mutation: 201 with a Location header, 204 (with
      a Location header for an update; `noContentLocation` is that header),
      or 403 (AccessDenied) from the role guard. */
  datatype Response = Created(location: string) | NoContent(noContentLocation: Option<string>) | AccessDenied

  /** What `findOne(id, auth)` emits for a store holding `items`. */
  function ItemRepresentation(items: map<string, Item>, id: string, auth: Principal): (r: Option<EntityModel>)
    ensures r.Some? <==> id in items
    ensures r.Some? ==> r.value.content == items[id]
    ensures r.Some? ==> GetLink(r.value.links, SELF) == Some(Link(SELF, ItemHref(id)))
    ensures r.Some? ==> (HasLink(r.value.links, DELETE_REL) <==> HasInventory(auth))
  {
    if id in items then Some(EntityModel(items[id], ItemLinks(id, auth))) else None
  }

  /** What `findAll` emits for the ids in `order`: each id's `findOne` model,
      in that order. */
  function ItemModels(items: map<string, Item>, order: seq<string>, auth: Principal): (r: seq<EntityModel>)
    requires forall k :: k in order ==> k in items
    ensures |r| == |order|
    ensures forall i :: 0 <= i < |order| ==> Some(r[i]) == ItemRepresentation(items, order[i], auth)
  {
    if order == [] then []
    else
      var last := order[|order| - 1];
      ItemModels(items, order[..|order| - 1], auth) + [EntityModel(items[last], ItemLinks(last, auth))]
  }

  /** Extending the listed ids by one appends that id's model. */
  lemma ItemModelsStep(items: map<string, Item>, order: seq<string>, i: nat, auth: Principal)
    requires i < |order| && forall k :: k in order ==> k in items
    ensures ItemModels(items, order[..i + 1], auth) ==
      ItemModels(items, order[..i], auth) + [EntityModel(items[order[i]], ItemLinks(order[i], auth))]
  {
    assert order[..i + 1][..i] == order[..i];
  }

  /** Over a consistent store every stored item's model is in the
      collection, and there are as many models as stored items. */
  lemma {:induction false} ItemModelsComplete(items: map<string, Item>, order: seq<string>, auth: Principal)
    requires WellFormed(items, order)
    ensures |ItemModels(items, order, auth)| == |items|
    ensures forall k :: k in items ==> EntityModel(items[k], ItemLinks(k, auth)) in ItemModels(items, order, auth)
  {
    var r := ItemModels(items, order, auth);
    StoreSize(items, order);
    forall k | k in items ensures EntityModel(items[k], ItemLinks(k, auth)) in r {
      var j :| 0 <= j < |order| && order[j] == k;
      assert Some(r[j]) == ItemRepresentation(items, k, auth);
    }
  }

  /** Over a consistent store every model in the collection is the `findOne`
      result for its own item's id. */
  lemma {:induction false} ItemModelsSound(items: map<string, Item>, order: seq<string>, auth: Principal)
    requires WellFormed(items, order)
    ensures forall m :: m in ItemModels(items, order, auth) ==>
      m.content.id.Some? && Some(m) == ItemRepresentation(items, m.content.id.value, auth)
  {
    var r := ItemModels(items, order, auth);
    forall m | m in r
      ensures m.content.id.Some? && Some(m) == ItemRepresentation(items, m.content.id.value, auth)
    {
      var j :| 0 <= j < |r| && r[j] == m;
      assert Some(m) == ItemRepresentation(items, order[j], auth);
    }
  }

  /** Over a consistent store no model appears twice in the collection, so
      with `ItemModelsComplete` and `ItemModelsSound` the collection is a
      permutation of the stored items' models. */
  lemma {:induction false} ItemModelsDistinct(items: map<string, Item>, order: seq<string>, auth: Principal)
    requires WellFormed(items, order)
    ensures var r := ItemModels(items, order, auth);
      forall i, j :: 0 <= i < j < |r| ==> r[i] != r[j]
  {
    var r := ItemModels(items, order, auth);
    forall i, j | 0 <= i < j < |r| ensures r[i] != r[j] {
      assert Some(r[i]) == ItemRepresentation(items, order[i], auth);
      assert Some(r[j]) == ItemRepresentation(items, order[j], auth);
    }
  }

  /** An empty store yields no models (the links are still present). */
  lemma EmptyStoreHasNoModels(auth: Principal)
    ensures ItemModels(map[], [], auth) == []
  {
  }

  /** A non-empty path segment. */
  predicate IsSegment(id: string) {
    |id| > 0 && '/' !in id
  }

  /** The id a GET to `path` hands to `findOne` through the `{id}` path
      variable; `path` is taken as the route matcher compares it (segments
      percent-decoded, `;` parameters removed). As for every route, one trailing '/' is optional;
      `/api/items/profile` goes to the profile handler instead. */
  function RoutedItemId(path: string): (r: Option<string>)
    ensures r.Some? ==> IsSegment(r.value) && r.value != "profile"
    ensures r.Some? ==> ItemHref(r.value) == path || ItemHref(r.value) + "/" == path
  {
    var p := if 0 < |path| && path[|path| - 1] == '/' then path[..|path| - 1] else path;
    if |ItemPrefix| < |p| && p[..|ItemPrefix|] == ItemPrefix
       && IsSegment(p[|ItemPrefix|..]) && p[|ItemPrefix|..] != "profile"
    then
      assert ItemHref(p[|ItemPrefix|..]) == p;
      assert p != path ==> p + "/" == path;
      Some(p[|ItemPrefix|..])
    else None
  }

  /** Every routable id is reached from its item path, with or without the
      trailing '/'. */
  lemma RoutedItemIdReaches(id: string)
    requires IsSegment(id) && id != "profile"
    ensures RoutedItemId(ItemHref(id)) == Some(id)
    ensures RoutedItemId(ItemHref(id) + "/") == Some(id)
  {
    var href := ItemHref(id);
    assert href[..|ItemPrefix|] == ItemPrefix && href[|ItemPrefix|..] == id;
    assert href[|href| - 1] == id[|id| - 1] != '/';
    var slashed := href + "/";
    assert slashed[..|slashed| - 1] == href;
  }

  /** Following an item's self link leads back to the same representation. */
  lemma SelfLinkRoundTrip(items: map<string, Item>, id: string, auth: Principal)
    requires id in items && IsSegment(id) && id != "profile"
    ensures var self := GetLink(ItemRepresentation(items, id, auth).value.links, SELF);
      && self.Some?
      && RoutedItemId(self.value.href) == Some(id)
      && ItemRepresentation(items, RoutedItemId(self.value.href).value, auth) == ItemRepresentation(items, id, auth)
  {
    RoutedItemIdReaches(id);
  }

  /** Deleting twice leaves the store as deleting once does. */
  lemma DeleteIdempotent(items: map<string, Item>, order: seq<string>, id: string)
    ensures (items - {id}) - {id} == items - {id}
    ensures Without(Without(order, id), id) == Without(order, id)
  {
    WithoutIdempotent(order, id);
  }

  // ---------------------------------------------------------------------------
  // The controller
  // ---------------------------------------------------------------------------

  class ApiItemController {
    const repository: ItemRepository

    constructor (repository: ItemRepository)
      ensures this.repository == repository
    {
      this.repository := repository;
    }

    /** `findOne`: nothing when the id is not stored, otherwise the stored
        item with its item links. */
    method FindOne(id: string, auth: Principal) returns (r: Option<EntityModel>)
      requires repository.Valid()
      ensures r.Some? <==> id in repository.items
      ensures r.Some? ==> r.value.content == repository.items[id] && r.value.content.id == Some(id)
      ensures r.Some? ==> r.value.links == ItemLinks(id, auth)
    {
      var links := ItemLinks(id, auth);
      var found := repository.FindById(id);
      r := match found
        case Some(item) => Some(EntityModel(item, links))
        case None => None;
    }

    /** `findAll`: the models of all stored items, in the store's order,
        with the collection links. */
    method FindAll(auth: Principal) returns (model: CollectionModel)
      requires repository.Valid()
      ensures model.links == CollectionLinks(auth)
      ensures model.content == ItemModels(repository.items, repository.order, auth)
    {
      var links := CollectionLinks(auth);
      var ids := repository.order;
      ghost var items := repository.items;
      var content: seq<EntityModel> := [];
      var i := 0;
      while i < |ids|
        invariant 0 <= i <= |ids|
        invariant content == ItemModels(items, ids[..i], auth)
      {
        var one := FindOne(ids[i], auth);
        ItemModelsStep(items, ids, i, auth);
        content := content + [one.value];
        i := i + 1;
      }
      assert ids[..i] == ids;
      model := CollectionModel(content, links);
    }

    /** `addNewItem`: refused without the inventory role before the store is
        touched; otherwise the item is saved and the response points at its
        self link. */
    method AddNewItem(item: Item, auth: Principal, freshId: string) returns (resp: Response)
      requires repository.Valid()
      requires item.id.None? ==> freshId !in repository.items
      modifies repository
      ensures repository.Valid()
      ensures !HasInventory(auth) ==>
        resp == AccessDenied && repository.items == old(repository.items) && repository.order == old(repository.order)
      ensures HasInventory(auth) ==>
        var id := AssignedId(item, freshId);
        && repository.items == old(repository.items)[id := Stored(item, id)]
        && repository.order == (if id in old(repository.items) then old(repository.order) else old(repository.order) + [id])
        && resp == Created(ItemHref(id))
    {
      if !HasInventory(auth) {
        return AccessDenied;
      }
      var saved := repository.Save(item, freshId);
      var model := FindOne(saved.id.value, auth);
      resp := Created(GetLink(model.value.links, SELF).value.href);
    }

    /** `deleteItem`: refused without the inventory role; otherwise the id is
        gone afterwards, whether or not it was stored, and nothing else
        changes. */
    method DeleteItem(id: string, auth: Principal) returns (resp: Response)
      requires repository.Valid()
      modifies repository
      ensures repository.Valid()
      ensures !HasInventory(auth) ==>
        resp == AccessDenied && repository.items == old(repository.items) && repository.order == old(repository.order)
      ensures HasInventory(auth) ==>
        && resp == NoContent(None)
        && repository.items == old(repository.items) - {id}
        && repository.order == Without(old(repository.order), id)
    {
      if !HasInventory(auth) {
        return AccessDenied;
      }
      repository.DeleteById(id);
      resp := NoContent(None);
    }

    /** `updateItem`: no role guard; the entry under the path id is replaced
        by the body's fields (any id in the body is ignored) and the response
        points at the item's self link. */
    method UpdateItem(body: EntityModel, id: string, auth: Principal) returns (resp: Response)
      requires repository.Valid()
      modifies repository
      ensures repository.Valid()
      ensures repository.items == old(repository.items)[id := Item(Some(id), body.content.name, body.content.description, body.content.price)]
      ensures repository.order == if id in old(repository.items) then old(repository.order) else old(repository.order) + [id]
      ensures resp == NoContent(Some(ItemHref(id)))
    {
      var content := body.content;
      var replacement := Item(Some(id), content.name, content.description, content.price);
      var saved := repository.Save(replacement, id);
      var model := FindOne(id, auth);
      resp := NoContent(Some(GetLink(model.value.links, SELF).value.href));
    }
  }
}
