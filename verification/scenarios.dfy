/** Client-side consequences of the contracts: how the seeded users, the
    exchange table and the item API fit together. */
module Scenarios {
  import opened Wrappers
  import opened Security
  import opened Hypermedia
  import opened Inventory
  import opened Api

  /** The principal Spring Security builds from loaded user details. */
  function PrincipalOf(details: UserDetails): Principal {
    Principal(details.username, details.authorities)
  }

  /** Logged in as the seeded manager, the caller is offered `add` on the
      collection and `delete` on every item; logged in as greg, neither. */
  lemma SeededAffordances(passwordHash: string, id: string)
    ensures var manager := PrincipalOf(LoadUser(SeedUsers(passwordHash), "manager").value);
      HasLink(CollectionLinks(manager), ADD) && HasLink(ItemLinks(id, manager), DELETE_REL)
    ensures var greg := PrincipalOf(LoadUser(SeedUsers(passwordHash), "greg").value);
      !HasLink(CollectionLinks(greg), ADD) && !HasLink(ItemLinks(id, greg), DELETE_REL)
  {
    SeededLogins(passwordHash, "nobody");
    InventoryAuthority();
  }

  /** Adding: refused without the role; with it the item is stored under the
      generated id, Location is its self link and the collection lists it. */
  method AddScenario(price: Price)
  {
    var repository := new ItemRepository();
    var api := new ApiItemController(repository);
    var inventory := Principal("alice", {Role(INVENTORY)});
    var other := Principal("carol", {Role("SOME_OTHER_ROLE")});
    InventoryAuthority();

    var resp := api.AddNewItem(Item(None, "iPhone X", "upgrade", price), other, "1");
    assert resp == AccessDenied && repository.items == map[];

    resp := api.AddNewItem(Item(None, "iPhone X", "upgrade", price), inventory, "1");
    assert resp == Created("/api/items/1");
    var found := api.FindOne("1", inventory);
    assert found.Some? && found.value.content == Item(Some("1"), "iPhone X", "upgrade", price);
    assert |found.value.links| == 3;

    var all := api.FindAll(other);
    assert all.links == [Link(SELF, "/api/items")];
    assert |all.content| == 1 && all.content[0].content.name == "iPhone X";
  }

  /** Deleting: refused without the role, leaving the item retrievable; with
      the role the item is gone, and deleting it again still succeeds. */
  method DeleteScenario(item: Item)
    requires item.id == Some("1")
  {
    var repository := new ItemRepository();
    var api := new ApiItemController(repository);
    var inventory := Principal("dan", {Role(INVENTORY)});
    var other := Principal("carol", {Role("SOME_OTHER_ROLE")});
    InventoryAuthority();
    var resp := api.AddNewItem(item, inventory, "unused");

    resp := api.DeleteItem("1", other);
    assert resp == AccessDenied;
    var found := api.FindOne("1", other);
    assert found.Some?;

    resp := api.DeleteItem("1", inventory);
    assert resp == NoContent(None);
    found := api.FindOne("1", other);
    assert found == None;

    resp := api.DeleteItem("1", inventory);
    assert resp == NoContent(None) && repository.items == map[];
  }

  /** Updating needs no role and stores the body's fields under the path id. */
  method UpdateScenario(price: Price)
  {
    var repository := new ItemRepository();
    var api := new ApiItemController(repository);
    var other := Principal("carol", {Role("SOME_OTHER_ROLE")});
    var body := EntityModel(Item(Some("ignored"), "Alf alarm clock", "kids clock", price), []);
    var resp := api.UpdateItem(body, "2", other);
    assert ItemHref("2") == "/api/items/2";
    assert resp == NoContent(Some("/api/items/2"));
    assert repository.items == map["2" := Item(Some("2"), "Alf alarm clock", "kids clock", price)];
  }
}
