/** Items and the id-keyed item store the API works against, standing in for
    the reactive Mongo repository. */
module Inventory {
  import opened Wrappers

  /** A `double` price, carried as its 64-bit pattern and compared only for
      equality. */
  datatype Price = Price(bits: bv64)

  /** An item; `id` is None until the store has assigned one. */
  datatype Item = Item(id: Option<string>, name: string, description: string, price: Price)

  /** The id `save` persists an item under: its own id if it carries one
      (an upsert), otherwise the id the store generates. */
  function AssignedId(item: Item, freshId: string): (id: string)
    ensures item.id.Some? ==> id == item.id.value
    ensures item.id.None? ==> id == freshId
  {
    item.id.GetOr(freshId)
  }

  /** The record `save` stores: the item's fields under the assigned id. */
  function Stored(item: Item, id: string): (r: Item)
    ensures r.id == Some(id)
    ensures r.name == item.name && r.description == item.description && r.price == item.price
  {
    Item(Some(id), item.name, item.description, item.price)
  }

  predicate NoDuplicates(s: seq<string>) {
    forall i, j :: 0 <= i < j < |s| ==> s[i] != s[j]
  }

  /** Dropping the head of a list without duplicates leaves one without
      duplicates that no longer holds the head. */
  lemma TailNoDuplicates(s: seq<string>)
    requires s != []
    ensures NoDuplicates(s) ==> NoDuplicates(s[1..]) && s[0] !in s[1..]
  {
    if NoDuplicates(s) {
      var t := s[1..];
      forall i, j | 0 <= i < j < |t| ensures t[i] != t[j] {
        assert t[i] == s[i + 1] && t[j] == s[j + 1];
      }
      forall k | 0 <= k < |t| ensures t[k] != s[0] {
        assert t[k] == s[k + 1];
      }
    }
  }

  /** `s` with every occurrence of `x` removed. */
  function Without(s: seq<string>, x: string): (r: seq<string>)
    ensures forall y :: y in r <==> y in s && y != x
    ensures NoDuplicates(s) ==> NoDuplicates(r)
    ensures x !in s ==> r == s
  {
    if s == [] then []
    else if s[0] == x then Without(s[1..], x)
    else TailNoDuplicates(s); [s[0]] + Without(s[1..], x)
  }

  /** Removing twice is removing once. */
  lemma {:induction false} WithoutIdempotent(s: seq<string>, x: string)
    ensures Without(Without(s, x), x) == Without(s, x)
  {
    // Without(s, x) has no x left, so the second removal changes nothing.
    assert x !in Without(s, x);
  }

  /** A list without duplicates has as many elements as its set. */
  lemma {:induction false} DistinctCount(s: seq<string>)
    requires NoDuplicates(s)
    ensures |set y | y in s| == |s|
  {
    if s != [] {
      var t := s[1..];
      TailNoDuplicates(s);
      DistinctCount(t);
      assert (set y | y in s) == {s[0]} + (set y | y in t) by {
        assert s == [s[0]] + t;
      }
    }
  }

  /** Store consistency: every stored id appears once in `order`, and each
      item carries the id it is stored under. */
  ghost predicate WellFormed(items: map<string, Item>, order: seq<string>) {
    && NoDuplicates(order)
    && (forall k :: k in items <==> k in order)
    && (forall k :: k in items ==> items[k].id == Some(k))
  }

  /** A consistent store holds as many items as `order` lists ids. */
  lemma StoreSize(items: map<string, Item>, order: seq<string>)
    requires WellFormed(items, order)
    ensures |items| == |order|
  {
    DistinctCount(order);
    assert items.Keys == set y | y in order;
  }

  /** The store: items by id, and the ids in insertion order (the order in
      which `findAll` emits them). */
  class ItemRepository {
    var items: map<string, Item>
    var order: seq<string>

    ghost predicate Valid()
      reads this
    {
      WellFormed(items, order)
    }

    constructor ()
      ensures Valid() && items == map[] && order == []
    {
      items := map[];
      order := [];
    }

    /** `findById`: zero or one item. */
    method FindById(id: string) returns (r: Option<Item>)
      requires Valid()
      ensures r.Some? <==> id in items
      ensures r.Some? ==> r.value == items[id] && r.value.id == Some(id)
    {
      r := if id in items then Some(items[id]) else None;
    }

    /** `save`: store the item under its assigned id, replacing whatever was
        there; a new id goes to the end of the iteration order. */
    method Save(item: Item, freshId: string) returns (saved: Item)
      requires Valid()
      requires item.id.None? ==> freshId !in items
      modifies this
      ensures Valid()
      ensures saved == Stored(item, AssignedId(item, freshId))
      ensures items == old(items)[AssignedId(item, freshId) := saved]
      ensures order == if AssignedId(item, freshId) in old(items) then old(order)
                       else old(order) + [AssignedId(item, freshId)]
    {
      var id := AssignedId(item, freshId);
      saved := Stored(item, id);
      if id !in items {
        order := order + [id];
      }
      items := items[id := saved];
    }

    /** `deleteById`: drop the id if present; absent ids are no error. */
    method DeleteById(id: string)
      requires Valid()
      modifies this
      ensures Valid()
      ensures items == old(items) - {id}
      ensures order == Without(old(order), id)
    {
      items := items - {id};
      order := Without(order, id);
    }
  }
}
