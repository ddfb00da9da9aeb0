/** The in-memory item service: the `items_db` list and the four item handlers.
    Handlers run one at a time; a raised HTTP 404 becomes the `NotFound` reply. */
module Backend {
  import opened Items

  /** What a handler answers: a body, or "Item not found" with status 404. */
  datatype Reply<T> = Ok(body: T) | NotFound

  /** The body of a successful delete. */
  const DeletedMessage: string := "Item deleted successfully"

  /** The owner of `items_db`. */
  class ItemStore {
    var items: seq<Item>

    /** Ids are pairwise distinct and positive. */
    ghost predicate Valid()
      reads this
    {
      DistinctIds(items) && PositiveIds(items)
    }

    /** The store as the service starts: the two seed records. */
    constructor ()
      ensures Valid()
      ensures items == Seed
    {
      items := Seed;
    }

    /** `GET /api/items`: the whole list, as stored. */
    function GetItems(): (r: seq<Item>)
      reads this
      ensures r == items
      ensures Valid() ==> DistinctIds(r) && PositiveIds(r)
    {
      items
    }

    /** `GET /api/items/{id}`: the first record with that id, or 404. */
    function GetItem(id: int): (r: Reply<Item>)
      reads this
      ensures r.NotFound? <==> forall i :: 0 <= i < |items| ==> items[i].id != id
      ensures r.Ok? ==> r.body.id == id && r.body in items
      ensures Valid() && r.Ok? ==> forall x :: x in items && x.id == id ==> x == r.body
    {
      match Find(items, id)
      case None => NotFound
      case Some(x) => Ok(x)
    }

    /** `POST /api/items`: append a record whose id is one more than the largest id
        (1 on an empty store) and return it. */
    method Create(req: ItemCreate) returns (created: Item)
      modifies this
      ensures old(Valid()) ==> Valid()
      ensures created == Item(NextId(old(items)), req.name, req.description)
      ensures items == old(items) + [created]
      ensures forall i :: 0 <= i < |old(items)| ==> old(items)[i].id < created.id
      ensures GetItem(created.id) == Ok(created)
    {
      var newId := MaxId(items) + 1;
      created := Item(newId, req.name, req.description);
      AppendFresh(items, created);
      items := items + [created];
    }

    /** `DELETE /api/items/{id}`: 404 with the store untouched when no record has the
        id; otherwise drop every record with that id, keeping the others in order. */
    method Delete(id: int) returns (r: Reply<string>)
      modifies this
      ensures old(Valid()) ==> Valid()
      ensures old(GetItem(id)).NotFound? ==> r == NotFound && items == old(items)
      ensures old(GetItem(id)).Ok? ==> r == Ok(DeletedMessage) && items == RemoveId(old(items), id)
      ensures old(Valid()) && old(GetItem(id)).Ok? ==>
        exists k :: 0 <= k < |old(items)| && old(items)[k].id == id && items == old(items)[..k] + old(items)[k + 1..]
      ensures GetItem(id).NotFound?
    {
      var found := Find(items, id);
      if found.None? {
        r := NotFound;
        return;
      }
      if Valid() {
        ghost var k :| 0 <= k < |items| && items[k] == found.value;
        RemoveIdSpliced(items, k);
        RemoveIdPreservesDistinct(items, id);
      }
      items := RemoveId(items, id);
      r := Ok(DeletedMessage);
    }
  }

  /** Starting from the seed, create "Widget", read it back, delete it, and create
      again: the first new record gets id 3, is gone after the delete, and its id is
      handed out again to the next record. */
  method SeedScenario() returns (first: Item, lookup: Reply<Item>, deleted: Reply<string>,
                                 gone: Reply<Item>, again: Item)
    ensures first == Item(3, "Widget", "")
    ensures lookup == Ok(first)
    ensures deleted == Ok(DeletedMessage)
    ensures gone == NotFound
    ensures again.id == first.id
  {
    var store := new ItemStore();
    first := store.Create(ItemCreate("Widget"));
    lookup := store.GetItem(first.id);
    deleted := store.Delete(first.id);
    gone := store.GetItem(first.id);
    again := store.Create(ItemCreate("Gadget"));
  }
}
