/** The inventory item collection and `createInventoryItem`. */
module Items {
  import opened Outcomes
  import StoreIds

  datatype InventoryItem = InventoryItem(id: string, createdAt: int, modifiedAt: int, name: string)

  /** The creation input: every field optional, `name` required by the operation. */
  datatype ItemInput = ItemInput(name: Option<string>)

  const NameRequired := "Item must have a name."

  /** An in-memory stand-in for the `items` collection, keyed by id. */
  class ItemStore {
    var items: map<string, InventoryItem>

    ghost predicate Valid()
      reads this
    {
      "" !in items && forall id :: id in items ==> items[id].id == id
    }

    constructor ()
      ensures Valid() && items == map[]
    {
      items := map[];
    }

    /** `insertAsync`: store the record under a fresh server-chosen id and return that id. */
    method Insert(name: string, createdAt: int, modifiedAt: int) returns (id: string)
      requires Valid()
      modifies this
      ensures Valid()
      ensures id != "" && id !in old(items)
      ensures items == old(items)[id := InventoryItem(id, createdAt, modifiedAt, name)]
    {
      StoreIds.FreshIdExists(items.Keys);
      id :| id !in items.Keys && id != "";
      items := items[id := InventoryItem(id, createdAt, modifiedAt, name)];
    }

    /**
     * `createInventoryItem(itemInput)` at clock reading `now`: an undefined name
     * is rejected; any other name, the empty string included, is inserted.
     */
    method CreateInventoryItem(input: ItemInput, now: int) returns (r: Result<string>)
      requires Valid()
      modifies this
      ensures Valid()
      ensures input.name.None? ==> r == Err(ValidationError(NameRequired)) && items == old(items)
      ensures input.name.Some? ==>
                && r.Ok? && r.value != "" && r.value !in old(items)
                && items == old(items)[r.value := InventoryItem(r.value, now, now, input.name.value)]
    {
      if input.name.None? {
        return Err(ValidationError(NameRequired));
      }
      var id := Insert(input.name.value, now, now);
      r := Ok(id);
    }
  }
}
