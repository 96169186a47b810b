/**
 * The client-side item store: a list of items and an optional selected id,
 * five actions that replace one or both of those fields, and three queries
 * that read them. Each action's `set` becomes an assignment to the fields it
 * returns; the fields it does not return keep their values.
 */
module ItemStore {
  import opened Wrappers
  import opened Items

  class Store {
    /** `items: Item[]`, in insertion order, duplicate ids allowed. */
    var items: seq<Item>
    /** `selectedId: string | null`. */
    var selectedId: Option<string>

    /** The initial state: no items and no selection. */
    constructor ()
      ensures items == [] && selectedId == None
    {
      items := [];
      selectedId := None;
    }

    /** `getItemById`: the first item with the id, if any. */
    function GetItemById(id: string): (r: Option<Item>)
      reads this
      ensures r.Some? ==> r.value in items && r.value.id == id
      ensures r.None? <==> forall x :: x in items ==> x.id != id
    {
      FindById(items, id)
    }

    /** `getItemCount`: the length of the list, duplicates included. */
    function GetItemCount(): (n: nat)
      reads this
      ensures n == |items|
      ensures n == 0 <==> items == []
    {
      |items|
    }

    /**
     * `getSelectedItem`: nothing when there is no selection or the selection
     * is the empty string (`!selectedId`); otherwise the first item with the
     * selected id, or nothing when no item has it.
     */
    function GetSelectedItem(): (r: Option<Item>)
      reads this
      ensures r.Some? ==> selectedId == Some(r.value.id) && r.value.id != "" && r.value in items
      ensures r.None? <==>
                selectedId.None? || selectedId.value == "" ||
                forall x :: x in items ==> x.id != selectedId.value
      ensures selectedId.Some? && selectedId.value != "" ==> r == GetItemById(selectedId.value)
    {
      if selectedId.None? || selectedId.value == "" then None
      else FindById(items, selectedId.value)
    }

    /**
     * `addItem`: appends the item without any check for a duplicate id. The
     * selection is untouched, and an item already stored under the same id
     * still wins the lookup.
     */
    method AddItem(item: Item)
      modifies this
      ensures items == old(items) + [item]
      ensures selectedId == old(selectedId)
      ensures GetItemCount() == old(GetItemCount()) + 1
      ensures GetItemById(item.id) ==
                if old(GetItemById(item.id)).Some? then old(GetItemById(item.id)) else Some(item)
      ensures forall id :: id != item.id ==> FindById(items, id) == FindById(old(items), id)
    {
      ghost var before := items;
      items := items + [item];
      FindByIdAppend(before, item, item.id);
      forall id | id != item.id
        ensures FindById(items, id) == FindById(before, id)
      {
        FindByIdAppend(before, item, id);
      }
    }

    /**
     * `removeItem`: drops every item with the id and clears the selection
     * exactly when it was that id. Afterwards no item has the id, and the
     * selected item is nothing if it was the removed id and unchanged
     * otherwise.
     */
    method RemoveItem(id: string)
      modifies this
      ensures items == Without(old(items), id)
      ensures selectedId == if old(selectedId) == Some(id) then None else old(selectedId)
      ensures GetItemCount() == old(GetItemCount()) - Count(old(items), id)
      ensures GetItemById(id) == None
      ensures GetSelectedItem() == if old(selectedId) == Some(id) then None else old(GetSelectedItem())
    {
      ghost var before := items;
      items := Without(items, id);
      selectedId := if selectedId == Some(id) then None else selectedId;
      if selectedId.Some? && selectedId.value != "" {
        FindByIdWithout(before, id, selectedId.value);
      }
    }

    /**
     * `updateItem`: merges the partial record into every item with the id,
     * keeping the list's length and order and the selection. When the update
     * keeps the id, the lookup for that id yields the old item merged.
     */
    method UpdateItem(id: string, u: Patch)
      modifies this
      ensures items == Updated(old(items), id, u)
      ensures selectedId == old(selectedId)
      ensures GetItemCount() == old(GetItemCount())
      ensures u.id.None? || u.id == Some(id) ==>
                GetItemById(id) ==
                  if old(GetItemById(id)).Some? then Some(Merge(old(GetItemById(id)).value, u)) else None
    {
      ghost var before := items;
      items := Updated(items, id, u);
      if u.id.None? || u.id == Some(id) {
        FindByIdUpdated(before, id, u);
      }
    }

    /**
     * `selectItem`: sets the selection, whether or not an item has that id;
     * the list is untouched.
     */
    method SelectItem(id: Option<string>)
      modifies this
      ensures selectedId == id
      ensures items == old(items)
      ensures id.Some? && id.value != "" ==> GetSelectedItem() == GetItemById(id.value)
    {
      selectedId := id;
    }

    /**
     * `clearItems`: back to the initial state, whatever the state was, so a
     * second call changes nothing.
     */
    method ClearItems()
      modifies this
      ensures items == [] && selectedId == None
      ensures GetItemCount() == 0 && GetSelectedItem() == None
    {
      items := [];
      selectedId := None;
    }
  }
}
