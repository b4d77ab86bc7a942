/**
 * A whole session on a fresh store, with the store contents it ends in.
 */
module Scenarios {
  import opened Items
  import opened Tree
  import opened Explorer

  /** Three explorers for one user on an empty store leave just the root. */
  method RepeatedConstruction(user: string) returns (items: ItemMap, lists: ListMap)
    ensures items == map[RootId := RootItem]
    ensures lists == map[RootId := []]
  {
    var store := new Store();
    var first := new Explorer(user, store);
    var second := new Explorer(user, store);
    var third := new Explorer(user, store);
    items, lists := store.items, store.lists;
  }
}
