/**
 * The explorer: a session over one user's namespace in the record store,
 * with a cursor (`current_path`) into the directory tree.
 */
module Explorer {
  import opened Wrappers
  import opened Items
  import opened Tree
  import opened TreeFacts

  /** Raised by `get_item_by_name` when no child has the name looked for. */
  datatype ItemNotFound = ItemNotFound(name: string)

  /**
   * The record store (the module-level key-value client `cache`), seen
   * through one user's keys: item records and directory listings. `rank`
   * is a ghost depth that the explorer keeps for the namespace it stores.
   */
  class Store {
    var items: ItemMap
    var lists: ListMap
    ghost var rank: Rank

    /** An empty store. */
    constructor ()
      ensures items == map[] && lists == map[] && rank == map[]
    {
      items, lists, rank := map[], map[], map[];
    }

    /** `get` of an item key: the record, or None when the key is missing. */
    function GetItem(id: Id): (r: Option<FsItem>)
      reads this
      ensures r.Some? <==> id in items
      ensures r.Some? ==> r.value == items[id]
    {
      if id in items then Some(items[id]) else None
    }

    /** `get` of a listing key: the child ids, or None when the key is missing. */
    function GetListing(id: Id): (r: Option<seq<Id>>)
      reads this
      ensures r.Some? <==> id in lists
      ensures r.Some? ==> r.value == lists[id]
    {
      if id in lists then Some(lists[id]) else None
    }

    /** `add` of an item record: overwrites whatever the key held. */
    method AddItem(id: Id, item: FsItem)
      modifies this
      ensures items == old(items)[id := item] && lists == old(lists) && rank == old(rank)
    {
      items := items[id := item];
    }

    /** `add` of a listing: overwrites whatever the key held. */
    method AddListing(id: Id, ids: seq<Id>)
      modifies this
      ensures lists == old(lists)[id := ids] && items == old(items) && rank == old(rank)
    {
      lists := lists[id := ids];
    }

    /** `delete` of an item key; deleting a missing key changes nothing. */
    method DeleteItem(id: Id) returns (removed: bool)
      modifies this
      ensures removed == (id in old(items))
      ensures items == old(items) - {id} && lists == old(lists) && rank == old(rank)
    {
      removed := id in items;
      items := items - {id};
    }

    /** `delete` of a listing key; deleting a missing key changes nothing. */
    method DeleteListing(id: Id) returns (removed: bool)
      modifies this
      ensures removed == (id in old(lists))
      ensures lists == old(lists) - {id} && items == old(items) && rank == old(rank)
    {
      removed := id in lists;
      lists := lists - {id};
    }
  }

  /** The fresh ids that `uuid()` will hand out, in order. */
  class IdSupply {
    var remaining: seq<Id>

    constructor (ids: seq<Id>)
      ensures remaining == ids
    {
      remaining := ids;
    }

    method Next() returns (id: Id)
      requires |remaining| > 0
      modifies this
      ensures id == old(remaining)[0] && remaining == old(remaining)[1..]
    {
      id := remaining[0];
      remaining := remaining[1..];
    }
  }

  /** The first record named `name` (the name loops of the explorer). */
  method FindByName(elements: seq<FsItem>, name: string) returns (found: Option<FsItem>)
    ensures FirstNamed(elements, name).None? ==> found == None
    ensures FirstNamed(elements, name).Some? ==> found == Some(elements[FirstNamed(elements, name).value])
  {
    for i := 0 to |elements|
      invariant forall j :: 0 <= j < i ==> elements[j].name != name
    {
      if elements[i].name == name {
        return Some(elements[i]);
      }
    }
    return None;
  }

  /** Python's `list.remove(x)`: drops the first occurrence of `x`. */
  method ListRemove(s: seq<Id>, x: Id) returns (r: seq<Id>)
    requires x in s
    ensures r == RemoveFirst(s, x)
  {
    var i := 0;
    while s[i] != x
      invariant 0 <= i < |s| && x !in s[..i] && x in s[i..]
      decreases |s| - i
    {
      assert s[..i + 1] == s[..i] + [s[i]];
      i := i + 1;
    }
    r := s[..i] + s[i + 1..];
  }

  /**
   * The records and listings of `s` are as they were in the snapshot
   * `items0`, `lists0`: what a recursive delete may still rely on.
   */
  ghost predicate Intact(items: ItemMap, lists: ListMap, items0: ItemMap, lists0: ListMap, s: set<Id>)
  {
    forall x :: x in s ==>
      && x in items0 && x in items && items[x] == items0[x]
      && (x in lists <==> x in lists0)
      && (x in lists0 ==> lists[x] == lists0[x])
  }

  /** Removing keys in two steps is removing their union. */
  lemma RemoveKeysTwice<V>(m: map<Id, V>, a: set<Id>, b: set<Id>)
    ensures m - a - b == m - (a + b)
  {
  }

  /** Removing a set's member once more changes nothing. */
  lemma RemoveMemberAgain<V>(m: map<Id, V>, s: set<Id>, x: Id)
    requires x in s
    ensures m - s - {x} == m - s
  {
  }

  /** Removing a set without one member, then that member, removes the set. */
  lemma RemoveMemberLast<V>(m: map<Id, V>, s: set<Id>, x: Id)
    requires x in s
    ensures m - (s - {x}) - {x} == m - s
  {
  }

  /** What is untouched stays untouched when keys outside it are removed. */
  lemma IntactAfterRemoval(items: ItemMap, lists: ListMap, items0: ItemMap, lists0: ListMap,
                           s: set<Id>, removed: set<Id>, t: set<Id>)
    requires Intact(items, lists, items0, lists0, s) && t <= s && t !! removed
    ensures Intact(items - removed, lists - removed, items0, lists0, t)
  {
  }

  class Explorer {
    const user: string
    const store: Store
    var currentPath: seq<Id>

    /** The store holds a well-formed namespace and the cursor is not empty. */
    ghost predicate Valid()
      reads this, store
    {
      WellFormed(store.items, store.lists, store.rank) && |currentPath| > 0
    }

    /**
     * Creates the root record and the root listing when they are missing and
     * puts the cursor at the root.
     */
    constructor (user: string, store: Store)
      modifies store
      ensures this.user == user && this.store == store && currentPath == [RootId]
      ensures store.items == if RootId in old(store.items) then old(store.items)
                             else old(store.items)[RootId := RootItem]
      ensures store.lists == if RootId in old(store.lists) then old(store.lists)
                             else old(store.lists)[RootId := []]
      ensures old(store.items) == map[] && old(store.lists) == map[] ==> Valid()
      ensures old(WellFormed(store.items, store.lists, store.rank)) ==>
                Valid() && store.items == old(store.items) && store.lists == old(store.lists)
    {
      this.user := user;
      this.store := store;
      currentPath := [RootId];
      new;
      if store.GetItem(RootId).None? {
        store.AddItem(RootId, RootItem);
        store.rank := store.rank[RootId := 0];
      }
      if store.GetListing(RootId).None? {
        store.AddListing(RootId, []);
      }
    }

    /** The id at the end of the cursor. */
    function GetCurrentDirectoryId(): (id: Id)
      reads this
      requires |currentPath| > 0
      ensures id in currentPath && currentPath == currentPath[..|currentPath| - 1] + [id]
    {
      currentPath[|currentPath| - 1]
    }

    /** An explicit directory id, or the current directory when None is given. */
    function Target(directoryId: Option<Id>): (id: Id)
      reads this
      requires |currentPath| > 0
      ensures directoryId.Some? ==> id == directoryId.value
      ensures directoryId.None? ==> id in currentPath && id == currentPath[|currentPath| - 1]
    {
      if directoryId.Some? then directoryId.value else GetCurrentDirectoryId()
    }

    /**
     * Looks up every id of the directory's listing, in order, and writes the
     * ids of the records found back as the listing. Fails (precondition)
     * when the listing is missing or names an id without a record.
     */
    method GetDirectoryContents(directoryId: Option<Id>) returns (elements: seq<FsItem>)
      requires |currentPath| > 0 && Target(directoryId) in store.lists
      requires Resolve(store.items, store.lists[Target(directoryId)]).Some?
      modifies store
      ensures Resolve(store.items, old(store.lists[Target(directoryId)])) == Some(elements)
      ensures store.items == old(store.items) && store.rank == old(store.rank)
      ensures store.lists == old(store.lists)[old(Target(directoryId)) := IdsOf(elements)]
      ensures old(Valid()) ==> store.lists == old(store.lists) && Valid()
    {
      var d := Target(directoryId);
      var elementIds := store.GetListing(d).value;
      elements := [];
      for i := 0 to |elementIds|
        invariant |elements| == i
        invariant forall j :: 0 <= j < i ==> elements[j] == store.items[elementIds[j]]
      {
        var element := store.GetItem(elementIds[i]).value;
        elements := elements + [element];
      }
      assert Resolve(store.items, elementIds).value == elements;
      if Valid() {
        WriteBackUnchanged(store.items, elementIds);
      }
      store.AddListing(d, IdsOf(elements));
    }

    /**
     * The first child of the directory, in listing order, whose name is
     * exactly `name`, or the `ItemNotFound` exception.
     */
    method GetItemByName(name: string, directoryId: Option<Id>) returns (r: Result<FsItem, ItemNotFound>)
      requires |currentPath| > 0 && Target(directoryId) in store.lists
      requires Resolve(store.items, store.lists[Target(directoryId)]).Some?
      modifies store
      ensures var contents := Resolve(old(store.items), old(store.lists[Target(directoryId)])).value;
        match FirstNamed(contents, name)
        case Some(i) => r == Success(contents[i])
        case None => r == Failure(ItemNotFound(name))
      ensures store.items == old(store.items) && store.rank == old(store.rank)
      ensures store.lists == old(store.lists)[old(Target(directoryId)) :=
                IdsOf(Resolve(old(store.items), old(store.lists[Target(directoryId)])).value)]
      ensures old(Valid()) ==> store.lists == old(store.lists) && Valid()
    {
      var contents := GetDirectoryContents(directoryId);
      var found := FindByName(contents, name);
      if found.Some? {
        return Success(found.value);
      }
      return Failure(ItemNotFound(name));
    }

    /** The ids from the root down to the directory, each the parent of the next. */
    method GetDirectoryParents(directoryId: Option<Id>) returns (family: seq<Id>)
      requires Valid() && Target(directoryId) in store.items
      ensures family == Chain(store.items, store.rank, Target(directoryId))
    {
      var id := Target(directoryId);
      family := [id];
      while true
        invariant id in store.items
        invariant |family| >= 1 && family[0] == id
        invariant Chain(store.items, store.rank, Target(directoryId))
               == Chain(store.items, store.rank, id) + family[1..]
        decreases store.rank[id]
      {
        var directory := store.GetItem(id).value;
        if directory.directoryId.None? {
          break;
        }
        family := [directory.directoryId.value] + family;
        id := directory.directoryId.value;
      }
    }

    /** "/" followed by the name, for every id of the cursor, in order. */
    method GetDirectoryParentsString() returns (path: string)
      requires forall i :: 0 <= i < |currentPath| ==> currentPath[i] in store.items
      ensures path == PathString(store.items, currentPath)
    {
      path := "";
      for i := 0 to |currentPath|
        invariant path == PathString(store.items, currentPath[..i])
      {
        PathStringSnoc(store.items, currentPath[..i], currentPath[i]);
        assert currentPath[..i + 1] == currentPath[..i] + [currentPath[i]];
        path := path + "/" + store.GetItem(currentPath[i]).value.name;
      }
      assert currentPath[..|currentPath|] == currentPath;
    }

    /** Replaces the cursor by the directory's chain from the root. */
    method GoToDirectory(directoryId: Id)
      requires Valid() && directoryId in store.items
      modifies this
      ensures Valid()
      ensures currentPath == Chain(store.items, store.rank, directoryId)
      ensures GetCurrentDirectoryId() == directoryId
    {
      currentPath := GetDirectoryParents(Some(directoryId));
    }

    /**
     * The store writes common to the two creates: the new record, an empty
     * listing for a directory, and the id appended to the parent's listing.
     */
    method Attach(item: FsItem)
      requires WellFormed(store.items, store.lists, store.rank)
      requires item.id !in store.items && item.iType != Link
      requires item.directoryId.Some? && item.directoryId.value in store.lists
      modifies store
      ensures WellFormed(store.items, store.lists, store.rank)
      ensures var p := item.directoryId.value;
        && store.items == old(store.items)[item.id := item]
        && store.lists == (if item.iType == Directory then old(store.lists)[item.id := []] else old(store.lists))
                            [p := old(store.lists)[p] + [item.id]]
        && Chain(store.items, store.rank, item.id) == Chain(store.items, store.rank, p) + [item.id]
    {
      ghost var items0, lists0, rank0 := store.items, store.lists, store.rank;
      var p := item.directoryId.value;
      store.AddItem(item.id, item);
      if item.iType == Directory {
        store.AddListing(item.id, []);
      }
      var parentList := store.GetListing(p).value;
      store.AddListing(p, parentList + [item.id]);
      store.rank := store.rank[item.id := store.rank[p] + 1];
      InsertKeepsWellFormed(items0, lists0, rank0, item, store.items, store.lists, store.rank);
    }

    /**
     * Creates a directory named `name` in the target directory, under the
     * next generated id (drawn even when the name is taken). When a child of
     * the target already has the name, nothing is created and None is
     * returned. The cursor is recomputed when the target is the current
     * directory.
     */
    method AddDirectory(name: string, parentDirectoryId: Option<Id>, ids: IdSupply)
      returns (r: Option<FsItem>)
      requires Valid() && Target(parentDirectoryId) in store.lists
      requires |ids.remaining| > 0 && ids.remaining[0] !in store.items
      modifies this, store, ids
      ensures Valid()
      ensures ids.remaining == old(ids.remaining)[1..]
      ensures var p, id := old(Target(parentDirectoryId)), old(ids.remaining[0]);
        if NameTaken(old(store.items), old(store.lists)[p], name) then
          && r == None
          && store.items == old(store.items) && store.lists == old(store.lists)
          && currentPath == old(currentPath)
        else
          && r == Some(FsItem(id, name, Some(p), None, Directory))
          && store.items == old(store.items)[id := r.value]
          && store.lists == old(store.lists)[id := []][p := old(store.lists)[p] + [id]]
          && Chain(store.items, store.rank, id) == Chain(store.items, store.rank, p) + [id]
          && currentPath == if p == old(GetCurrentDirectoryId()) then Chain(store.items, store.rank, p)
                            else old(currentPath)
    {
      var p := Target(parentDirectoryId);
      var directoryId := ids.Next();
      ListingResolves(store.items, store.lists, store.rank, p);
      var contents := GetDirectoryContents(Some(p));
      var clash := FindByName(contents, name);
      NameTakenResolved(old(store.items), old(store.lists)[p], name);
      assert store.items == old(store.items) && store.lists == old(store.lists);
      if clash.Some? {
        return None;
      }
      var item := FsItem(directoryId, name, Some(p), None, Directory);
      Attach(item);
      ghost var items1, rank1 := store.items, store.rank;
      assert currentPath == old(currentPath);
      if p == GetCurrentDirectoryId() {
        GoToDirectory(p);
      }
      assert store.items == items1 && store.rank == rank1;
      return Some(item);
    }

    /**
     * Creates a file record with the caller's id, name and size in the
     * target directory. When a child of the target already has the name,
     * nothing is created and None is returned. The cursor is recomputed when
     * the target is the current directory.
     */
    method AddFile(fileId: Id, name: string, size: Option<int>, directoryId: Option<Id>)
      returns (r: Option<FsItem>)
      requires Valid() && Target(directoryId) in store.lists && fileId !in store.items
      modifies this, store
      ensures Valid()
      ensures var d := old(Target(directoryId));
        if NameTaken(old(store.items), old(store.lists)[d], name) then
          && r == None
          && store.items == old(store.items) && store.lists == old(store.lists)
          && currentPath == old(currentPath)
        else
          && r == Some(FsItem(fileId, name, Some(d), size, File))
          && store.items == old(store.items)[fileId := r.value]
          && store.lists == old(store.lists)[d := old(store.lists)[d] + [fileId]]
          && Chain(store.items, store.rank, fileId) == Chain(store.items, store.rank, d) + [fileId]
          && currentPath == if d == old(GetCurrentDirectoryId()) then Chain(store.items, store.rank, d)
                            else old(currentPath)
    {
      var d := Target(directoryId);
      ListingResolves(store.items, store.lists, store.rank, d);
      var contents := GetDirectoryContents(Some(d));
      var clash := FindByName(contents, name);
      NameTakenResolved(old(store.items), old(store.lists)[d], name);
      assert store.items == old(store.items) && store.lists == old(store.lists);
      if clash.Some? {
        return None;
      }
      var item := FsItem(fileId, name, Some(d), size, File);
      Attach(item);
      ghost var items1, rank1 := store.items, store.rank;
      assert currentPath == old(currentPath);
      if d == GetCurrentDirectoryId() {
        GoToDirectory(d);
      }
      assert store.items == items1 && store.rank == rank1;
      return Some(item);
    }

    /**
     * Deletes an item. A directory's descendants lose their records and
     * listings, depth first, and the directory loses its listing; at the top
     * level (`isRecursed` false) the item's record goes too, and its id is
     * removed from its parent's listing. `items0` and `lists0` are the
     * namespace as the top-level call found it.
     */
    method DeleteItem(itemId: Id, isRecursed: bool, ghost items0: ItemMap, ghost lists0: ListMap)
      requires WellFormed(items0, lists0, store.rank) && itemId in items0
      requires Intact(store.items, store.lists, items0, lists0, Subtree(items0, store.rank, itemId))
      requires !isRecursed ==> store.items == items0 && store.lists == lists0 && itemId != RootId
      modifies store
      ensures store.rank == old(store.rank)
      ensures isRecursed ==>
        && store.items == old(store.items) - (Subtree(items0, store.rank, itemId) - {itemId})
        && store.lists == old(store.lists) - Subtree(items0, store.rank, itemId)
      ensures !isRecursed ==>
        var p := items0[itemId].directoryId.value;
        && store.items == items0 - Subtree(items0, store.rank, itemId)
        && store.lists == (lists0 - Subtree(items0, store.rank, itemId))[p := RemoveFirst(lists0[p], itemId)]
        && WellFormed(store.items, store.lists, store.rank)
      decreases Subtree(items0, store.rank, itemId), 1
    {
      ghost var sub := Subtree(items0, store.rank, itemId);
      var item := store.GetItem(itemId).value;
      assert item == items0[itemId];
      if item.iType == Directory {
        var itemIds := store.GetListing(itemId).value;
        DeleteChildren(itemId, itemIds, items0, lists0);
        var _ := store.DeleteListing(item.id);
        RemoveMemberLast(old(store.lists), sub, itemId);
      } else {
        SubtreeOfNonDirectory(items0, store.rank, itemId);
        assert store.lists == old(store.lists) - sub;
      }
      if !isRecursed {
        var parentDirectoryId := item.directoryId.value;
        DeleteKeepsWellFormed(items0, lists0, store.rank, itemId);
        var _ := store.DeleteItem(itemId);
        RemoveMemberLast(items0, sub, itemId);
        var parentElementsIds := store.GetListing(parentDirectoryId).value;
        parentElementsIds := ListRemove(parentElementsIds, itemId);
        store.AddListing(parentDirectoryId, parentElementsIds);
      }
    }

    /**
     * The loop of `delete_item` over a directory's listing: every child's
     * subtree is removed, in listing order.
     */
    method DeleteChildren(itemId: Id, itemIds: seq<Id>, ghost items0: ItemMap, ghost lists0: ListMap)
      requires WellFormed(items0, lists0, store.rank) && itemId in lists0 && itemIds == lists0[itemId]
      requires Intact(store.items, store.lists, items0, lists0, Subtree(items0, store.rank, itemId))
      modifies store
      ensures store.rank == old(store.rank)
      ensures store.items == old(store.items) - (Subtree(items0, store.rank, itemId) - {itemId})
      ensures store.lists == old(store.lists) - (Subtree(items0, store.rank, itemId) - {itemId})
      decreases Subtree(items0, store.rank, itemId), 0
    {
      ghost var sub := Subtree(items0, store.rank, itemId);
      assert ChildrenOf(items0, itemIds, itemId);
      for k := 0 to |itemIds|
        invariant store.rank == old(store.rank)
        invariant store.items == old(store.items) - SubtreesOf(items0, store.rank, itemIds[..k])
        invariant store.lists == old(store.lists) - SubtreesOf(items0, store.rank, itemIds[..k])
      {
        ghost var done := SubtreesOf(items0, store.rank, itemIds[..k]);
        ghost var below := Subtree(items0, store.rank, itemIds[k]);
        NextChildUntouched(items0, store.rank, itemId, itemIds, k);
        IntactAfterRemoval(old(store.items), old(store.lists), items0, lists0, sub, done, below);
        DeleteChild(itemIds[k], items0, lists0);
        RemoveKeysTwice(old(store.items), done, below);
        RemoveKeysTwice(old(store.lists), done, below);
        SubtreesOfPrefix(items0, store.rank, itemIds, k);
      }
      SubtreeSplitsOverListing(items0, lists0, store.rank, itemId);
      assert itemIds[..|itemIds|] == itemIds;
    }

    /**
     * One turn of that loop: a child directory's descendants and listing go
     * through the recursive call, after which its listing key is deleted once
     * more (it is already gone); then the child's record goes.
     */
    method DeleteChild(each: Id, ghost items0: ItemMap, ghost lists0: ListMap)
      requires WellFormed(items0, lists0, store.rank) && each in items0
      requires Intact(store.items, store.lists, items0, lists0, Subtree(items0, store.rank, each))
      modifies store
      ensures store.rank == old(store.rank)
      ensures store.items == old(store.items) - Subtree(items0, store.rank, each)
      ensures store.lists == old(store.lists) - Subtree(items0, store.rank, each)
      decreases Subtree(items0, store.rank, each), 2
    {
      ghost var below := Subtree(items0, store.rank, each);
      var element := store.GetItem(each).value;
      if element.iType == Directory {
        DeleteItem(each, true, items0, lists0);
        var _ := store.DeleteListing(each);
        RemoveMemberAgain(old(store.lists), below, each);
      } else {
        SubtreeOfNonDirectory(items0, store.rank, each);
        assert each !in old(store.lists);
        assert old(store.lists) - below == old(store.lists);
      }
      var _ := store.DeleteItem(each);
      RemoveMemberLast(old(store.items), below, each);
    }
  }
}
