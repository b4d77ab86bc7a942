/**
 * The namespace of one user as two maps, `items` (the records stored under
 * "{user}#{id}") and `lists` (the child-id listings stored under
 * "{user}#d_list-{id}"), with the functions that specify what the explorer's
 * methods compute from them.
 */
module Tree {
  import opened Wrappers
  import opened Items

  type ItemMap = map<Id, FsItem>
  type ListMap = map<Id, seq<Id>>
  /** A ghost depth: every item sits strictly deeper than its parent. */
  type Rank = map<Id, nat>

  /**
   * Parent links: only the root has no parent, every parent is a directory
   * that exists, and the rank grows from parent to child, so parent links
   * cannot form a cycle.
   */
  ghost predicate ParentLinks(items: ItemMap, rank: Rank)
  {
    && (forall x :: x in items ==> x in rank)
    && (forall x :: x in items ==> (items[x].directoryId.None? <==> x == RootId))
    && (forall x :: x in items && items[x].directoryId.Some? ==>
          && items[x].directoryId.value in items
          && items[items[x].directoryId.value].iType == Directory
          && rank[items[x].directoryId.value] < rank[x])
  }

  ghost predicate NoDup(s: seq<Id>)
  {
    forall i, j :: 0 <= i < j < |s| ==> s[i] != s[j]
  }

  /** The ids of `ids` are distinct records whose parent is `d`. */
  ghost predicate ChildrenOf(items: ItemMap, ids: seq<Id>, d: Id)
  {
    && NoDup(ids)
    && (forall i :: 0 <= i < |ids| ==> ids[i] in items && items[ids[i]].directoryId == Some(d))
  }

  /**
   * Listings: exactly the directories have one, a listing names distinct
   * records whose parent is the listing's owner, and every item is listed
   * by its parent.
   */
  ghost predicate Listings(items: ItemMap, lists: ListMap)
  {
    && (forall d :: d in lists ==> d in items && items[d].iType == Directory && ChildrenOf(items, lists[d], d))
    && (forall d :: d in items && items[d].iType == Directory ==> d in lists)
    && (forall x :: x in items && items[x].directoryId.Some? ==>
          items[x].directoryId.value in lists && x in lists[items[x].directoryId.value])
  }

  /** The invariant every explorer operation relies on and preserves. */
  ghost predicate WellFormed(items: ItemMap, lists: ListMap, rank: Rank)
  {
    && RootId in items && items[RootId] == RootItem
    && (forall x :: x in items ==> items[x].id == x)
    && ParentLinks(items, rank)
    && Listings(items, lists)
  }

  /**
   * The ids from the root down to `x`, each the parent of the next
   * (what `get_directory_parents` returns).
   */
  ghost function Chain(items: ItemMap, rank: Rank, x: Id): (c: seq<Id>)
    requires ParentLinks(items, rank) && x in items
    ensures |c| >= 1 && c[0] == RootId && c[|c| - 1] == x
    ensures forall i :: 0 <= i < |c| ==> c[i] in items
    ensures forall i :: 0 < i < |c| ==> items[c[i]].directoryId == Some(c[i - 1])
    ensures forall i :: 0 <= i < |c| - 1 ==> rank[c[i]] < rank[x] && items[c[i]].iType == Directory
    decreases rank[x]
  {
    match items[x].directoryId
    case None => [x]
    case Some(p) => Chain(items, rank, p) + [x]
  }

  /** `d` and everything below it: the items that have `d` on their chain. */
  ghost function Subtree(items: ItemMap, rank: Rank, d: Id): (s: set<Id>)
    requires ParentLinks(items, rank)
    ensures s <= items.Keys
    ensures d in items ==> d in s
  {
    set x | x in items && d in Chain(items, rank, x)
  }

  /** The union of the subtrees of the ids in `ids`. */
  ghost function SubtreesOf(items: ItemMap, rank: Rank, ids: seq<Id>): (s: set<Id>)
    requires ParentLinks(items, rank)
    ensures s <= items.Keys
  {
    if ids == [] then {}
    else SubtreesOf(items, rank, ids[..|ids| - 1]) + Subtree(items, rank, ids[|ids| - 1])
  }

  /**
   * Looking up every id of a listing: the records in listing order, or None
   * (a failure, not a pruned listing) as soon as one id has no record.
   */
  function Resolve(items: ItemMap, ids: seq<Id>): (r: Option<seq<FsItem>>)
    ensures r.Some? <==> forall i :: 0 <= i < |ids| ==> ids[i] in items
    ensures r.Some? ==> |r.value| == |ids| && forall i :: 0 <= i < |ids| ==> r.value[i] == items[ids[i]]
  {
    if ids == [] then Some([])
    else if ids[0] !in items then None
    else
      match Resolve(items, ids[1..])
      case None => None
      case Some(rest) => Some([items[ids[0]]] + rest)
  }

  /** The ids of some records, in order (`[e.id for e in elements]`). */
  function IdsOf(elements: seq<FsItem>): (ids: seq<Id>)
    ensures |ids| == |elements| && forall i :: 0 <= i < |ids| ==> ids[i] == elements[i].id
  {
    seq(|elements|, i requires 0 <= i < |elements| => elements[i].id)
  }

  /** The position of the first record named `name`, if any. */
  function FirstNamed(elements: seq<FsItem>, name: string): (r: Option<nat>)
    ensures r.Some? ==> r.value < |elements| && elements[r.value].name == name
    ensures r.Some? ==> forall j :: 0 <= j < r.value ==> elements[j].name != name
    ensures r.None? <==> forall j :: 0 <= j < |elements| ==> elements[j].name != name
  {
    if elements == [] then None
    else if elements[0].name == name then Some(0)
    else
      match FirstNamed(elements[1..], name)
      case None => None
      case Some(k) => Some(k + 1)
  }

  /** True when a record listed in `ids` already carries `name`. */
  function NameTaken(items: ItemMap, ids: seq<Id>, name: string): (b: bool)
    requires forall i :: 0 <= i < |ids| ==> ids[i] in items
    ensures b <==> exists i :: 0 <= i < |ids| && items[ids[i]].name == name
  {
    FirstNamed(Resolve(items, ids).value, name).Some?
  }

  /** "/" followed by the name, for every id of a path, in order. */
  function PathString(items: ItemMap, path: seq<Id>): (s: string)
    requires forall i :: 0 <= i < |path| ==> path[i] in items
    ensures |s| >= |path|
    ensures path == [] <==> s == ""
    ensures path != [] ==> s[0] == '/'
  {
    if path == [] then ""
    else "/" + items[path[0]].name + PathString(items, path[1..])
  }

  /** The index that Python's `list.remove(x)` removes: the first occurrence. */
  function FirstIndex(s: seq<Id>, x: Id): (i: nat)
    requires x in s
    ensures i < |s| && s[i] == x && x !in s[..i]
  {
    if s[0] == x then 0
    else
      assert s[..1 + FirstIndex(s[1..], x)] == [s[0]] + s[1..][..FirstIndex(s[1..], x)];
      1 + FirstIndex(s[1..], x)
  }

  /** The listing after `list.remove(x)`. */
  function RemoveFirst(s: seq<Id>, x: Id): (r: seq<Id>)
    requires x in s
    ensures |r| == |s| - 1
  {
    s[..FirstIndex(s, x)] + s[FirstIndex(s, x) + 1..]
  }
}
