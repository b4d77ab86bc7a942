/**
 * Facts about the namespace specification: how chains nest, how a
 * directory's subtree splits over its listing, and that creating and
 * deleting items keep the namespace well formed.
 */
module TreeFacts {
  import opened Wrappers
  import opened Items
  import opened Tree

  /** The chain of an id on `y`'s chain is a prefix of `y`'s chain. */
  lemma {:induction false} ChainPrefix(items: ItemMap, rank: Rank, x: Id, y: Id)
    requires ParentLinks(items, rank) && x in items && y in items
    requires x in Chain(items, rank, y)
    ensures |Chain(items, rank, x)| <= |Chain(items, rank, y)|
    ensures Chain(items, rank, x) == Chain(items, rank, y)[..|Chain(items, rank, x)|]
    decreases rank[y]
  {
    if x != y {
      var p := items[y].directoryId.value;
      var cp, cy := Chain(items, rank, p), Chain(items, rank, y);
      assert cy == cp + [y];
      assert x in cp;
      ChainPrefix(items, rank, x, p);
      var n := |Chain(items, rank, x)|;
      assert cy[..n] == cp[..n];
    }
  }

  /** An id on `y`'s chain other than `y` itself is strictly shallower. */
  lemma OnChainIsShallower(items: ItemMap, rank: Rank, x: Id, y: Id)
    requires ParentLinks(items, rank) && y in items
    requires x in Chain(items, rank, y) && x != y
    ensures x in items && rank[x] < rank[y]
  {
    var c := Chain(items, rank, y);
    var i :| 0 <= i < |c| && c[i] == x;
  }

  /** The subtree of a child lies inside its parent's and misses the parent. */
  lemma SubtreeOfChild(items: ItemMap, rank: Rank, d: Id, c: Id)
    requires ParentLinks(items, rank) && c in items && items[c].directoryId == Some(d)
    ensures Subtree(items, rank, c) <= Subtree(items, rank, d)
    ensures d in items && d !in Subtree(items, rank, c)
    ensures Subtree(items, rank, c) < Subtree(items, rank, d)
  {
    assert Chain(items, rank, c) == Chain(items, rank, d) + [c];
    forall x | x in Subtree(items, rank, c) ensures x in Subtree(items, rank, d) {
      ChainPrefix(items, rank, c, x);
      assert Chain(items, rank, c)[|Chain(items, rank, c)| - 2] == d;
    }
    if d in Subtree(items, rank, c) {
      OnChainIsShallower(items, rank, c, d);
    }
  }

  /** Two distinct children of one directory have disjoint subtrees. */
  lemma SiblingSubtreesDisjoint(items: ItemMap, rank: Rank, d: Id, c1: Id, c2: Id)
    requires ParentLinks(items, rank) && c1 in items && c2 in items && c1 != c2
    requires items[c1].directoryId == Some(d) && items[c2].directoryId == Some(d)
    ensures Subtree(items, rank, c1) !! Subtree(items, rank, c2)
  {
    var ch1 := Chain(items, rank, c1);
    var ch2 := Chain(items, rank, c2);
    assert ch1 == Chain(items, rank, d) + [c1];
    assert ch2 == Chain(items, rank, d) + [c2];
    forall x | x in Subtree(items, rank, c1) && x in Subtree(items, rank, c2)
      ensures false
    {
      ChainPrefix(items, rank, c1, x);
      ChainPrefix(items, rank, c2, x);
    }
  }

  /** Nothing lies below an item that is not a directory. */
  lemma SubtreeOfNonDirectory(items: ItemMap, rank: Rank, f: Id)
    requires ParentLinks(items, rank) && f in items && items[f].iType != Directory
    ensures Subtree(items, rank, f) == {f}
  {
    forall x | x in Subtree(items, rank, f) ensures x == f {
      var c := Chain(items, rank, x);
      var i :| 0 <= i < |c| && c[i] == f;
    }
  }

  /** Every subtree named in a listing is part of the listing's union. */
  lemma {:induction false} InSubtreesOf(items: ItemMap, rank: Rank, ids: seq<Id>, k: nat)
    requires ParentLinks(items, rank) && k < |ids|
    ensures Subtree(items, rank, ids[k]) <= SubtreesOf(items, rank, ids)
  {
    if k < |ids| - 1 {
      InSubtreesOf(items, rank, ids[..|ids| - 1], k);
    }
  }

  /** Every member of the union lies in the subtree of some listed id. */
  lemma {:induction false} FromSubtreesOf(items: ItemMap, rank: Rank, ids: seq<Id>, x: Id)
    requires ParentLinks(items, rank) && x in SubtreesOf(items, rank, ids)
    ensures exists k :: 0 <= k < |ids| && x in Subtree(items, rank, ids[k])
  {
    var init := ids[..|ids| - 1];
    if x !in Subtree(items, rank, ids[|ids| - 1]) {
      FromSubtreesOf(items, rank, init, x);
      var k :| 0 <= k < |init| && x in Subtree(items, rank, init[k]);
      assert ids[k] == init[k];
    }
  }

  /** Growing a prefix of a listing by one id adds that id's subtree. */
  lemma SubtreesOfPrefix(items: ItemMap, rank: Rank, ids: seq<Id>, k: nat)
    requires ParentLinks(items, rank) && k < |ids|
    ensures SubtreesOf(items, rank, ids[..k + 1])
         == SubtreesOf(items, rank, ids[..k]) + Subtree(items, rank, ids[k])
  {
    assert ids[..k + 1][..k] == ids[..k];
  }

  /** What lies below a listed child lies below the directory, never at it. */
  lemma {:induction false} ListedSubtreesBelow(items: ItemMap, rank: Rank, d: Id, ids: seq<Id>)
    requires ParentLinks(items, rank)
    requires forall i :: 0 <= i < |ids| ==> ids[i] in items && items[ids[i]].directoryId == Some(d)
    ensures SubtreesOf(items, rank, ids) <= Subtree(items, rank, d) - {d}
  {
    if ids != [] {
      var init, last := ids[..|ids| - 1], ids[|ids| - 1];
      ListedSubtreesBelow(items, rank, d, init);
      SubtreeOfChild(items, rank, d, last);
    }
  }

  /** What lies strictly below a directory lies below one of its listed children. */
  lemma BelowInListedSubtrees(items: ItemMap, lists: ListMap, rank: Rank, d: Id)
    requires ParentLinks(items, rank) && Listings(items, lists) && d in lists
    ensures Subtree(items, rank, d) - {d} <= SubtreesOf(items, rank, lists[d])
  {
    var ids := lists[d];
    forall x | x in Subtree(items, rank, d) - {d} ensures x in SubtreesOf(items, rank, ids) {
      var c := Chain(items, rank, x);
      var i :| 0 <= i < |c| && c[i] == d;
      var child := c[i + 1];
      assert items[child].directoryId == Some(d);
      var k :| 0 <= k < |ids| && ids[k] == child;
      ChainPrefix(items, rank, child, x) by {
        assert c[i + 1] in c;
      }
      InSubtreesOf(items, rank, ids, k);
    }
  }

  /**
   * A directory's subtree is the directory plus the subtrees of the ids in
   * its listing; the directory itself is in none of those.
   */
  lemma SubtreeSplitsOverListing(items: ItemMap, lists: ListMap, rank: Rank, d: Id)
    requires WellFormed(items, lists, rank) && d in lists
    ensures SubtreesOf(items, rank, lists[d]) == Subtree(items, rank, d) - {d}
  {
    ListedSubtreesBelow(items, rank, d, lists[d]);
    BelowInListedSubtrees(items, lists, rank, d);
  }

  /**
   * While a directory's listing is walked in order, the subtree of the next
   * child is untouched by the subtrees of the children before it.
   */
  lemma NextChildUntouched(items: ItemMap, rank: Rank, d: Id, ids: seq<Id>, k: nat)
    requires ParentLinks(items, rank) && ChildrenOf(items, ids, d) && k < |ids|
    ensures Subtree(items, rank, ids[k]) !! SubtreesOf(items, rank, ids[..k])
    ensures Subtree(items, rank, ids[k]) < Subtree(items, rank, d)
    ensures d !in Subtree(items, rank, ids[k])
  {
    forall x | x in SubtreesOf(items, rank, ids[..k]) && x in Subtree(items, rank, ids[k])
      ensures false
    {
      FromSubtreesOf(items, rank, ids[..k], x);
      var j :| 0 <= j < k && x in Subtree(items, rank, ids[..k][j]);
      SiblingSubtreesDisjoint(items, rank, d, ids[j], ids[k]);
    }
    SubtreeOfChild(items, rank, d, ids[k]);
  }

  /** The first removed occurrence is the only one when the listing has no duplicates. */
  lemma RemoveFirstNoDup(s: seq<Id>, x: Id)
    requires x in s && NoDup(s)
    ensures NoDup(RemoveFirst(s, x))
    ensures forall y :: y in RemoveFirst(s, x) <==> y in s && y != x
  {
    var i := FirstIndex(s, x);
    var r := RemoveFirst(s, x);
    forall y | y in r ensures y in s && y != x {
      var j :| 0 <= j < |r| && r[j] == y;
      if j < i { assert r[j] == s[j]; } else { assert r[j] == s[j + 1]; }
    }
    forall y | y in s && y != x ensures y in r {
      var j :| 0 <= j < |s| && s[j] == y;
      if j < i { assert r[j] == s[j]; } else { assert r[j - 1] == s[j]; }
    }
  }

  /** Adding a record below an existing directory keeps the parent links sound. */
  lemma InsertKeepsParentLinks(items: ItemMap, rank: Rank, it: FsItem, items': ItemMap, rank': Rank)
    requires ParentLinks(items, rank) && it.id !in items && it.id != RootId
    requires it.directoryId.Some? && it.directoryId.value in items
    requires items[it.directoryId.value].iType == Directory
    requires items' == items[it.id := it] && rank' == rank[it.id := rank[it.directoryId.value] + 1]
    ensures ParentLinks(items', rank')
  {
  }

  /** Adding a record leaves the chain of every earlier record as it was. */
  lemma {:induction false} ChainAfterInsert(items: ItemMap, rank: Rank, it: FsItem, items': ItemMap, rank': Rank, x: Id)
    requires ParentLinks(items, rank) && it.id !in items && it.id != RootId
    requires it.directoryId.Some? && it.directoryId.value in items
    requires items[it.directoryId.value].iType == Directory
    requires items' == items[it.id := it] && rank' == rank[it.id := rank[it.directoryId.value] + 1]
    requires x in items
    ensures ParentLinks(items', rank') && Chain(items', rank', x) == Chain(items, rank, x)
    decreases rank[x]
  {
    InsertKeepsParentLinks(items, rank, it, items', rank');
    if items[x].directoryId.Some? {
      ChainAfterInsert(items, rank, it, items', rank', items[x].directoryId.value);
    }
  }

  /** Appending a fresh child keeps a listing a listing of distinct children. */
  lemma AppendChild(items: ItemMap, ids: seq<Id>, d: Id, it: FsItem)
    requires ChildrenOf(items, ids, d) && it.id !in items && it.directoryId == Some(d)
    ensures ChildrenOf(items[it.id := it], ids + [it.id], d)
  {
    var items' := items[it.id := it];
    var ids' := ids + [it.id];
    forall i | 0 <= i < |ids'| ensures ids'[i] in items' && items'[ids'[i]].directoryId == Some(d) {
      if i < |ids| { assert ids'[i] == ids[i]; }
    }
  }

  /** Adding a record and its listing entry keeps the listings consistent. */
  lemma InsertKeepsListings(items: ItemMap, lists: ListMap, it: FsItem, items': ItemMap, lists': ListMap)
    requires Listings(items, lists)
    requires it.id !in items && it.iType != Link
    requires it.directoryId.Some? && it.directoryId.value in lists
    requires items' == items[it.id := it]
    requires lists' == (if it.iType == Directory then lists[it.id := []] else lists)
                         [it.directoryId.value := lists[it.directoryId.value] + [it.id]]
    ensures Listings(items', lists')
  {
    var p := it.directoryId.value;
    assert it.id !in lists;
    AppendChild(items, lists[p], p, it);
    forall d | d in lists' ensures d in items' && items'[d].iType == Directory && ChildrenOf(items', lists'[d], d) {
      if d != p && d != it.id {
        var ids := lists[d];
        assert forall i :: 0 <= i < |ids| ==> ids[i] in items;
      }
    }
    forall x | x in items' && items'[x].directoryId.Some?
      ensures items'[x].directoryId.value in lists' && x in lists'[items'[x].directoryId.value]
    {
      if x != it.id {
        var q := items[x].directoryId.value;
        assert x in lists[q];
        if q == p {
          assert lists'[p] == lists[p] + [it.id];
        }
      } else {
        assert lists'[p][|lists[p]|] == it.id;
      }
    }
  }

  /**
   * Creating a directory (with an empty listing) or a file below an existing
   * directory, appending its fresh id to that directory's listing, keeps the
   * namespace well formed; the new item's chain is its parent's plus itself,
   * and every other chain is unchanged.
   */
  lemma InsertKeepsWellFormed(items: ItemMap, lists: ListMap, rank: Rank, it: FsItem,
                              items': ItemMap, lists': ListMap, rank': Rank)
    requires WellFormed(items, lists, rank)
    requires it.id !in items && it.iType != Link
    requires it.directoryId.Some? && it.directoryId.value in lists
    requires items' == items[it.id := it]
    requires lists' == (if it.iType == Directory then lists[it.id := []] else lists)
                         [it.directoryId.value := lists[it.directoryId.value] + [it.id]]
    requires rank' == rank[it.id := rank[it.directoryId.value] + 1]
    ensures WellFormed(items', lists', rank')
    ensures Chain(items', rank', it.id) == Chain(items, rank, it.directoryId.value) + [it.id]
    ensures forall x :: x in items ==> Chain(items', rank', x) == Chain(items, rank, x)
  {
    var p := it.directoryId.value;
    InsertKeepsParentLinks(items, rank, it, items', rank');
    InsertKeepsListings(items, lists, it, items', lists');
    assert RootId in items' && items'[RootId] == RootItem;
    assert forall x :: x in items' ==> items'[x].id == x;
    forall x | x in items ensures Chain(items', rank', x) == Chain(items, rank, x) {
      ChainAfterInsert(items, rank, it, items', rank', x);
    }
    assert Chain(items', rank', it.id) == Chain(items', rank', p) + [it.id];
  }

  /** Every child of an item below `d` is below `d` too. */
  lemma SubtreeClosedDownward(items: ItemMap, rank: Rank, d: Id, x: Id)
    requires ParentLinks(items, rank) && x in items && items[x].directoryId.Some?
    requires items[x].directoryId.value in Subtree(items, rank, d)
    ensures x in Subtree(items, rank, d)
  {
    assert Chain(items, rank, x) == Chain(items, rank, items[x].directoryId.value) + [x];
  }

  /** Removing a subtree keeps the parent links of what survives sound. */
  lemma DeleteKeepsParentLinks(items: ItemMap, rank: Rank, d: Id, items': ItemMap)
    requires ParentLinks(items, rank) && items' == items - Subtree(items, rank, d)
    ensures ParentLinks(items', rank)
  {
    forall x | x in items' && items'[x].directoryId.Some?
      ensures items'[x].directoryId.value in items'
    {
      if items[x].directoryId.value in Subtree(items, rank, d) {
        SubtreeClosedDownward(items, rank, d, x);
      }
    }
  }

  /** After removing a subtree, every remaining listing names surviving children only. */
  lemma DeleteKeepsChildLists(items: ItemMap, lists: ListMap, rank: Rank, d: Id, p: Id, s: set<Id>,
                              items': ItemMap, lists': ListMap)
    requires ParentLinks(items, rank) && Listings(items, lists)
    requires d in items && items[d].directoryId == Some(p) && s == Subtree(items, rank, d) && p !in s
    requires items' == items - s && lists' == (lists - s)[p := RemoveFirst(lists[p], d)]
    ensures forall o :: o in lists' ==> o in items' && items'[o].iType == Directory && ChildrenOf(items', lists'[o], o)
  {
    RemoveFirstNoDup(lists[p], d);
    forall o | o in lists' ensures o in items' && items'[o].iType == Directory && ChildrenOf(items', lists'[o], o) {
      var ids := lists'[o];
      forall i | 0 <= i < |ids| ensures ids[i] in items' && items'[ids[i]].directoryId == Some(o) {
        var c := ids[i];
        assert c in lists[o];
        assert items[c].directoryId == Some(o);
        if c in s {
          SubtreeClosedDownward(items, rank, d, c);
        }
      }
    }
  }

  /** After removing a subtree, every surviving item is still listed by its parent. */
  lemma DeleteKeepsListed(items: ItemMap, lists: ListMap, rank: Rank, d: Id, p: Id, s: set<Id>,
                          items': ItemMap, lists': ListMap)
    requires ParentLinks(items, rank) && Listings(items, lists)
    requires d in items && items[d].directoryId == Some(p) && s == Subtree(items, rank, d) && p !in s
    requires items' == items - s && lists' == (lists - s)[p := RemoveFirst(lists[p], d)]
    ensures forall x :: x in items' && items'[x].directoryId.Some? ==>
              items'[x].directoryId.value in lists' && x in lists'[items'[x].directoryId.value]
  {
    RemoveFirstNoDup(lists[p], d);
    forall x | x in items' && items'[x].directoryId.Some?
      ensures items'[x].directoryId.value in lists' && x in lists'[items'[x].directoryId.value]
    {
      var q := items[x].directoryId.value;
      if q in s {
        SubtreeClosedDownward(items, rank, d, x);
      }
      assert x in lists[q];
    }
  }

  /** Removing a subtree, and the subtree's root from its parent's listing, keeps the listings sound. */
  lemma DeleteKeepsListings(items: ItemMap, lists: ListMap, rank: Rank, d: Id, p: Id,
                            items': ItemMap, lists': ListMap)
    requires ParentLinks(items, rank) && Listings(items, lists)
    requires d in items && items[d].directoryId == Some(p) && p !in Subtree(items, rank, d)
    requires items' == items - Subtree(items, rank, d)
    requires lists' == (lists - Subtree(items, rank, d))[p := RemoveFirst(lists[p], d)]
    ensures Listings(items', lists')
  {
    var s := Subtree(items, rank, d);
    DeleteKeepsChildLists(items, lists, rank, d, p, s, items', lists');
    DeleteKeepsListed(items, lists, rank, d, p, s, items', lists');
  }

  /**
   * Removing a non-root item's subtree from the records and the listings,
   * and its id from its parent's listing, keeps the namespace well formed.
   */
  lemma DeleteKeepsWellFormed(items: ItemMap, lists: ListMap, rank: Rank, d: Id)
    requires WellFormed(items, lists, rank) && d in items && d != RootId
    ensures var p := items[d].directoryId.value;
      && p in lists && d in lists[p] && p !in Subtree(items, rank, d)
      && WellFormed(items - Subtree(items, rank, d),
                    (lists - Subtree(items, rank, d))[p := RemoveFirst(lists[p], d)], rank)
  {
    var s := Subtree(items, rank, d);
    var p := items[d].directoryId.value;
    if p in s {
      OnChainIsShallower(items, rank, d, p);
    }
    assert RootId !in s by {
      assert Chain(items, rank, RootId) == [RootId];
    }
    DeleteKeepsParentLinks(items, rank, d, items - s);
    DeleteKeepsListings(items, lists, rank, d, p, items - s, (lists - s)[p := RemoveFirst(lists[p], d)]);
  }

  /** Appending an id to a path appends "/" and that item's name to its string. */
  lemma {:induction false} PathStringSnoc(items: ItemMap, path: seq<Id>, x: Id)
    requires forall i :: 0 <= i < |path| ==> path[i] in items
    requires x in items
    ensures PathString(items, path + [x]) == PathString(items, path) + "/" + items[x].name
  {
    if path != [] {
      assert (path + [x])[1..] == path[1..] + [x];
      PathStringSnoc(items, path[1..], x);
    } else {
      assert PathString(items, [x][1..]) == "";
    }
  }

  /** At the root the path string is "/". */
  lemma PathStringAtRoot(items: ItemMap, lists: ListMap, rank: Rank)
    requires WellFormed(items, lists, rank)
    ensures PathString(items, [RootId]) == "/"
  {
    assert PathString(items, [RootId][1..]) == "";
  }

  /**
   * Writing back the ids of a resolved listing reproduces the listing when
   * every record is stored under its own id.
   */
  lemma WriteBackUnchanged(items: ItemMap, ids: seq<Id>)
    requires forall x :: x in items ==> items[x].id == x
    requires Resolve(items, ids).Some?
    ensures IdsOf(Resolve(items, ids).value) == ids
  {
  }

  /** A name is taken in a listing exactly when one of its records has it. */
  lemma NameTakenResolved(items: ItemMap, ids: seq<Id>, name: string)
    requires Resolve(items, ids).Some?
    ensures NameTaken(items, ids, name) <==> FirstNamed(Resolve(items, ids).value, name).Some?
  {
  }

  /** Every id in a listing of a well-formed namespace has a record. */
  lemma ListingResolves(items: ItemMap, lists: ListMap, rank: Rank, d: Id)
    requires WellFormed(items, lists, rank) && d in lists
    ensures Resolve(items, lists[d]).Some?
  {
  }
}
