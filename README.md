# filex-fs namespace manager in Dafny

This project models the explorer of filex-fs (`explorer/manager.py`). The
explorer keeps a per-user virtual file system in a key-value store:

- every item (directory, file or link) is a record stored under
  `{user}#{id}`;
- every directory has an ordered listing of its children's ids, stored under
  `{user}#d_list-{id}`;
- the root has id `"/"`, an empty name and no parent.

An `Explorer` session holds a cursor, `current_path`: the ids from the root
down to the current directory.

The model has these parts:

- `Items` (`items.dfy`): the `FsItem` record and its dictionary form (`to_dict`
  and the constructor that reads a dictionary).
- `Keys` (`keys.dfy`): the key templates, and when one user's keys split
  cleanly into two typed maps.
- `Tree` (`tree.dfy`): the namespace as two maps, `items` and `lists`. It holds
  the well-formedness invariant and the functions that specify what the
  explorer computes:
  - the parent chain;
  - the subtree of a directory;
  - the records of a listing;
  - the first child with a name;
  - the path string;
  - Python's `list.remove`.
- `TreeFacts` (`tree_facts.dfy`): lemmas about those functions. Chains nest.
  A directory's subtree splits over its listing. Creating and deleting keep
  the namespace well formed.
- `Explorer` (`explorer.dfy`):
  - the store as a class with `get`/`add`/`delete` on records and listings;
  - the id generator as a supply of fresh ids;
  - the `Explorer` class itself, whose methods update the store and the
    cursor in place and are proved against the functions of `Tree`.
- `Scenarios` (`scenarios.dfy`): repeated construction on an empty store.

The parent walk and the recursive delete terminate only on an acyclic
namespace. The store therefore carries a ghost `rank`: every item's rank
exceeds its parent's. The parent walk decreases the rank. The delete
recursion decreases the subtree still to be removed.

## Model

| member | source | states |
|---|---|---|
| Items.TypeCode | filex-fs/explorer/manager.py:54 | the stored `i_type` is a one-letter code |
| Items.TypeOfCode | filex-fs/explorer/manager.py:54 | exactly "d", "f" and "l" read back as a type, and reading back inverts `TypeCode` |
| Items.ToDict | filex-fs/explorer/manager.py:56-63 | `to_dict` has exactly the five keys, and building an `FsItem` from it gives the same record back |
| Items.FromDict | filex-fs/explorer/manager.py:48-54 | a record built from a dictionary carries the dictionary's id, name and type code; its size and parent are None exactly when the key is missing or null |
| Items.ToDictFromDict | filex-fs/explorer/manager.py:48-63 | a five-key dictionary that reads back as a record is that record's `to_dict` (the other direction of the round trip) |
| Keys.ItemKey | filex-fs/explorer/manager.py:76 | the item key is the user, "#", then the id |
| Keys.ListKey | filex-fs/explorer/manager.py:7 | the listing key is the item key of "d_list-" followed by the id |
| Keys.ItemKeyInjective | filex-fs/explorer/manager.py:76 | for user ids without "#", item keys are equal iff user and id are |
| Keys.ListKeyInjective | filex-fs/explorer/manager.py:75 | for user ids without "#", listing keys are equal iff user and directory id are |
| Keys.ItemKeyMeetsListKey | filex-fs/explorer/manager.py:75-76 | an item key equals a listing key iff it is the same user and the item id is "d_list-" plus the directory id |
| Tree.Chain | filex-fs/explorer/manager.py:122-132 | the chain starts at "/" and ends at the item; each element's parent is the element before it; every element but the last is a shallower directory |
| Tree.Resolve | filex-fs/explorer/manager.py:104-108 | a listing resolves iff every listed id has a record, and then it gives those records in listing order |
| Tree.FirstNamed | filex-fs/explorer/manager.py:116-119 | the index found holds the name and no earlier record does; None iff no record has the name |
| Tree.NameTaken | filex-fs/explorer/manager.py:148-151 | a name is taken iff some listed child's record has it |
| Tree.PathString | filex-fs/explorer/manager.py:133-137 | the string `get_directory_parents_string` builds: one "/" and a name per path element, so it is empty iff the path is, at least as long as the path, and starts with "/" otherwise |
| Tree.FirstIndex | filex-fs/explorer/manager.py:221 | `list.remove` removes at the first occurrence: the index holds `x` and nothing before it does |
| Tree.RemoveFirst | filex-fs/explorer/manager.py:221 | removing an occurrence shortens the listing by one |
| TreeFacts.ChainPrefix | filex-fs/explorer/manager.py:122-132 | the chain of any id on a chain is a prefix of that chain |
| TreeFacts.SubtreeOfChild | filex-fs/explorer/manager.py:200-210 | a child's subtree is a strict part of its parent's, without the parent |
| TreeFacts.SiblingSubtreesDisjoint | filex-fs/explorer/manager.py:200-210 | two different children of a directory have disjoint subtrees |
| TreeFacts.SubtreeOfNonDirectory | filex-fs/explorer/manager.py:196 | nothing lies below a file or a link |
| TreeFacts.SubtreeSplitsOverListing | filex-fs/explorer/manager.py:198-210 | a directory's subtree minus the directory is the union of the subtrees of its listed children |
| TreeFacts.NextChildUntouched | filex-fs/explorer/manager.py:200-210 | the child about to be deleted shares nothing with the children deleted before it, and its subtree is strictly smaller |
| TreeFacts.RemoveFirstNoDup | filex-fs/explorer/manager.py:221 | in a listing without duplicates, `remove` drops exactly that id and keeps the rest distinct |
| TreeFacts.InsertKeepsWellFormed | filex-fs/explorer/manager.py:153-163 | creating a directory with an empty listing, or a file, under a directory keeps the namespace well formed; the new chain is the parent's chain plus the new id; every older chain is unchanged |
| TreeFacts.DeleteKeepsWellFormed | filex-fs/explorer/manager.py:192-223 | removing a non-root item's subtree, and the item's id from its parent's listing, keeps the namespace well formed; the parent survives and lists the item |
| TreeFacts.PathStringSnoc | filex-fs/explorer/manager.py:133-137 | extending the path by one id extends the string by "/" and that item's name |
| TreeFacts.PathStringAtRoot | filex-fs/explorer/manager.py:133-137 | at the root the path string is "/" |
| TreeFacts.WriteBackUnchanged | filex-fs/explorer/manager.py:109 | writing back the ids of a resolved listing reproduces the listing |
| Explorer.Store.GetItem | filex-fs/explorer/manager.py:14-23 | `get` yields the record iff the key is present |
| Explorer.Store.GetListing | filex-fs/explorer/manager.py:14-23 | `get` yields the listing iff the key is present |
| Explorer.Store.AddItem | filex-fs/explorer/manager.py:26-30 | `add` overwrites one record and nothing else |
| Explorer.Store.AddListing | filex-fs/explorer/manager.py:26-30 | `add` overwrites one listing and nothing else |
| Explorer.Store.DeleteItem | filex-fs/explorer/manager.py:33-34 | `delete` removes one record key; a missing key changes nothing |
| Explorer.Store.DeleteListing | filex-fs/explorer/manager.py:33-34 | `delete` removes one listing key; a missing key changes nothing |
| Explorer.IdSupply.Next | filex-fs/explorer/manager.py:37-38 | each generated id is the next of the supply, used up |
| Explorer.FindByName | filex-fs/explorer/manager.py:116-119 | the loop returns the first record with the name, or None when there is none |
| Explorer.ListRemove | filex-fs/explorer/manager.py:221 | the in-place `remove` loop leaves exactly `RemoveFirst` |
| Explorer.Explorer.constructor | filex-fs/explorer/manager.py:73-88 | the root record and root listing are written only when missing; the cursor is `["/"]`; on an empty or well-formed store the session is valid, and on a well-formed store nothing changes |
| Explorer.Explorer.GetCurrentDirectoryId | filex-fs/explorer/manager.py:98-99 | the current directory is the cursor's last id: the cursor is what precedes it plus that id |
| Explorer.Explorer.Target | filex-fs/explorer/manager.py:102-103 | the `directory_id=None` default of the explorer's methods: an explicit id is used as given, None means the current directory, the cursor's last id |
| Explorer.Explorer.GetDirectoryContents | filex-fs/explorer/manager.py:101-110 | returns the listing's records in order and writes back their ids; on a valid session the listing is unchanged; a listed id without a record is outside the precondition, as the source raises there |
| Explorer.Explorer.GetItemByName | filex-fs/explorer/manager.py:112-119 | the first child with exactly that name, else `ItemNotFound(name)`; the listing is written back as the ids of its records, which on a valid session leaves it unchanged |
| Explorer.Explorer.GetDirectoryParents | filex-fs/explorer/manager.py:121-131 | the walk returns the target's chain from the root |
| Explorer.Explorer.GetDirectoryParentsString | filex-fs/explorer/manager.py:133-137 | the loop builds "/" plus name over the cursor |
| Explorer.Explorer.GoToDirectory | filex-fs/explorer/manager.py:139-140 | the cursor becomes the directory's chain, so the current directory is that directory |
| Explorer.Explorer.Attach | filex-fs/explorer/manager.py:160-163 | the store writes of a create: the record, a directory's empty listing, the id appended to the parent's listing; still well formed |
| Explorer.Explorer.AddDirectory | filex-fs/explorer/manager.py:142-166 | one id is used up either way; on a name collision nothing changes and None is returned; otherwise exactly the new record, its empty listing and the appended id are added, and the cursor is recomputed iff the parent is the current directory |
| Explorer.Explorer.AddFile | filex-fs/explorer/manager.py:168-190 | on a name collision nothing changes; otherwise exactly the file record and the appended id are added, with no listing, and the cursor is recomputed iff the directory is the current directory |
| Explorer.Explorer.DeleteItem | filex-fs/explorer/manager.py:192-223 | top level: exactly the item's subtree loses records and listings, the parent's listing loses the first occurrence of the id, and the namespace stays well formed; recursive: the subtree below the item and the item's listing go, the item's record stays |
| Explorer.Explorer.DeleteChildren | filex-fs/explorer/manager.py:200-210 | the loop removes every record and listing strictly below the directory |
| Explorer.Explorer.DeleteChild | filex-fs/explorer/manager.py:201-209 | one turn removes exactly the child's subtree; the repeated listing delete is harmless |
| Scenarios.RepeatedConstruction | filex-fs/tests/test_manager.py:54-60 | three explorers on an empty store leave exactly the root record and an empty root listing |

## Left out

- The Redis client and JSON encoding are left out. The store is two typed
  maps with `get`, `add` and `delete`. Ids that begin with "d_list-" are
  assumed not to occur: `Keys.ItemKeyMeetsListKey` shows that such an item
  key would be the listing key of another directory in the real store.
- `uuid()` is the supply `IdSupply` of fresh ids. Its time-based
  generation and truncation to eight characters are not modelled.
  Explorer.Explorer.AddDirectory requires that the next id has no record
  yet.
- Logging and `summary()` are left out. `summary()` only formats text.
- The command-line wrapper `cli.py` and the web scaffold `main.py` are not
  part of this model.
- Concurrency is left out. The source has no locking, and the model is
  sequential.
- Items.FromDict fails on dictionaries from which Python still builds a
  record: a missing or non-string id, name or type (Python keeps None or
  the value as it is), an `i_type` other than "d", "f" or "l" (Python keeps
  any string), a numeric parent or a string size (Python keeps the value).
  The model's record cannot hold those values.
- Explorer.Explorer.AddFile requires a file id that has no record yet. With
  a used id, the source would overwrite that record and list the id a
  second time.
- Explorer.Explorer.DeleteItem does not state in its ensures that the cursor
  is unchanged. Its frame (`modifies store`) keeps the cursor anyway.
  `DeleteItem` takes the namespace as found at the top-level call as two
  ghost parameters. It states the well-formedness of the result rather than
  `Valid()`.
- Explorer.Explorer.DeleteItem excludes deleting "/" by its precondition.
  The source removes the whole tree and then fails looking up the listing
  of a missing parent.
- Explorer.Explorer.DeleteItem requires the item to exist and the namespace
  to be well formed (acyclic, consistent listings). On a missing id the
  source raises at the type test of the record it did not find.
- Explorer.Explorer.GetDirectoryContents requires the listing to exist and
  every listed id to have a record. The source raises on a missing listing
  (iterating None) and on a listed id without a record (reading `id` of
  None when writing the listing back); it never drops such ids.
- Explorer.Explorer.GetItemByName has the same preconditions, for the
  same reason: it reads the listing through `get_directory_contents`.
- Explorer.Explorer.GetDirectoryParents requires a record for the target id.
  The source raises reading the parent of a missing record. The model
  excludes this case by that precondition.
- Explorer.Explorer.GoToDirectory requires a record for the target id, as
  it walks the parents; the source raises otherwise.
- Explorer.Explorer.GetDirectoryParentsString requires a record for every
  id of the cursor. The source raises reading the name of a missing record.
  A cursor can name deleted directories: `delete_item` leaves the cursor as
  it was, so after deleting the current directory or one of its ancestors
  these three calls raise in the source and are outside their
  preconditions here.
- Explorer.Explorer.AddDirectory and Explorer.Explorer.AddFile require the
  target's listing to exist. The source fails iterating a missing listing.
- The loop of `delete_item` is the method `DeleteChildren`, and its body is
  `DeleteChild`. They are mutually recursive with `DeleteItem`.
