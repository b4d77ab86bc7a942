/**
 * Key layout of the record store: an item is stored under "{user}#{id}" and
 * a directory's listing under "{user}#d_list-{id}". The rest of the model
 * keeps one user's items and listings in two typed maps; the lemmas here say
 * when that split loses nothing.
 */
module Keys {

  const ListPrefix: string := "d_list-"

  /** The key of an item record (`ITEM_ID.format(id)`). */
  function ItemKey(user: string, id: string): (k: string)
    ensures |k| == |user| + 1 + |id| && k[|user|] == '#'
  {
    user + "#" + id
  }

  /** The key of a directory listing (`DIRECTORY_LIST.format(id)`). */
  function ListKey(user: string, id: string): (k: string)
    ensures k == ItemKey(user, ListPrefix + id)
  {
    user + "#" + ListPrefix + id
  }

  /** A user id that cannot be confused with the separator. */
  predicate PlainUser(user: string)
  {
    '#' !in user
  }

  /** The position of the first '#' in a key, or its length if there is none. */
  function FirstHash(k: string): (i: nat)
    ensures i <= |k|
    ensures i < |k| ==> k[i] == '#'
    ensures '#' !in k[..i]
  {
    if |k| == 0 then 0
    else if k[0] == '#' then 0
    else
      assert k[..1 + FirstHash(k[1..])] == [k[0]] + k[1..][..FirstHash(k[1..])];
      1 + FirstHash(k[1..])
  }

  /** The separator after a plain user id is the key's first '#'. */
  lemma {:induction false} FirstHashOfKey(user: string, rest: string)
    requires PlainUser(user)
    ensures FirstHash(user + "#" + rest) == |user|
  {
    if user != [] {
      assert (user + "#" + rest)[1..] == user[1..] + "#" + rest;
      FirstHashOfKey(user[1..], rest);
    }
  }

  /** Splitting at the first '#' recovers the user and the rest. */
  lemma SplitAtFirstHash(u1: string, a: string, u2: string, b: string)
    requires PlainUser(u1) && PlainUser(u2)
    requires u1 + "#" + a == u2 + "#" + b
    ensures u1 == u2 && a == b
  {
    var k := u1 + "#" + a;
    FirstHashOfKey(u1, a);
    FirstHashOfKey(u2, b);
    assert u1 == k[..|u1|] == u2;
    assert a == k[|u1| + 1..] == b;
  }

  /** Item keys of plain users never collide across users or ids. */
  lemma ItemKeyInjective(u1: string, a: string, u2: string, b: string)
    requires PlainUser(u1) && PlainUser(u2)
    ensures ItemKey(u1, a) == ItemKey(u2, b) <==> u1 == u2 && a == b
  {
    if ItemKey(u1, a) == ItemKey(u2, b) {
      SplitAtFirstHash(u1, a, u2, b);
    }
  }

  /** Listing keys of plain users never collide across users or ids. */
  lemma ListKeyInjective(u1: string, a: string, u2: string, b: string)
    requires PlainUser(u1) && PlainUser(u2)
    ensures ListKey(u1, a) == ListKey(u2, b) <==> u1 == u2 && a == b
  {
    if ListKey(u1, a) == ListKey(u2, b) {
      SplitAtFirstHash(u1, ListPrefix + a, u2, ListPrefix + b);
      assert a == (ListPrefix + a)[|ListPrefix|..];
      assert b == (ListPrefix + b)[|ListPrefix|..];
    }
  }

  /**
   * An item key coincides with a listing key exactly when the item's id is
   * "d_list-" followed by the listed directory's id, so two typed maps model
   * one user's store faithfully for ids that do not start with "d_list-".
   */
  lemma ItemKeyMeetsListKey(u1: string, a: string, u2: string, b: string)
    requires PlainUser(u1) && PlainUser(u2)
    ensures ItemKey(u1, a) == ListKey(u2, b) <==> u1 == u2 && a == ListPrefix + b
  {
    ItemKeyInjective(u1, a, u2, ListPrefix + b);
  }
}
