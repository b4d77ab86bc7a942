/**
 * The item record of the namespace (`FsItem`) and its dictionary form
 * (`to_dict`, and the constructor that reads such a dictionary back).
 */
module Items {
  import opened Wrappers

  /** Item ids are opaque strings; the root's id is "/". */
  type Id = string

  const RootId: Id := "/"

  /** The `i_type` attribute: "d" (directory), "f" (file) or "l" (link). */
  datatype ItemType = Directory | File | Link

  /** One entry of a user's namespace. */
  datatype FsItem = FsItem(
    id: Id,
    name: string,
    directoryId: Option<Id>,   // the containing directory; None only for the root
    size: Option<int>,         // set for files, None for directories
    iType: ItemType
  )

  /** The record the constructor of `Explorer` writes for the root. */
  const RootItem: FsItem := FsItem(RootId, "", None, None, Directory)

  /** A value of the dictionary that `to_dict` produces (a JSON scalar). */
  datatype Field = Str(s: string) | Num(n: int) | Null

  /** The five keys of the dictionary form of an item. */
  const ItemKeys: set<string> := {"id", "name", "directory_id", "size", "i_type"}

  /** The one-letter code stored under "i_type". */
  function TypeCode(t: ItemType): (code: string)
    ensures |code| == 1
  {
    match t
    case Directory => "d"
    case File => "f"
    case Link => "l"
  }

  /** Reads an "i_type" code back; anything but "d", "f", "l" is not a type. */
  function TypeOfCode(code: string): (t: Option<ItemType>)
    ensures t.Some? <==> code in {"d", "f", "l"}
    ensures t.Some? ==> TypeCode(t.value) == code
  {
    if code == "d" then Some(Directory)
    else if code == "f" then Some(File)
    else if code == "l" then Some(Link)
    else None
  }

  /** `dict.get(key)`: a missing key reads as None (JSON null). */
  function Lookup(d: map<string, Field>, key: string): (f: Field)
  {
    if key in d then d[key] else Null
  }

  /** `FsItem.to_dict`: the record as a dictionary with exactly five keys. */
  function ToDict(item: FsItem): (d: map<string, Field>)
    ensures d.Keys == ItemKeys
    ensures FromDict(d) == Some(item)
  {
    map[
      "id" := Str(item.id),
      "name" := Str(item.name),
      "directory_id" := (match item.directoryId case Some(p) => Str(p) case None => Null),
      "size" := (match item.size case Some(n) => Num(n) case None => Null),
      "i_type" := Str(TypeCode(item.iType))
    ]
  }

  /**
   * `FsItem(data)`: builds a record from a dictionary, reading each of the
   * five keys with `get`. Fails where the record type cannot hold what it
   * reads: a missing or non-string id, name or type, a type code other than
   * "d", "f" or "l", a numeric parent or a string size.
   */
  function FromDict(d: map<string, Field>): (r: Option<FsItem>)
    ensures r.Some? ==> Lookup(d, "id") == Str(r.value.id) && Lookup(d, "name") == Str(r.value.name)
    ensures r.Some? ==> Lookup(d, "i_type") == Str(TypeCode(r.value.iType))
    ensures r.Some? ==> (r.value.size.None? <==> Lookup(d, "size") == Null)
    ensures r.Some? ==> (r.value.directoryId.None? <==> Lookup(d, "directory_id") == Null)
  {
    match (Lookup(d, "id"), Lookup(d, "name"), Lookup(d, "directory_id"), Lookup(d, "size"), Lookup(d, "i_type"))
    case (Str(id), Str(name), parent, size, Str(code)) =>
      var t := TypeOfCode(code);
      if t.None? || parent.Num? || size.Str? then None
      else
        Some(FsItem(id, name,
                    if parent.Str? then Some(parent.s) else None,
                    if size.Num? then Some(size.n) else None,
                    t.value))
    case _ => None
  }

  /** A dictionary with exactly the five keys that reads back as a record is that record's `to_dict`. */
  lemma ToDictFromDict(d: map<string, Field>)
    requires d.Keys == ItemKeys && FromDict(d).Some?
    ensures ToDict(FromDict(d).value) == d
  {
    var r := ToDict(FromDict(d).value);
    forall k | k in ItemKeys ensures r[k] == d[k] {
      assert Lookup(d, k) == d[k];
    }
  }
}
