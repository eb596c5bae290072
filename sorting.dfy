/**
 * The folder list's ordering: the sort keys behind the column headers, the
 * toggle between ascending and descending, and the comparator passed to
 * `items.sort`. `localeCompare` is an abstract collation.
 */
module Sorting {
  import opened Common

  datatype SortKey = Name | Size | MTime
  datatype Direction = Asc | Desc

  /** `sortConfig`; its `key` is `null` when `getSortKeyById` found none. */
  datatype SortConfig = SortConfig(key: Option<SortKey>, direction: Direction)

  const InitialSortConfig := SortConfig(Some(Name), Asc)

  /** The column headers' element ids to sort keys. */
  function GetSortKeyById(id: string): (r: Option<SortKey>)
    ensures r == Some(Name) <==> id == "sortName"
    ensures r == Some(Size) <==> id == "sortSize"
    ensures r == Some(MTime) <==> id == "sortTime"
    ensures r.None? <==> id !in {"sortName", "sortSize", "sortTime"}
  {
    if id == "sortName" then Some(Name)
    else if id == "sortSize" then Some(Size)
    else if id == "sortTime" then Some(MTime)
    else None
  }

  function Flip(d: Direction): Direction {
    if d == Asc then Desc else Asc
  }

  /** A click on the header of `key`: the same key flips the direction, another key sorts ascending by it. */
  function NextSortConfig(c: SortConfig, key: Option<SortKey>): SortConfig {
    if c.key == key then c.(direction := Flip(c.direction)) else SortConfig(key, Asc)
  }

  /** A click always leaves `key` selected; it flips the direction exactly when `key` was already selected. */
  lemma NextSortConfigSelects(c: SortConfig, key: Option<SortKey>)
    ensures NextSortConfig(c, key).key == key
    ensures c.key == key ==> NextSortConfig(c, key).direction != c.direction
    ensures c.key != key ==> NextSortConfig(c, key).direction == Asc
  {
  }

  /** Two clicks on the selected key restore the configuration. */
  lemma ClickTwiceRestores(c: SortConfig, key: Option<SortKey>)
    requires c.key == key
    ensures NextSortConfig(NextSortConfig(c, key), key) == c
  {
  }

  /** A click on a new key and then on it again sorts descending by it. */
  lemma NewKeyThenAgainIsDesc(c: SortConfig, key: Option<SortKey>)
    requires c.key != key
    ensures NextSortConfig(NextSortConfig(c, key), key) == SortConfig(key, Desc)
  {
  }

  // ---------------------------------------------------------------------
  // The comparator

  datatype ItemType = Folder | File

  /** An entry of the folder list; `size` is in bytes and `mtime` in milliseconds. */
  datatype Item = Item(kind: ItemType, name: string, path: string, size: int, mtime: int)

  /** `localeCompare`: negative, zero or positive as `a` sorts before, with or after `b`. */
  type Collation = (string, string) -> int

  /** `valA - valB` for the numeric keys. */
  function NumericKey(key: SortKey, item: Item): int
    requires key != Name
  {
    if key == Size then item.size else item.mtime
  }

  /** The comparator of `renderFolderList` under a configuration whose key is set. */
  function Compare(collate: Collation, key: SortKey, direction: Direction, a: Item, b: Item): int {
    if a.kind != b.kind then (if a.kind == Folder then -1 else 1)
    else if key == Name then
      (if direction == Asc then collate(a.name, b.name) else collate(b.name, a.name))
    else
      (if direction == Asc then NumericKey(key, a) - NumericKey(key, b) else NumericKey(key, b) - NumericKey(key, a))
  }

  /** A folder sorts before a file in both directions. */
  lemma FoldersFirst(collate: Collation, key: SortKey, direction: Direction, folder: Item, file: Item)
    requires folder.kind == Folder && file.kind == File
    ensures Compare(collate, key, direction, folder, file) < 0
    ensures Compare(collate, key, direction, file, folder) > 0
  {
  }

  /** Within one type, descending is ascending with the two items exchanged. */
  lemma DescendingReversesAscending(collate: Collation, key: SortKey, a: Item, b: Item)
    requires a.kind == b.kind
    ensures Compare(collate, key, Desc, a, b) == Compare(collate, key, Asc, b, a)
    ensures key != Name ==> Compare(collate, key, Desc, a, b) == -Compare(collate, key, Asc, a, b)
  {
  }

  predicate Sign(x: int, y: int) {
    (x < 0 <==> y > 0) && (x == 0 <==> y == 0)
  }

  /**
   * With an antisymmetric collation the comparator is antisymmetric too, as
   * `Array.prototype.sort` expects: exchanging the items flips the sign of
   * the answer, in both directions and for every key.
   */
  lemma CompareAntisymmetric(collate: Collation, key: SortKey, direction: Direction, a: Item, b: Item)
    requires forall x, y :: Sign(collate(x, y), collate(y, x))
    ensures Sign(Compare(collate, key, direction, a, b), Compare(collate, key, direction, b, a))
  {
    if a.kind == b.kind && key == Name {
      assert Sign(collate(a.name, b.name), collate(b.name, a.name));
      assert Sign(collate(b.name, a.name), collate(a.name, b.name));
    }
  }
}
