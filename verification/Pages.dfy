/** The pages of a database file, as structured values. */
module Pages {

  // The largest key: keys are unsigned 32-bit integers.
  const TOP: int := 0xFFFF_FFFF

  // One byte of text or of a row, written as the character with that code.
  type Byte = c: char | c as int < 0x100 witness 'a'

  type Text = seq<Byte>

  // A serialized row.
  type Row = seq<Byte>

  datatype Option<+T> = None | Some(value: T)

  // A leaf cell: a key and the row stored under it.
  datatype Cell = Cell(key: int, row: Row)

  // An internal cell: a child page and the largest key stored under it.
  datatype Entry = Entry(child: nat, key: int)

  // What a page holds. Blank is a zero-filled page nobody has written to yet.
  datatype Page =
    | Header(catalogRoot: nat, freeHead: nat)
    | Free(nextFree: nat)
    | Blank
    | Leaf(isRoot: bool, parent: nat, cells: seq<Cell>, next: nat)
    | Internal(isRoot: bool, parent: nat, entries: seq<Entry>, right: nat)

  predicate IsNode(e: Page) {
    e.Leaf? || e.Internal?
  }

  /** Child `i` of an internal page: the last child lives in the header, not in a cell. */
  function Kid(e: Page, i: int): nat
    requires e.Internal? && 0 <= i <= |e.entries|
  {
    if i == |e.entries| then e.right else e.entries[i].child
  }

  ghost predicate HasKid(e: Page, p: nat) {
    e.Internal? && exists i :: 0 <= i <= |e.entries| && Kid(e, i) == p
  }

  function SetParent(e: Page, parent: nat): Page {
    if IsNode(e) then e.(parent := parent) else e
  }

  predicate Ascending(cells: seq<Cell>) {
    forall i, j :: 0 <= i < j < |cells| ==> cells[i].key < cells[j].key
  }

  predicate KeysWithin(cells: seq<Cell>, lo: int, hi: int) {
    forall i :: 0 <= i < |cells| ==> lo < cells[i].key <= hi
  }

  function InsertAt<T>(s: seq<T>, i: nat, x: T): seq<T>
    requires i <= |s|
  {
    s[..i] + [x] + s[i..]
  }

  function RemoveAt<T>(s: seq<T>, i: nat): seq<T>
    requires i < |s|
  {
    s[..i] + s[i + 1..]
  }
}
