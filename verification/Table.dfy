/** A table: a b-tree of rows keyed by its INT PRIMARY KEY column. */
module Tables {
  import opened Pages
  import opened Shape
  import opened Pagers
  import opened Fill
  import opened Records
  import opened Expressions
  import opened Planner
  import opened Cursors
  import opened LeafInsert
  import opened Delete

  const PAGE_SIZE: nat := 4096
  const LEAF_NODE_HEADER_SIZE: nat := 16
  const LEAF_NODE_KEY_SIZE: nat := 4

  // Bytes one cell occupies: the key and the row, rounded up to a multiple of 4.
  function LeafNodeCellSize(rowSize: nat): nat {
    (LEAF_NODE_KEY_SIZE + rowSize + 3) / 4 * 4
  }

  function LeafNodeMaxCells(rowSize: nat): nat {
    (PAGE_SIZE - LEAF_NODE_HEADER_SIZE) / LeafNodeCellSize(rowSize)
  }

  function LeafNodeMaxRowSize(minCells: nat): int
    requires minCells > 0
  {
    (PAGE_SIZE - LEAF_NODE_HEADER_SIZE) / minCells / 4 * 4 - LEAF_NODE_KEY_SIZE
  }

  // For every n whose limit does not wrap below zero in unsigned arithmetic: the
  // row-size limit is exactly the width at which a leaf stops holding
  // `n` cells, and a full leaf fits its page.
  lemma CapacityExact(rowSize: nat, n: nat)
    requires 1 <= n <= (PAGE_SIZE - LEAF_NODE_HEADER_SIZE) / LEAF_NODE_KEY_SIZE
    ensures rowSize <= LeafNodeMaxRowSize(n) <==> LeafNodeMaxCells(rowSize) >= n
    ensures LEAF_NODE_HEADER_SIZE + LeafNodeMaxCells(rowSize) * LeafNodeCellSize(rowSize) <= PAGE_SIZE
  {
    var space, size := PAGE_SIZE - LEAF_NODE_HEADER_SIZE, LeafNodeCellSize(rowSize);
    DivisionFits(space, size);
    EitherWay(space, size, n);
    Aligned(space / n, size);
    RoundedUp(LEAF_NODE_KEY_SIZE + rowSize, space / n / 4);
  }

  // Rounding up to a multiple of 4 goes past no multiple of 4.
  lemma RoundedUp(raw: nat, limit: nat)
    ensures raw <= limit * 4 <==> (raw + 3) / 4 * 4 <= limit * 4
  {
  }

  // So many cells of a size fit exactly if so large a cell fits so many times.
  lemma EitherWay(space: nat, size: nat, n: nat)
    requires size > 0 && n > 0
    ensures space / size >= n <==> space / n >= size
  {
    AtLeast(space, size, n);
    AtLeast(space, n, size);
    assert n * size == size * n;
  }

  /** A cell is the 4-byte key and the row, rounded up to 4 bytes, and a leaf holds as many as a page of 4096 bytes
      has room for after its header of 16. */
  lemma CapacityLargest(rowSize: nat)
    ensures var size := LeafNodeCellSize(rowSize); size % 4 == 0 && 4 + rowSize <= size < 4 + rowSize + 4
    ensures var size, m := LeafNodeCellSize(rowSize), LeafNodeMaxCells(rowSize);
      16 + m * size <= 4096 < 16 + (m + 1) * size
  {
    DivisionFits(4080, LeafNodeCellSize(rowSize));
  }

  lemma DivisionFits(a: nat, b: nat)
    requires b > 0
    ensures a / b * b <= a < (a / b + 1) * b
  {
    assert a == a / b * b + a % b;
  }

  lemma AtLeast(a: nat, b: nat, n: nat)
    requires b > 0
    ensures a / b >= n <==> a >= n * b
  {
    DivisionFits(a, b);
    if a / b >= n { Scale(n, a / b, b); } else { Scale(a / b + 1, n, b); }
  }

  lemma Scale(x: nat, y: nat, z: nat)
    requires x <= y
    ensures x * z <= y * z
  {
    assert (y - x) * z >= 0;
  }

  lemma Aligned(a: nat, size: nat)
    requires size % 4 == 0
    ensures size <= a <==> size <= a / 4 * 4
  {
  }

  // ------------------------------------------------------------ keyed insert and delete

  ghost predicate HasKey(rows: set<Cell>, key: int) {
    exists c :: c in rows && c.key == key
  }

  // Adds a row under a key no other row has, or refuses.
  method TreeInsert(pager: Pager, root: nat, cap: nat, key: int, row: Row) returns (inserted: bool)
    requires IsTree(pager, root) && 0 <= key <= TOP && root in pager.caps && cap == pager.caps[root]
    modifies pager
    ensures inserted == !HasKey(old(Rows(pager.pages, pager.nodes, root)), key)
    ensures inserted ==> Added(pager, root, Cell(key, row)) && IsTree(pager, root)
    ensures !inserted ==> unchanged(pager)
  {
    var cursor := new Cursor.Find(pager, root, key);
    var leaf := pager.pages[cursor.page];
    ghost var rows := Rows(pager.pages, pager.nodes, root);
    if cursor.cell < |leaf.cells| {
      var keyAtIndex := leaf.cells[cursor.cell].key;
      if keyAtIndex == key {
        assert leaf.cells[cursor.cell] in rows;
        return false;
      }
    }
    LeafNodeInsert(pager, cursor.page, cursor.cell, key, row, cap);
    return true;
  }

  // Removes the row with a key, if there is one.
  method TreeDelete(pager: Pager, root: nat, cap: nat, key: int) returns (found: bool)
    requires IsTree(pager, root) && 0 <= key <= TOP && root in pager.caps && cap == pager.caps[root]
    modifies pager
    ensures found == HasKey(old(Rows(pager.pages, pager.nodes, root)), key)
    ensures IsTree(pager, root) && pager.caps == old(pager.caps)
    ensures Rows(pager.pages, pager.nodes, root) ==
      set c | c in old(Rows(pager.pages, pager.nodes, root)) && c.key != key
    ensures Elsewhere(old(pager.pages), old(pager.nodes), pager.pages, pager.nodes, root)
    ensures !found ==> unchanged(pager)
  {
    var cursor := new Cursor.Find(pager, root, key);
    var leaf := pager.pages[cursor.page];
    ghost var pg, nf := pager.pages, pager.nodes;
    found := cursor.cell < |leaf.cells| && leaf.cells[cursor.cell].key == key;
    if found {
      ghost var gone := leaf.cells[cursor.cell];
      assert gone in Rows(pg, nf, root);
      forall c | c in Rows(pg, nf, root) && c.key == key ensures c == gone { KeyUnique(pg, nf, root, c, gone); }
      LeafNodeDelete(pager, cursor.page, cursor.cell, cap);
    }
  }

  // ------------------------------------------------------------ tables

  // Every row is as wide as the schema says, and is stored under its key column's value.
  ghost predicate RowsTyped(rows: set<Cell>, schema: Schema, keyId: nat)
    requires Laid(schema) && 1 <= keyId <= |schema.columns| && schema.columns[keyId - 1].kind.IntColumn?
  {
    forall c :: c in rows ==>
      |c.row| == schema.rowSize && 0 <= c.key <= KEY_MAX && c.key == ColumnInt(c.row, schema, keyId)
  }

  class Table {
    const pager: Pager
    const root: nat
    const name: Text
    const schema: Schema
    const keyId: nat
    const sql: Text

    constructor (pager: Pager, root: nat, name: Text, schema: Schema, keyId: nat, sql: Text)
      ensures this.pager == pager && this.root == root && this.name == name && this.schema == schema
      ensures this.keyId == keyId && this.sql == sql
    {
      this.pager, this.root, this.name, this.schema, this.keyId, this.sql := pager, root, name, schema, keyId, sql;
    }

    ghost predicate Keyed() {
      Laid(schema) && 1 <= keyId <= |schema.columns| && schema.columns[keyId - 1].kind.IntColumn?
    }

    ghost predicate Ok()
      reads pager
    {
      && IsTree(pager, root) && Keyed()
      && root in pager.caps && pager.caps[root] == LeafNodeMaxCells(schema.rowSize)
      && RowsTyped(Contents(), schema, keyId)
    }

    ghost function Contents(): set<Cell>
      reads pager
    {
      Rows(pager.pages, pager.nodes, root)
    }

    // Inserts a row at its sorted position; a key already taken is refused and nothing changes.
    method Insert(record: Row) returns (inserted: bool)
      requires Ok() && |record| == schema.rowSize && 0 <= ColumnInt(record, schema, keyId)
      modifies pager
      ensures Ok() && FullEnough(pager)
      ensures inserted == !HasKey(old(Contents()), ColumnInt(record, schema, keyId))
      ensures Contents() ==
        if inserted then old(Contents()) + {Cell(ColumnInt(record, schema, keyId), record)} else old(Contents())
      ensures Elsewhere(old(pager.pages), old(pager.nodes), pager.pages, pager.nodes, root)
      ensures pager.caps == old(pager.caps)
    {
      var key := ColumnInt(record, schema, keyId);
      inserted := TreeInsert(pager, root, LeafNodeMaxCells(schema.rowSize), key, record);
      if !inserted { ElsewhereSame(pager.pages, pager.nodes, root); }
      ValidFullEnough(pager);
    }

    method Delete(key: int) returns (found: bool)
      requires Ok() && 0 <= key <= TOP
      modifies pager
      ensures Ok() && FullEnough(pager)
      ensures found == HasKey(old(Contents()), key)
      ensures Contents() == set c | c in old(Contents()) && c.key != key
      ensures Elsewhere(old(pager.pages), old(pager.nodes), pager.pages, pager.nodes, root)
      ensures pager.caps == old(pager.caps)
    {
      found := TreeDelete(pager, root, LeafNodeMaxCells(schema.rowSize), key);
      ValidFullEnough(pager);
    }
  }

  lemma ElsewhereSame(pg: seq<Page>, nf: Nodes, t: nat)
    ensures Elsewhere(pg, nf, pg, nf, t)
  {
  }
}
