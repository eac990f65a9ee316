/** A database: its catalog and its tables, all sharing one file. */
module Databases {
  import opened Pages
  import opened Shape
  import opened Pagers
  import opened Fill
  import opened Records
  import opened Expressions
  import opened Tables
  import opened Executor
  import opened Parsing
  import opened Definitions
  import opened Canonical
  import opened Catalogs
  import opened NewTree

  // ------------------------------------------------------------ what the pages say of one table

  ghost predicate Backed(t: Table, pg: seq<Page>, nf: Nodes, caps: map<nat, nat>) {
    && t.Keyed()
    && t.root in nf && nf[t.root].tree == t.root
    && t.root in caps && caps[t.root] == LeafNodeMaxCells(t.schema.rowSize)
    && RowsTyped(Rows(pg, nf, t.root), t.schema, t.keyId)
  }

  lemma OkBacked(t: Table)
    ensures t.Ok() <==> Valid(t.pager) && Backed(t, t.pager.pages, t.pager.nodes, t.pager.caps)
  {
  }

  // Work on one tree leaves the tables in other trees as they were.
  lemma BackedElsewhere(t: Table, pg: seq<Page>, nf: Nodes, caps: map<nat, nat>, pg': seq<Page>, nf': Nodes,
                        caps': map<nat, nat>, r: nat)
    requires Backed(t, pg, nf, caps) && t.root != r && forall x :: x in nf ==> x < |pg|
    requires Elsewhere(pg, nf, pg', nf', r) && t.root in caps' && caps'[t.root] == caps[t.root]
    ensures Backed(t, pg', nf', caps') && Rows(pg', nf', t.root) == Rows(pg, nf, t.root)
  {
    RowsElsewhere(pg, nf, pg', nf', r, t.root);
  }

  function DefinitionOf(t: Table): TableDefinition {
    TableDefinition(t.name, t.schema, t.keyId, t.sql)
  }

  // The table is one that a CREATE TABLE defines.
  ghost predicate Defined(d: TableDefinition) {
    exists ast :: AstFits(ast) && Accepted(ast) && Defines(d, ast)
  }

  ghost predicate TableBacked(t: Table, pager: Pager, pg: seq<Page>, nf: Nodes, caps: map<nat, nat>, catalogRoot: nat) {
    t.pager == pager && t.root != catalogRoot && t.root < UINT32 && Backed(t, pg, nf, caps) && Defined(DefinitionOf(t))
  }

  ghost predicate TablesBacked(tables: seq<Table>, pager: Pager, pg: seq<Page>, nf: Nodes, caps: map<nat, nat>,
                               catalogRoot: nat) {
    forall i {:trigger TableBacked(tables[i], pager, pg, nf, caps, catalogRoot)} ::
      0 <= i < |tables| ==> TableBacked(tables[i], pager, pg, nf, caps, catalogRoot)
  }

  ghost predicate Apart(t: Table, u: Table) {
    t.root != u.root && !SameName(t.name, u.name)
  }

  ghost predicate Distinct(tables: seq<Table>) {
    forall i, j {:trigger Apart(tables[i], tables[j])} :: 0 <= i < j < |tables| ==> Apart(tables[i], tables[j])
  }

  // Every node of the file belongs to the catalog or to one of the tables.
  ghost predicate Owned(tables: seq<Table>, nf: Nodes, catalogRoot: nat) {
    forall p :: p in nf ==> nf[p].tree == catalogRoot || IsRoot(tables, nf[p].tree)
  }

  ghost predicate IsRoot(tables: seq<Table>, r: nat) {
    exists i :: 0 <= i < |tables| && tables[i].root == r
  }

  function EntryFor(t: Table, id: nat): CatalogEntry {
    CatalogEntry(id, t.name, t.root, t.sql)
  }

  function CatalogRow(t: Table, id: nat): Cell
    requires t.root < UINT32 && id < UINT32
  {
    Cell(id, RowOf(EntryFor(t, id)))
  }

  ghost predicate RootsFit(tables: seq<Table>) {
    |tables| <= INT32_MAX && forall i :: 0 <= i < |tables| ==> tables[i].root < UINT32
  }

  ghost predicate InCatalog(tables: seq<Table>, c: Cell)
    requires RootsFit(tables)
  {
    1 <= c.key <= |tables| && c == CatalogRow(tables[c.key - 1], c.key)
  }

  // The catalog lists the tables in the order they were created, numbered from 1.
  ghost predicate Listed(rows: set<Cell>, tables: seq<Table>)
    requires RootsFit(tables)
  {
    forall c :: c in rows <==> InCatalog(tables, c)
  }

  lemma InCatalogNext(tables: seq<Table>, t: Table, c: Cell)
    requires RootsFit(tables) && RootsFit(tables + [t]) && t.root < UINT32
    ensures InCatalog(tables + [t], c) <==> InCatalog(tables, c) || c == CatalogRow(t, |tables| + 1)
  {
    if 1 <= c.key <= |tables| {
      assert (tables + [t])[c.key - 1] == tables[c.key - 1];
    } else if c.key == |tables| + 1 {
      assert (tables + [t])[|tables|] == t;
    }
  }

  lemma ListedKeys(rows: set<Cell>, tables: seq<Table>)
    requires RootsFit(tables) && Listed(rows, tables)
    ensures !HasKey(rows, |tables| + 1)
  {
  }

  lemma ListedNext(rows: set<Cell>, tables: seq<Table>, t: Table)
    requires RootsFit(tables) && Listed(rows, tables) && RootsFit(tables + [t]) && t.root < UINT32
    ensures Listed(rows + {CatalogRow(t, |tables| + 1)}, tables + [t])
  {
    var row := CatalogRow(t, |tables| + 1);
    forall c ensures c in rows + {row} <==> InCatalog(tables + [t], c) { InCatalogNext(tables, t, c); }
  }

  // ------------------------------------------------------------ keeping the tables

  lemma TablesElsewhere(tables: seq<Table>, pager: Pager, pg: seq<Page>, nf: Nodes, caps: map<nat, nat>,
                        pg': seq<Page>, nf': Nodes, caps': map<nat, nat>, catalogRoot: nat, r: nat)
    requires TablesBacked(tables, pager, pg, nf, caps, catalogRoot) && forall x :: x in nf ==> x < |pg|
    requires Elsewhere(pg, nf, pg', nf', r) && forall u :: u in caps && u != r ==> u in caps' && caps'[u] == caps[u]
    requires forall i :: 0 <= i < |tables| ==> tables[i].root != r
    ensures TablesBacked(tables, pager, pg', nf', caps', catalogRoot)
    ensures forall i :: 0 <= i < |tables| ==> Rows(pg', nf', tables[i].root) == Rows(pg, nf, tables[i].root)
  {
    forall i | 0 <= i < |tables|
      ensures TableBacked(tables[i], pager, pg', nf', caps', catalogRoot)
      ensures Rows(pg', nf', tables[i].root) == Rows(pg, nf, tables[i].root)
    {
      assert TableBacked(tables[i], pager, pg, nf, caps, catalogRoot);
      BackedElsewhere(tables[i], pg, nf, caps, pg', nf', caps', r);
    }
  }

  // Work on table k's tree keeps that table, given that its own rows stay typed, and every other.
  lemma TablesKept(tables: seq<Table>, pager: Pager, pg: seq<Page>, nf: Nodes, caps: map<nat, nat>,
                   pg': seq<Page>, nf': Nodes, catalogRoot: nat, k: nat)
    requires TablesBacked(tables, pager, pg, nf, caps, catalogRoot) && forall x :: x in nf ==> x < |pg|
    requires k < |tables| && Distinct(tables) && Elsewhere(pg, nf, pg', nf', tables[k].root)
    requires Backed(tables[k], pg', nf', caps)
    ensures TablesBacked(tables, pager, pg', nf', caps, catalogRoot)
    ensures forall i :: 0 <= i < |tables| && i != k ==> Rows(pg', nf', tables[i].root) == Rows(pg, nf, tables[i].root)
  {
    forall i | 0 <= i < |tables|
      ensures TableBacked(tables[i], pager, pg', nf', caps, catalogRoot)
      ensures i != k ==> Rows(pg', nf', tables[i].root) == Rows(pg, nf, tables[i].root)
    {
      assert TableBacked(tables[i], pager, pg, nf, caps, catalogRoot);
      if i != k {
        assert if i < k then Apart(tables[i], tables[k]) else Apart(tables[k], tables[i]);
        BackedElsewhere(tables[i], pg, nf, caps, pg', nf', caps, tables[k].root);
      }
    }
  }

  lemma OwnedElsewhere(tables: seq<Table>, pg: seq<Page>, nf: Nodes, pg': seq<Page>, nf': Nodes, catalogRoot: nat,
                       r: nat)
    requires Owned(tables, nf, catalogRoot) && Elsewhere(pg, nf, pg', nf', r) && (r == catalogRoot || IsRoot(tables, r))
    ensures Owned(tables, nf', catalogRoot)
  {
    forall p | p in nf' ensures nf'[p].tree == catalogRoot || IsRoot(tables, nf'[p].tree) {
      if nf'[p].tree != r { assert nf[p] == nf'[p]; }
    }
  }

  // ------------------------------------------------------------ a new table

  lemma DefinedFits(d: TableDefinition)
    requires Defined(d)
    ensures LeafNodeMaxCells(d.schema.rowSize) >= 3
    ensures Laid(d.schema) && 1 <= d.keyColumnId <= |d.schema.columns|
    ensures d.schema.columns[d.keyColumnId - 1].kind.IntColumn?
  {
    var ast :| AstFits(ast) && Accepted(ast) && Defines(d, ast);
    AcceptedFits(d, ast);
  }

  lemma EntryFitsDefined(t: Table, id: nat)
    requires Defined(DefinitionOf(t)) && t.root < UINT32 && id < UINT32
    ensures EntryFits(EntryFor(t, id))
  {
    var ast :| AstFits(ast) && Accepted(ast) && Defines(DefinitionOf(t), ast);
    AcceptedPrintable(ast);
    NameNulFree(ast.tableName);
    CanonicalNulFree(ast);
  }

  // A new tree, not yet in the catalog: the tables that were there are as they were.
  lemma RootAllocated(tables: seq<Table>, table: Table, catalogRoot: nat, pg: seq<Page>, nf: Nodes, caps: map<nat, nat>,
                      pg': seq<Page>, nf': Nodes, caps': map<nat, nat>)
    requires TablesBacked(tables, table.pager, pg, nf, caps, catalogRoot) && forall x :: x in nf ==> x < |pg|
    requires table.root !in nf && table.root != catalogRoot && table.root < UINT32 && Defined(DefinitionOf(table))
    requires nf' == WithTree(nf, table.root) && Rows(pg', nf', table.root) == {}
    requires Elsewhere(pg, nf, pg', nf', table.root)
    requires caps' == caps[table.root := LeafNodeMaxCells(table.schema.rowSize)]
    ensures TablesBacked(tables + [table], table.pager, pg', nf', caps', catalogRoot)
    ensures forall i :: 0 <= i < |tables| ==>
      tables[i].root != table.root && Rows(pg', nf', tables[i].root) == Rows(pg, nf, tables[i].root)
  {
    forall i | 0 <= i < |tables| ensures tables[i].root != table.root {
      assert TableBacked(tables[i], table.pager, pg, nf, caps, catalogRoot);
    }
    TablesElsewhere(tables, table.pager, pg, nf, caps, pg', nf', caps', catalogRoot, table.root);
    NewTableBacked(table, pg', nf', caps', catalogRoot);
    BackedNext(tables, table, pg', nf', caps', catalogRoot);
  }

  lemma NewTableBacked(table: Table, pg: seq<Page>, nf: Nodes, caps: map<nat, nat>, catalogRoot: nat)
    requires Defined(DefinitionOf(table)) && table.root < UINT32 && table.root != catalogRoot
    requires table.root in nf && nf[table.root].tree == table.root && Rows(pg, nf, table.root) == {}
    requires table.root in caps && caps[table.root] == LeafNodeMaxCells(table.schema.rowSize)
    ensures TableBacked(table, table.pager, pg, nf, caps, catalogRoot)
  {
    DefinedFits(DefinitionOf(table));
  }

  lemma BackedNext(tables: seq<Table>, table: Table, pg: seq<Page>, nf: Nodes, caps: map<nat, nat>, catalogRoot: nat)
    requires TablesBacked(tables, table.pager, pg, nf, caps, catalogRoot)
    requires TableBacked(table, table.pager, pg, nf, caps, catalogRoot)
    ensures TablesBacked(tables + [table], table.pager, pg, nf, caps, catalogRoot)
  {
    forall i | 0 <= i < |tables + [table]|
      ensures TableBacked((tables + [table])[i], table.pager, pg, nf, caps, catalogRoot)
    {
      if i < |tables| { assert (tables + [table])[i] == tables[i]; }
    }
  }

  lemma OwnedNext(tables: seq<Table>, table: Table, nf: Nodes, catalogRoot: nat)
    requires Owned(tables, nf, catalogRoot) && table.root !in nf
    ensures Owned(tables + [table], WithTree(nf, table.root), catalogRoot)
  {
    var all := tables + [table];
    assert all[|tables|] == table;
    forall p | p in nf && nf[p].tree != catalogRoot ensures IsRoot(all, nf[p].tree) {
      var i :| 0 <= i < |tables| && tables[i].root == nf[p].tree;
      assert all[i] == tables[i];
    }
  }

  // Once the catalog has grown, the tables are still as they were.
  lemma CatalogRecorded(tables: seq<Table>, catalog: Table, pg: seq<Page>, nf: Nodes, caps: map<nat, nat>,
                        pg': seq<Page>, nf': Nodes)
    requires Shaped(pg, nf) && TablesBacked(tables, catalog.pager, pg, nf, caps, catalog.root)
    requires Owned(tables, nf, catalog.root) && Elsewhere(pg, nf, pg', nf', catalog.root)
    ensures TablesBacked(tables, catalog.pager, pg', nf', caps, catalog.root) && Owned(tables, nf', catalog.root)
    ensures forall i :: 0 <= i < |tables| ==> Rows(pg', nf', tables[i].root) == Rows(pg, nf, tables[i].root)
  {
    forall i | 0 <= i < |tables| ensures tables[i].root != catalog.root {
      assert TableBacked(tables[i], catalog.pager, pg, nf, caps, catalog.root);
    }
    TablesElsewhere(tables, catalog.pager, pg, nf, caps, pg', nf', caps, catalog.root, catalog.root);
    OwnedElsewhere(tables, pg, nf, pg', nf', catalog.root, catalog.root);
  }

  // The catalog and these tables, recorded or not, are all the file holds.
  ghost predicate Around(tables: seq<Table>, catalog: Table, pg: seq<Page>, nf: Nodes, caps: map<nat, nat>) {
    && TablesBacked(tables, catalog.pager, pg, nf, caps, catalog.root) && Owned(tables, nf, catalog.root)
    && Backed(catalog, pg, nf, caps) && IsCatalog(catalog)
    && |pg| > 0 && pg[0].Header? && pg[0].catalogRoot == catalog.root
  }

  ghost predicate Sharing(tables: seq<Table>, catalog: Table)
    reads catalog.pager
  {
    Valid(catalog.pager) && Around(tables, catalog, catalog.pager.pages, catalog.pager.nodes, catalog.pager.caps)
  }

  ghost function RowsIn(pager: Pager, t: Table): set<Cell>
    reads pager
  {
    Rows(pager.pages, pager.nodes, t.root)
  }

  lemma SameRows(tables: seq<Table>, pg: seq<Page>, nf: Nodes, pg': seq<Page>, nf': Nodes)
    requires forall i :: 0 <= i < |tables| ==> Rows(pg', nf', tables[i].root) == Rows(pg, nf, tables[i].root)
    ensures forall t :: t in tables ==> Rows(pg', nf', t.root) == Rows(pg, nf, t.root)
  {
  }

  // The tree of a table to be, which the catalog does not list yet.
  method AllocateTable(ghost tables: seq<Table>, catalog: Table, definition: TableDefinition) returns (table: Table)
    requires Sharing(tables, catalog) && Defined(definition) && |catalog.pager.pages| < UINT32
    modifies catalog.pager
    ensures fresh(table) && table.pager == catalog.pager && DefinitionOf(table) == definition && table.root < UINT32
    ensures Sharing(tables + [table], catalog)
    ensures RowsIn(catalog.pager, table) == {} && RowsIn(catalog.pager, catalog) == old(RowsIn(catalog.pager, catalog))
    ensures forall t :: t in tables ==>
      t.root != table.root && RowsIn(catalog.pager, t) == old(RowsIn(catalog.pager, t))
  {
    DefinedFits(definition);
    var pager := catalog.pager;
    ghost var pg, nf, caps := pager.pages, pager.nodes, pager.caps;
    var root := AllocateRootLeaf(pager, LeafNodeMaxCells(definition.schema.rowSize));
    table := TableCreate(pager, root, definition);
    RootAllocated(tables, table, catalog.root, pg, nf, caps, pager.pages, pager.nodes, pager.caps);
    SameRows(tables, pg, nf, pager.pages, pager.nodes);
    BackedElsewhere(catalog, pg, nf, caps, pager.pages, pager.nodes, pager.caps, root);
    OwnedNext(tables, table, nf, catalog.root);
  }

  // Lists a table in the catalog, which may itself grow by pages.
  method RecordTable(ghost tables: seq<Table>, catalog: Table, id: nat, table: Table)
    requires Sharing(tables, catalog) && id <= INT32_MAX && !HasKey(RowsIn(catalog.pager, catalog), id)
    requires Defined(DefinitionOf(table)) && table.root < UINT32
    modifies catalog.pager
    ensures Sharing(tables, catalog)
    ensures RowsIn(catalog.pager, catalog) == old(RowsIn(catalog.pager, catalog)) + {CatalogRow(table, id)}
    ensures forall t :: t in tables ==> RowsIn(catalog.pager, t) == old(RowsIn(catalog.pager, t))
  {
    var pager := catalog.pager;
    ghost var pg, nf, caps := pager.pages, pager.nodes, pager.caps;
    EntryFitsDefined(table, id);
    CatalogAdd(catalog, EntryFor(table, id));
    CatalogRecorded(tables, catalog, pg, nf, caps, pager.pages, pager.nodes);
    SameRows(tables, pg, nf, pager.pages, pager.nodes);
  }

  // Allocates and records a table; those that were there keep their rows.
  method AddTable(ghost tables: seq<Table>, catalog: Table, id: nat, definition: TableDefinition) returns (table: Table)
    requires Sharing(tables, catalog) && Defined(definition) && |catalog.pager.pages| < UINT32
    requires id <= INT32_MAX && !HasKey(RowsIn(catalog.pager, catalog), id)
    modifies catalog.pager
    ensures fresh(table) && table.pager == catalog.pager && DefinitionOf(table) == definition && table.root < UINT32
    ensures Sharing(tables + [table], catalog)
    ensures RowsIn(catalog.pager, table) == {}
    ensures RowsIn(catalog.pager, catalog) == old(RowsIn(catalog.pager, catalog)) + {CatalogRow(table, id)}
    ensures forall t :: t in tables ==>
      t.root != table.root && RowsIn(catalog.pager, t) == old(RowsIn(catalog.pager, t))
  {
    table := AllocateTable(tables, catalog, definition);
    assert table in tables + [table];
    RecordTable(tables + [table], catalog, id, table);
  }

  // ------------------------------------------------------------ finding a table

  ghost predicate NameTaken(tables: seq<Table>, name: Text) {
    exists i :: 0 <= i < |tables| && SameName(tables[i].name, name)
  }

  method FindByName(tables: seq<Table>, name: Text) returns (index: int)
    requires NulFree(name) && forall i :: 0 <= i < |tables| ==> NulFree(tables[i].name)
    ensures -1 <= index < |tables| && (index >= 0 <==> NameTaken(tables, name))
    ensures index >= 0 ==> SameName(tables[index].name, name)
    ensures forall j :: 0 <= j < index ==> !SameName(tables[j].name, name)
  {
    for i := 0 to |tables|
      invariant forall j :: 0 <= j < i ==> !SameName(tables[j].name, name)
    {
      var same := NamesEqual(tables[i].name, name);
      if same { return i; }
    }
    return -1;
  }

  lemma TablesNamed(tables: seq<Table>, pager: Pager, pg: seq<Page>, nf: Nodes, caps: map<nat, nat>, catalogRoot: nat)
    requires TablesBacked(tables, pager, pg, nf, caps, catalogRoot)
    ensures forall i :: 0 <= i < |tables| ==> NulFree(tables[i].name)
  {
    forall i | 0 <= i < |tables| ensures NulFree(tables[i].name) {
      assert TableBacked(tables[i], pager, pg, nf, caps, catalogRoot);
      DefinedNamed(DefinitionOf(tables[i]));
    }
  }

  method CheckDefinition(ast: CreateTableAst) returns (definition: Option<TableDefinition>)
    requires AstFits(ast)
    ensures definition.Some? <==> Accepted(ast)
    ensures definition.Some? ==> Defines(definition.value, ast) && Defined(definition.value)
    ensures definition.Some? ==> definition.value.name == ast.tableName
  {
    definition := TableDefinitionFromAst(ast);
    if definition.Some? { DefinedBy(definition.value, ast); }
  }

  lemma DefinedBy(d: TableDefinition, ast: CreateTableAst)
    requires AstFits(ast) && Accepted(ast) && Defines(d, ast)
    ensures Defined(d)
  {
  }

  lemma DefinedNamed(d: TableDefinition)
    requires Defined(d)
    ensures NulFree(d.name)
  {
    var ast :| AstFits(ast) && Accepted(ast) && Defines(d, ast);
    NameNulFree(ast.tableName);
  }

  // ------------------------------------------------------------ the database

  // Asks for what Consistent says; it hides its content from proofs that only pass it on.
  ghost predicate LookedInto(nextTableId: nat) { true }

  class Database {
    const pager: Pager
    const catalog: Table
    var tables: seq<Table>
    var nextTableId: nat

    constructor (pager: Pager, catalog: Table)
      ensures this.pager == pager && this.catalog == catalog && tables == [] && nextTableId == 1
    {
      this.pager, this.catalog, tables, nextTableId := pager, catalog, [], 1;
    }

    // The file is sound, and holds the catalog, the tables it lists and nothing else.
    ghost predicate Whole()
      reads this, pager
    {
      && catalog.pager == pager && Sharing(tables, catalog)
      && Distinct(tables) && RootsFit(tables) && nextTableId == |tables| + 1
      && Listed(RowsIn(pager, catalog), tables)
    }

    // The invariant of every database, looked into only where LookedInto asks.
    ghost predicate Consistent()
      reads this, pager
    {
      forall n {:trigger LookedInto(n)} :: LookedInto(n) && n == nextTableId ==> Whole()
    }

    lemma Inside()
      requires Consistent()
      ensures Whole()
    {
      assert LookedInto(nextTableId);
    }

    /** The table with a name, case aside: a linear search. */
    method FindTable(name: Text) returns (index: int)
      requires Consistent() && NulFree(name)
      ensures -1 <= index < |tables| && (index >= 0 <==> NameTaken(tables, name))
      ensures index >= 0 ==> SameName(tables[index].name, name)
      ensures forall j :: 0 <= j < index ==> !SameName(tables[j].name, name)
    {
      Inside();
      TablesNamed(tables, pager, pager.pages, pager.nodes, pager.caps, catalog.root);
      index := FindByName(tables, name);
    }

    /**
     A new table comes to have an empty tree, a row of the catalog, and the place after
     those already open, whose rows stay as they were.
     */
    method CreateTable(definition: TableDefinition) returns (ghost table: Table)
      requires Consistent() && Defined(definition) && !NameTaken(tables, definition.name)
      requires |pager.pages| < UINT32 && nextTableId <= INT32_MAX
      modifies this, pager
      ensures Consistent() && tables == old(tables) + [table] && fresh(table)
      ensures DefinitionOf(table) == definition && RowsIn(pager, table) == {}
      ensures forall t :: t in old(tables) ==> RowsIn(pager, t) == old(RowsIn(pager, t))
    {
      Inside();
      ghost var rows := RowsIn(pager, catalog);
      ListedKeys(rows, tables);
      var id := nextTableId;
      nextTableId := nextTableId + 1;
      var created := AddTable(tables, catalog, id, definition);
      TableListed(rows, tables, created);
      tables := tables + [created];
      table := created;
    }

    /** Creates a table, unless one has its name already or its definition is refused. */
    method ExecuteCreate(ast: CreateTableAst) returns (created: bool, ghost table: Table?)
      requires Consistent() && AstFits(ast)
      requires |pager.pages| < UINT32 && nextTableId <= INT32_MAX
      modifies this, pager
      ensures Consistent()
      ensures created <==> !NameTaken(old(tables), ast.tableName) && Accepted(ast)
      ensures !created ==> unchanged(this) && unchanged(pager)
      ensures created ==> table != null && fresh(table) && tables == old(tables) + [table]
      ensures created ==> Defines(DefinitionOf(table), ast) && RowsIn(pager, table) == {}
      ensures forall t :: t in old(tables) ==> RowsIn(pager, t) == old(RowsIn(pager, t))
    {
      created, table := false, null;
      NameNulFree(ast.tableName);
      var index := FindTable(ast.tableName);
      if index >= 0 { return; }
      var definition := CheckDefinition(ast);
      if definition.None? { return; }
      table := CreateTable(definition.value);
      created := true;
    }

    /** Inserts a row into one table; every other table keeps its rows. */
    method InsertRow(table: Table, record: Row) returns (inserted: bool)
      requires Takes(table, record) && Consistent() && table in tables
      modifies pager
      ensures Consistent()
      ensures inserted == !HasKey(old(RowsIn(pager, table)), CellOf(table, record).key)
      ensures RowsIn(pager, table) == old(RowsIn(pager, table)) + (if inserted then {CellOf(table, record)} else {})
      ensures forall t :: t in tables && t != table ==> RowsIn(pager, t) == old(RowsIn(pager, t))
    {
      Inside();
      TablesOk();
      ghost var pg, nf, caps := pager.pages, pager.nodes, pager.caps;
      inserted := table.Insert(record);
      TableWorked(tables, catalog, table, pg, nf, caps, pager.pages, pager.nodes);
    }

    /** Deletes the rows of one table that satisfy a WHERE; every other table keeps its rows. */
    method DeleteRows(table: Table, where: Option<Expr>)
      requires table.Keyed() && (where.Some? ==> Bound(where.value, table.schema))
      requires Consistent() && table in tables
      modifies pager
      ensures Consistent()
      ensures RowsIn(pager, table) == old(RowsIn(pager, table)) - old(Matching(table, where))
      ensures forall t :: t in tables && t != table ==> RowsIn(pager, t) == old(RowsIn(pager, t))
    {
      Inside();
      TablesOk();
      ghost var pg, nf, caps := pager.pages, pager.nodes, pager.caps;
      var examined, deleted := ExecuteDelete(table, where);
      TableWorked(tables, catalog, table, pg, nf, caps, pager.pages, pager.nodes);
    }

    // An open table is fit for every operation on it.
    ghost predicate TableOk(table: Table)
      reads pager
    {
      table.pager == pager && table.Ok()
    }

    lemma TablesOk()
      requires Consistent()
      ensures forall t :: t in tables ==> TableOk(t)
    {
      Inside();
      forall t | t in tables ensures TableOk(t) {
        assert TableBacked(t, pager, pager.pages, pager.nodes, pager.caps, catalog.root);
        OkBacked(t);
      }
    }
  }

  // A row of the table's width whose key is not negative, as binding an INSERT leaves it.
  ghost predicate Takes(table: Table, record: Row) {
    && Laid(table.schema) && 1 <= table.keyId <= |table.schema.columns|
    && table.schema.columns[table.keyId - 1].kind.IntColumn?
    && |record| == table.schema.rowSize && 0 <= ColumnInt(record, table.schema, table.keyId)
  }

  // The cell a row is stored in.
  ghost function CellOf(table: Table, record: Row): Cell
    requires Takes(table, record)
  {
    Cell(ColumnInt(record, table.schema, table.keyId), record)
  }

  // Work on one table's tree keeps every table, and the rows of all but that one.
  lemma TableWorked(tables: seq<Table>, catalog: Table, table: Table, pg: seq<Page>, nf: Nodes, caps: map<nat, nat>,
                    pg': seq<Page>, nf': Nodes)
    requires Around(tables, catalog, pg, nf, caps) && Distinct(tables) && table in tables
    requires (forall x :: x in nf ==> x < |pg|) && Elsewhere(pg, nf, pg', nf', table.root)
    requires Backed(table, pg', nf', caps)
    ensures Around(tables, catalog, pg', nf', caps) && Rows(pg', nf', catalog.root) == Rows(pg, nf, catalog.root)
    ensures forall t :: t in tables && t != table ==> Rows(pg', nf', t.root) == Rows(pg, nf, t.root)
  {
    var k :| 0 <= k < |tables| && tables[k] == table;
    TablesKept(tables, catalog.pager, pg, nf, caps, pg', nf', catalog.root, k);
    assert TableBacked(table, catalog.pager, pg, nf, caps, catalog.root);
    BackedElsewhere(catalog, pg, nf, caps, pg', nf', caps, table.root);
    OwnedElsewhere(tables, pg, nf, pg', nf', catalog.root, table.root);
  }

  lemma TableListed(rows: set<Cell>, tables: seq<Table>, table: Table)
    requires Distinct(tables) && RootsFit(tables) && Listed(rows, tables) && !NameTaken(tables, table.name)
    requires |tables| < INT32_MAX && table.root < UINT32 && forall t :: t in tables ==> t.root != table.root
    ensures Distinct(tables + [table]) && RootsFit(tables + [table])
    ensures Listed(rows + {CatalogRow(table, |tables| + 1)}, tables + [table])
  {
    ListedNext(rows, tables, table);
  }
}
