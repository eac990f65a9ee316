/** Closing a database and opening it again from its file. */
module Reopening {
  import opened Pages
  import opened Shape
  import opened Boundary
  import opened Pagers
  import opened Fill
  import opened Records
  import opened Tables
  import opened Tokens
  import opened Parsing
  import opened Definitions
  import opened Canonical
  import opened Catalogs
  import opened NewTree
  import opened Databases

  const NEW_CATALOG_ROOT_PAGE_NUM: nat := 1

  // ------------------------------------------------------------ a new file

  lemma EmptyFileValid(pg: seq<Page>, maxKeys: nat)
    requires pg == [Header(NEW_CATALOG_ROOT_PAGE_NUM, 0)] && 3 <= maxKeys
    ensures Sound(pg, map[], 0, [], map[], maxKeys, {}, {})
  {
  }

  // The pager of a new file: the header is its one page.
  method NewPager(maxKeys: nat) returns (pager: Pager)
    requires 3 <= maxKeys
    ensures fresh(pager) && Valid(pager) && pager.pages == [Header(NEW_CATALOG_ROOT_PAGE_NUM, 0)]
    ensures pager.free == [] && pager.nodes == map[] && pager.caps == map[]
  {
    pager := new Pager.Open(maxKeys, []);
    pager.pages := [Header(NEW_CATALOG_ROOT_PAGE_NUM, 0)];
    EmptyFileValid(pager.pages, maxKeys);
  }

  /** Starts a database in a new file: a header, and an empty catalog. */
  method NewDatabase(maxKeys: nat) returns (db: Database)
    requires 3 <= maxKeys
    ensures fresh(db) && fresh(db.pager) && db.Consistent() && db.tables == []
  {
    var pager := NewPager(maxKeys);
    CatalogFitsLeaf();
    var root := AllocateRootLeaf(pager, LeafNodeMaxCells(CATALOG_SCHEMA.rowSize));
    var catalog := CatalogOpen(pager, NEW_CATALOG_ROOT_PAGE_NUM);
    NewCatalog(catalog, pager.pages, pager.nodes, pager.caps);
    db := new Database(pager, catalog);
  }

  // An empty catalog and no tables.
  lemma NewCatalog(catalog: Table, pg: seq<Page>, nf: Nodes, caps: map<nat, nat>)
    requires IsCatalog(catalog) && catalog.root == NEW_CATALOG_ROOT_PAGE_NUM
    requires nf ==
      WithTree(map[], catalog.root) && caps == map[catalog.root := LeafNodeMaxCells(CATALOG_SCHEMA.rowSize)]
    requires Rows(pg, nf, catalog.root) == {} && |pg| > 0 && pg[0] == Header(NEW_CATALOG_ROOT_PAGE_NUM, 0)
    ensures Around([], catalog, pg, nf, caps) && Listed(Rows(pg, nf, catalog.root), [])
  {
  }

  lemma CatalogFitsLeaf()
    ensures LeafNodeMaxCells(CATALOG_SCHEMA.rowSize) == 3
  {
    assert LeafNodeCellSize(1096) == 1100;
  }

  // ------------------------------------------------------------ closing

  // The file a database leaves behind: its pages, with the free list's head in the header.
  ghost predicate FileOf(file: seq<Page>, was: Database)
    reads was, was.pager
  {
    was.Whole() && file == was.pager.pages && file[0] == Header(was.catalog.root, was.pager.freeHead)
  }

  lemma HeaderWritten(pg: seq<Page>, nf: Nodes, head: nat, free: seq<nat>, caps: map<nat, nat>, maxKeys: nat, e: Page)
    requires Sound(pg, nf, head, free, caps, maxKeys, {}, {}) && e.Header?
    ensures Sound(pg[0 := e], nf, head, free, caps, maxKeys, {}, {})
    ensures forall t :: Rows(pg[0 := e], nf, t) == Rows(pg, nf, t)
  {
    var pg' := pg[0 := e];
    ShapedFrame(pg, nf, pg');
    FreeListFrame(pg, head, free, pg');
    forall p | p in nf ensures FillAt(pg', nf, caps, maxKeys, p) { assert FillAt(pg, nf, caps, maxKeys, p); }
    forall t ensures Rows(pg', nf, t) == Rows(pg, nf, t) { RowsKept(pg, nf, pg', nf, t); }
  }

  // Tables depend on the pages only through their rows.
  lemma AroundSame(tables: seq<Table>, catalog: Table, pg: seq<Page>, nf: Nodes, caps: map<nat, nat>, pg': seq<Page>)
    requires Around(tables, catalog, pg, nf, caps) && forall t :: Rows(pg', nf, t) == Rows(pg, nf, t)
    requires |pg'| > 0 && pg'[0].Header? && pg'[0].catalogRoot == catalog.root
    ensures Around(tables, catalog, pg', nf, caps)
  {
    forall i | 0 <= i < |tables| ensures TableBacked(tables[i], catalog.pager, pg', nf, caps, catalog.root) {
      assert TableBacked(tables[i], catalog.pager, pg, nf, caps, catalog.root);
    }
  }

  /** Writes the head of the free list into the header and hands back the file's pages. */
  method DbClose(db: Database) returns (file: seq<Page>)
    requires db.Whole()
    modifies db.pager
    ensures FileOf(file, db) && db.pager.nodes == old(db.pager.nodes) && db.pager.free == old(db.pager.free)
    ensures file == old(db.pager.pages)[0 := Header(db.catalog.root, old(db.pager.freeHead))]
    ensures forall t :: t in db.tables ==> RowsIn(db.pager, t) == old(RowsIn(db.pager, t))
  {
    var pager := db.pager;
    ghost var pg := pager.pages;
    var header := Header(pager.pages[0].catalogRoot, pager.freeHead);
    HeaderWritten(pg, pager.nodes, pager.freeHead, pager.free, pager.caps, pager.maxKeys, header);
    AroundSame(db.tables, db.catalog, pg, pager.nodes, pager.caps, pg[0 := header]);
    pager.Set(0, header);
    file := pager.pages;
  }

  // ------------------------------------------------------------ opening

  // A stored definition goes through the parser and the checks and comes out the same.
  lemma DefinedReparses(d: TableDefinition) returns (ast: CreateTableAst)
    requires Defined(d)
    ensures AstFits(ast) && Accepted(ast) && CreateStatement(Tokenize(d.sql)) == Some(ast) && ast.tableName == d.name
    ensures forall d' :: Defines(d', ast) ==> d' == d
  {
    ast :| AstFits(ast) && Accepted(ast) && Defines(d, ast);
    AcceptedPrintable(ast);
    CanonicalReparses(ast);
    forall d' | Defines(d', ast) ensures d' == d { DefinitionUnique(d', d, ast); }
  }

  // The definition a stored text holds, which is the one it was written from.
  method ParseDefinition(sql: Text, ghost was: TableDefinition) returns (definition: Option<TableDefinition>)
    requires Defined(was) && sql == was.sql
    ensures definition == Some(was)
  {
    ghost var stored := DefinedReparses(was);
    var parser := new Parser(sql);
    var ast := parser.ParseStatement();
    if ast.None? || !ast.value.CreateTree? { return None; }
    definition := TableDefinitionFromAst(ast.value.create);
  }

  /** Rebuilds a table from its catalog entry; null would mean a corrupt file. */
  method LoadTable(pager: Pager, entry: CatalogEntry, ghost was: Table) returns (table: Table?)
    requires Defined(DefinitionOf(was)) && entry == EntryFor(was, entry.id) && 0 < was.root < |pager.pages|
    ensures table != null && fresh(table) && table.pager == pager && table.root == was.root
    ensures DefinitionOf(table) == DefinitionOf(was)
  {
    DefinedNamed(DefinitionOf(was));
    var definition := ParseDefinition(entry.sql, DefinitionOf(was));
    if definition.None? { return null; }
    var same := NamesEqual(definition.value.name, entry.name);
    if !same { return null; }
    if entry.root == 0 || entry.root >= |pager.pages| { return null; }
    table := TableCreate(pager, entry.root, definition.value);
  }

  lemma {:induction false} RowsInOrder(rows: seq<Cell>, tables: seq<Table>, contents: set<Cell>, i: nat)
    requires RootsFit(tables) && Listed(contents, tables) && Ascending(rows) && forall c :: c in rows <==> c in contents
    requires i <= |tables|
    ensures i <= |rows| && forall j :: 0 <= j < i ==> rows[j] == CatalogRow(tables[j], j + 1)
  {
    if i > 0 {
      RowsInOrder(rows, tables, contents, i - 1);
      var c := CatalogRow(tables[i - 1], i);
      assert InCatalog(tables, c);
      assert c in rows;
      var k :| 0 <= k < |rows| && rows[k] == c;
      assert rows[i - 1] in rows && InCatalog(tables, rows[i - 1]);
    }
  }

  lemma {:induction false} KeysGrow(rows: seq<Cell>, i: nat)
    requires Ascending(rows) && i < |rows| && forall j :: 0 <= j < |rows| ==> 1 <= rows[j].key
    ensures i + 1 <= rows[i].key
  {
    if i > 0 { KeysGrow(rows, i - 1); }
  }

  // The catalog's rows, read in order, are the tables' entries in the order they were created.
  lemma EntriesInOrder(entries: seq<CatalogEntry>, tables: seq<Table>, contents: set<Cell>)
    requires RootsFit(tables) && Listed(contents, tables) && LoadedAll(entries, contents)
    requires forall t :: t in tables ==> Defined(DefinitionOf(t))
    ensures |entries| == |tables| && forall i :: 0 <= i < |tables| ==> entries[i] == EntryFor(tables[i], i + 1)
  {
    var rows :| Loaded(entries, rows) && Ascending(rows) && forall c :: c in rows <==> c in contents;
    RowsInOrder(rows, tables, contents, |tables|);
    forall i | 0 <= i < |rows| ensures InCatalog(tables, rows[i]) { assert rows[i] in rows; }
    if |rows| > 0 { KeysGrow(rows, |rows| - 1); }
    forall i | 0 <= i < |tables| ensures entries[i] == EntryFor(tables[i], i + 1) {
      EntryFitsDefined(tables[i], i + 1);
      EntryRoundTrip(EntryFor(tables[i], i + 1));
    }
  }

  // The same tables, in the same order, with the same definitions, roots and rows; the same
  // free list; the same next id.
  ghost predicate SameDatabase(db: Database, was: Database)
    reads db, was, db.pager, was.pager
  {
    && |db.tables| == |was.tables|
    && (forall i :: 0 <= i < |was.tables| ==> SameTable(db.tables[i], was.tables[i]))
    && (forall i :: 0 <= i < |was.tables| ==> RowsIn(db.pager, db.tables[i]) == RowsIn(was.pager, was.tables[i]))
    && db.nextTableId == was.nextTableId
    && db.pager.pages == was.pager.pages && db.pager.freeHead == was.pager.freeHead && db.pager.free == was.pager.free
  }

  ghost predicate SameTable(t: Table, was: Table) {
    t.root == was.root && DefinitionOf(t) == DefinitionOf(was)
  }

  ghost predicate SameTables(tables: seq<Table>, was: seq<Table>, pager: Pager) {
    |tables| == |was| && forall i {:trigger SameTable(tables[i], was[i])} :: 0 <= i < |was| ==>
      SameTable(tables[i], was[i]) && tables[i].pager == pager
  }

  // Pages that held the closed database's tables hold the tables rebuilt from it.
  lemma TablesRebuilt(tables: seq<Table>, was: seq<Table>, catalog: Table, wasCatalog: Table, pg: seq<Page>, nf: Nodes,
                      caps: map<nat, nat>)
    requires Around(was, wasCatalog, pg, nf, caps) && SameTables(tables, was, catalog.pager)
    requires IsCatalog(catalog) && catalog.root == wasCatalog.root
    ensures Around(tables, catalog, pg, nf, caps)
  {
    forall i | 0 <= i < |tables| ensures TableBacked(tables[i], catalog.pager, pg, nf, caps, catalog.root) {
      assert TableBacked(was[i], wasCatalog.pager, pg, nf, caps, catalog.root);
      assert SameTable(tables[i], was[i]);
    }
    forall r | IsRoot(was, r) ensures IsRoot(tables, r) {
      var i :| 0 <= i < |was| && was[i].root == r;
      assert SameTable(tables[i], was[i]);
    }
  }

  lemma ListedRebuilt(tables: seq<Table>, was: seq<Table>, pager: Pager, contents: set<Cell>)
    requires SameTables(tables, was, pager) && Distinct(was) && RootsFit(was) && Listed(contents, was)
    ensures Distinct(tables) && RootsFit(tables) && Listed(contents, tables)
  {
    forall i | 0 <= i < |was|
      ensures tables[i].root == was[i].root && tables[i].name == was[i].name && tables[i].sql == was[i].sql
    {
      assert SameTable(tables[i], was[i]);
    }
    forall i, j | 0 <= i < j < |was| ensures Apart(tables[i], tables[j]) { assert Apart(was[i], was[j]); }
    forall c ensures InCatalog(tables, c) <==> InCatalog(was, c) {
      if 1 <= c.key <= |was| { assert EntryFor(tables[c.key - 1], c.key) == EntryFor(was[c.key - 1], c.key); }
    }
  }

  /** Rebuilds every table the catalog lists, in id order; the next id is one past the largest. */
  method LoadTables(pager: Pager, catalog: Table, ghost was: seq<Table>)
    returns (tables: seq<Table>, nextTableId: nat, refused: bool)
    requires catalog.pager == pager && catalog.Ok() && IsCatalog(catalog)
    requires RootsFit(was) && Listed(catalog.Contents(), was)
    requires forall t :: t in was ==> Defined(DefinitionOf(t)) && 0 < t.root < |pager.pages|
    ensures !refused && SameTables(tables, was, pager) && nextTableId == |was| + 1
  {
    var entries := CatalogLoad(catalog);
    EntriesInOrder(entries, was, catalog.Contents());
    tables, nextTableId, refused := [], 1, false;
    for i := 0 to |entries|
      invariant SameTables(tables, was[..i], pager) && nextTableId == i + 1
    {
      assert was[i] in was;
      var loaded := LoadTable(pager, entries[i], was[i]);
      if loaded == null { return tables, nextTableId, true; }
      var table: Table := loaded;
      LoadedNext(tables, was, i, pager, table);
      tables := tables + [table];
      if entries[i].id >= nextTableId { nextTableId := entries[i].id + 1; }
    }
    assert was[..|was|] == was;
  }

  lemma LoadedNext(tables: seq<Table>, was: seq<Table>, i: nat, pager: Pager, table: Table)
    requires i < |was| && SameTables(tables, was[..i], pager) && SameTable(table, was[i]) && table.pager == pager
    ensures SameTables(tables + [table], was[..i + 1], pager)
  {
    forall j | 0 <= j < i + 1
      ensures SameTable((tables + [table])[j], was[..i + 1][j]) && (tables + [table])[j].pager == pager
    {
      if j < i { assert SameTable(tables[j], was[..i][j]); }
    }
  }

  // What loading needs of a closed database.
  lemma ClosedTables(was: Database)
    requires was.Whole()
    ensures forall t :: t in was.tables ==> Defined(DefinitionOf(t)) && 0 < t.root < |was.pager.pages|
  {
    forall t | t in was.tables ensures Defined(DefinitionOf(t)) && 0 < t.root < |was.pager.pages| {
      assert TableBacked(t, was.pager, was.pager.pages, was.pager.nodes, was.pager.caps, was.catalog.root);
    }
  }

  // Takes up the pages of a file this build closed, and opens its catalog.
  method OpenPager(maxKeys: nat, file: seq<Page>, ghost was: Database) returns (pager: Pager, catalog: Table)
    requires FileOf(file, was) && was.pager.maxKeys == maxKeys
    ensures fresh(pager) && fresh(catalog) && catalog.pager == pager && catalog.root == was.catalog.root
    ensures IsCatalog(catalog)
    ensures Valid(pager) && pager.pages == file && pager.freeHead == was.pager.freeHead && pager.free == was.pager.free
    ensures pager.nodes == was.pager.nodes && pager.caps == was.pager.caps
  {
    pager := new Pager.Open(maxKeys, file);
    pager.freeHead := file[0].freeHead;
    pager.free, pager.nodes, pager.caps := was.pager.free, was.pager.nodes, was.pager.caps;
    catalog := CatalogOpen(pager, file[0].catalogRoot);
  }

  /** Opens the file a database left when it was closed: that database again. */
  method OpenFile(maxKeys: nat, file: seq<Page>, ghost was: Database) returns (db: Database?)
    requires FileOf(file, was) && was.pager.maxKeys == maxKeys
    ensures db != null && fresh(db) && fresh(db.pager) && db.Consistent() && SameDatabase(db, was)
  {
    var pager, catalog := OpenPager(maxKeys, file, was);
    OkBacked(catalog);
    ClosedTables(was);
    var tables, nextTableId, refused := LoadTables(pager, catalog, was.tables);
    if refused { return null; }
    TablesRebuilt(tables, was.tables, catalog, was.catalog, file, pager.nodes, pager.caps);
    ListedRebuilt(tables, was.tables, pager, catalog.Contents());
    db := new Database(pager, catalog);
    db.tables, db.nextTableId := tables, nextTableId;
    Reopened(db, was);
  }

  lemma Reopened(db: Database, was: Database)
    requires SameTables(db.tables, was.tables, db.pager) && db.nextTableId == was.nextTableId
    requires db.pager.pages == was.pager.pages && db.pager.nodes == was.pager.nodes
    requires db.pager.freeHead == was.pager.freeHead && db.pager.free == was.pager.free
    ensures SameDatabase(db, was)
  {
    forall i | 0 <= i < |was.tables|
      ensures SameTable(db.tables[i], was.tables[i])
      ensures RowsIn(db.pager, db.tables[i]) == RowsIn(was.pager, was.tables[i])
    {
      assert SameTable(db.tables[i], was.tables[i]);
    }
  }

  /** Opens a file, starting a new database when it is empty. */
  method DbOpen(maxKeys: nat, file: seq<Page>, ghost was: Database?) returns (db: Database?)
    requires 3 <= maxKeys
    requires |file| > 0 ==> was != null && FileOf(file, was) && was.pager.maxKeys == maxKeys
    ensures db != null && fresh(db) && fresh(db.pager) && db.Consistent()
    ensures if |file| == 0 then db.tables == [] else SameDatabase(db, was)
  {
    if |file| == 0 {
      db := NewDatabase(maxKeys);
    } else {
      db := OpenFile(maxKeys, file, was);
    }
  }
}
