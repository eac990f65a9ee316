/** The catalog: the table of tables, one row for each. */
module Catalogs {
  import opened Pages
  import opened Fill
  import opened Tokens
  import opened Parsing
  import opened Lexing
  import opened Records
  import opened Expressions
  import opened Planner
  import opened Cursors
  import opened Tables
  import opened Executor
  import opened Definitions
  import opened Canonical
  import Pagers

  const CATALOG_SQL: Text :=
    "CREATE TABLE mini_sql_catalog (" + "id INT PRIMARY KEY, " + "name TEXT(64), " + "root_page INT, " +
      "sql TEXT(1024))"

  // ------------------------------------------------------------ the catalog's own definition

  const CATALOG_AST: CreateTableAst := CreateTableAst("mini_sql_catalog", [
    ColumnAst("id", IntType, true), ColumnAst("name", TextType(64, false), false),
    ColumnAst("root_page", IntType, false), ColumnAst("sql", TextType(1024, false), false)])

  const CATALOG_SCHEMA: Schema := Schema([
    Column(1, "id", IntColumn, 4, 0), Column(2, "name", TextColumn, 64, 4),
    Column(3, "root_page", IntColumn, 4, 68), Column(4, "sql", TextColumn, 1024, 72)], 1096)

  const CATALOG_DEFINITION: TableDefinition := TableDefinition("mini_sql_catalog", CATALOG_SCHEMA, 1, CATALOG_SQL)

  // A word shaped like no keyword, by its length or its first letter.
  lemma NotKeyword(word: Text, i: nat)
    requires i <= |KEYWORDS|
    requires forall k :: i <= k < |KEYWORDS| ==> Lower(word) != KEYWORDS[k].0
    ensures KeywordFrom(word, i) == IdentifierToken
    decreases |KEYWORDS| - i
  {
    if i < |KEYWORDS| { NotKeyword(word, i + 1); }
  }

  lemma FreeWord(word: Text)
    requires WordShaped(word) && |word| in {2, 3, 4, 9, 16} && LowerChar(word[0]) in {'i', 'n', 'r', 's', 'm'}
    requires |word| == 3 ==> LowerChar(word[0]) == 's'
    requires |word| == 4 ==> LowerChar(word[0]) == 'n'
    ensures IsName(word)
  {
    forall k | 0 <= k < |KEYWORDS| ensures Lower(word) != KEYWORDS[k].0 {
      assert Lower(word)[0] == LowerChar(word[0]);
    }
    NotKeyword(word, 0);
  }

  lemma CatalogName()
    ensures IsName("mini_sql_catalog")
  {
    FreeWord("mini_sql_catalog");
  }

  lemma ColumnNames()
    ensures IsName("id") && IsName("name") && IsName("sql")
  {
    FreeWord("id");
    FreeWord("name");
    FreeWord("sql");
  }

  lemma RootPageName()
    ensures IsName("root_page")
  {
    FreeWord("root_page");
  }

  lemma WidthsPrinted()
    ensures SignedDecimal(64) == "64" && SignedDecimal(1024) == "1024"
  {
    assert Decimal(6) == "6" && Decimal(64) == Decimal(6) + [Digit(4)];
    assert Decimal(1) == "1" && Decimal(10) == Decimal(1) + [Digit(0)] && Decimal(102) == Decimal(10) + [Digit(2)]
        && Decimal(1024) == Decimal(102) + [Digit(4)];
  }

  lemma FirstColumn(c: ColumnAst, more: seq<ColumnAst>)
    ensures ColumnsSql([c] + more, true) == ColumnSql(c) + ColumnsSql(more, false)
  {
    ColumnsSqlStep([c] + more, true);
    assert ([c] + more)[1..] == more;
    assert [] + ColumnSql(c) == ColumnSql(c);
  }

  lemma NextColumn(c: ColumnAst, more: seq<ColumnAst>)
    ensures ColumnsSql([c] + more, false) == ", " + ColumnSql(c) + ColumnsSql(more, false)
  {
    ColumnsSqlStep([c] + more, false);
    assert ([c] + more)[1..] == more;
  }

  lemma FourColumns(a: ColumnAst, b: ColumnAst, c: ColumnAst, d: ColumnAst)
    ensures ColumnsSql([a] + ([b] + ([c] + ([d] + []))), true)
         == ColumnSql(a) + (", " + ColumnSql(b) + (", " + ColumnSql(c) + (", " + ColumnSql(d) + [])))
  {
    FirstColumn(a, [b] + ([c] + ([d] + [])));
    NextColumn(b, [c] + ([d] + []));
    NextColumn(c, [d] + []);
    NextColumn(d, []);
  }

  lemma IntColumnTexts()
    ensures ColumnSql(CATALOG_AST.columns[0]) == "id INT PRIMARY KEY"
    ensures ColumnSql(CATALOG_AST.columns[2]) == "root_page INT"
  {
  }

  lemma NameColumnText()
    ensures ColumnSql(CATALOG_AST.columns[1]) == "name TEXT(64)"
  {
    WidthsPrinted();
  }

  lemma SqlColumnText()
    ensures ColumnSql(CATALOG_AST.columns[3]) == "sql TEXT(1024)"
  {
    WidthsPrinted();
  }

  lemma Pieces(head: Text, comma: Text, a: Text, b: Text, c: Text, d: Text, close: Text)
    ensures head + (a + (comma + b + (comma + c + (comma + d + [])))) + close
         == head + (a + comma) + (b + comma) + (c + comma) + (d + close)
  {
  }

  lemma CatalogPieces()
    ensures "CREATE TABLE " + "mini_sql_catalog" + " (" == "CREATE TABLE mini_sql_catalog ("
    ensures "id INT PRIMARY KEY" + ", " == "id INT PRIMARY KEY, "
    ensures "name TEXT(64)" + ", " == "name TEXT(64), " && "root_page INT" + ", " == "root_page INT, "
    ensures "sql TEXT(1024)" + ")" == "sql TEXT(1024))"
  {
  }

  // The catalog's definition is written in canonical form.
  lemma CatalogCanonical()
    ensures CanonicalText(CATALOG_AST) == CATALOG_SQL
  {
    var c := CATALOG_AST.columns;
    assert c == [c[0]] + ([c[1]] + ([c[2]] + ([c[3]] + [])));
    FourColumns(c[0], c[1], c[2], c[3]);
    IntColumnTexts();
    NameColumnText();
    SqlColumnText();
    CatalogPieces();
    Pieces("CREATE TABLE mini_sql_catalog (", ", ", ColumnSql(c[0]), ColumnSql(c[1]), ColumnSql(c[2]), ColumnSql(c[3]),
           ")");
  }

  // The catalog's own text goes through the parser and the checks like any other,
  // and comes out as this definition.
  lemma CatalogDefined()
    ensures CreateStatement(Tokenize(CATALOG_SQL)) == Some(CATALOG_AST) && AstFits(CATALOG_AST)
    ensures Accepted(CATALOG_AST)
    ensures forall d :: Defines(d, CATALOG_AST) ==> d == CATALOG_DEFINITION
  {
    CatalogFits();
    CatalogCanonical();
    CanonicalReparses(CATALOG_AST);
    CatalogAccepted();
    CatalogDefinition();
  }

  lemma CatalogFits()
    ensures AstFits(CATALOG_AST) && forall i :: 0 <= i < |CATALOG_AST.columns| ==> Printable(CATALOG_AST.columns[i])
  {
    CatalogName();
    ColumnNames();
    RootPageName();
  }

  lemma CatalogDefines()
    ensures Defines(CATALOG_DEFINITION, CATALOG_AST)
  {
    CatalogCanonical();
    CatalogLaid();
    CatalogDeclared();
    assert OnlyKey(CATALOG_AST.columns, 0);
  }

  lemma CatalogDefinition()
    ensures forall d :: Defines(d, CATALOG_AST) ==> d == CATALOG_DEFINITION
  {
    CatalogDefines();
    forall d | Defines(d, CATALOG_AST) ensures d == CATALOG_DEFINITION {
      DefinitionUnique(d, CATALOG_DEFINITION, CATALOG_AST);
    }
  }

  lemma CatalogLaid()
    ensures Laid(CATALOG_SCHEMA)
  {
  }

  lemma CatalogDeclared()
    ensures forall i :: 0 <= i < 4 ==>
      WidthFits(CATALOG_AST.columns[i]) && DeclaredIn(CATALOG_SCHEMA, i) == DeclaredOf(CATALOG_AST.columns[i])
  {
  }

  lemma CatalogAccepted()
    ensures Accepted(CATALOG_AST)
  {
    var c := CATALOG_AST.columns;
    CatalogCanonical();
    CatalogLength();
    assert OnlyKey(c, 0) && c[0].kind.IntType?;
    RowSizeFour(c[0], c[1], c[2], c[3]);
    assert c == [c[0], c[1], c[2], c[3]];
    CatalogApart();
    CatalogDeclared();
  }

  lemma RowSizeFour(a: ColumnAst, b: ColumnAst, c: ColumnAst, d: ColumnAst)
    ensures RowSize([a, b, c, d]) == SizeOf(a) + SizeOf(b) + SizeOf(c) + SizeOf(d)
  {
    assert [a, b, c, d][..3] == [a, b, c] && [a, b, c][..2] == [a, b] && [a, b][..1] == [a] && [a][..0] == [];
    assert RowSize([a]) == SizeOf(a);
    assert RowSize([a, b]) == RowSize([a]) + SizeOf(b);
    assert RowSize([a, b, c]) == RowSize([a, b]) + SizeOf(c);
  }

  lemma CatalogApart()
    ensures forall i, j :: 0 <= j < i < 4 ==> !Twice(CATALOG_AST.columns, i, j)
  {
    forall i, j | 0 <= j < i < 4 ensures !Twice(CATALOG_AST.columns, i, j) {
      assert |CATALOG_AST.columns[i].name| != |CATALOG_AST.columns[j].name|;
    }
  }

  lemma CatalogLength()
    ensures |CATALOG_SQL| <= TABLE_SQL_MAX_LENGTH
  {
  }

  // ------------------------------------------------------------ catalog rows

  datatype CatalogEntry = CatalogEntry(id: nat, name: Text, root: nat, sql: Text)

  const UINT32: int := 0x1_0000_0000

  // Unsigned numbers are stored in INT columns by their bits.
  function ToSigned(u: nat): (v: int)
    requires u < UINT32
    ensures INT32_MIN <= v <= INT32_MAX
  {
    if u > INT32_MAX then u - UINT32 else u
  }

  function ToUnsigned(v: int): (u: nat)
    requires INT32_MIN <= v <= INT32_MAX
    ensures u < UINT32
  {
    if v < 0 then v + UINT32 else v
  }

  predicate EntryFits(e: CatalogEntry) {
    && e.id < UINT32 && e.root < UINT32
    && |e.name| <= TABLE_NAME_MAX_LENGTH && NulFree(e.name)
    && |e.sql| <= TABLE_SQL_MAX_LENGTH && NulFree(e.sql)
  }

  function RowOf(e: CatalogEntry): (row: Row)
    requires e.id < UINT32 && e.root < UINT32
    ensures |row| == CATALOG_SCHEMA.rowSize
  {
    EncodeInt(ToSigned(e.id)) + EncodeText(e.name, 64) + EncodeInt(ToSigned(e.root)) + EncodeText(e.sql, 1024)
  }

  function EntryOf(row: Row): CatalogEntry
    requires |row| == CATALOG_SCHEMA.rowSize
  {
    CatalogEntry(ToUnsigned(DecodeInt(row[..4])), Stored(row[4..68]), ToUnsigned(DecodeInt(row[68..72])),
                 Stored(row[72..]))
  }

  /** A catalog row gives back the entry it was written from. */
  lemma EntryRoundTrip(e: CatalogEntry)
    requires EntryFits(e)
    ensures EntryOf(RowOf(e)) == e
    ensures ColumnInt(RowOf(e), CATALOG_SCHEMA, 1) == ToSigned(e.id)
  {
    IntRoundTrip(ToSigned(e.id));
    IntRoundTrip(ToSigned(e.root));
    TextRoundTrip(e.name, 64);
    TextRoundTrip(e.sql, 1024);
    RowParts(EncodeInt(ToSigned(e.id)), EncodeText(e.name, 64), EncodeInt(ToSigned(e.root)), EncodeText(e.sql, 1024));
    assert Laid(CATALOG_SCHEMA);
    assert ColumnField(RowOf(e), CATALOG_SCHEMA, 1) == RowOf(e)[..4];
  }

  lemma RowParts(a: seq<Byte>, b: seq<Byte>, c: seq<Byte>, d: seq<Byte>)
    requires |a| == 4 && |b| == 64 && |c| == 4 && |d| == 1024
    ensures var row := a + b + c + d; row[..4] == a && row[4..68] == b && row[68..72] == c && row[72..] == d
  {
  }

  // Writing the four fields into a row one after the other.
  lemma RowWritten(r0: Row, a: seq<Byte>, b: seq<Byte>, c: seq<Byte>, d: seq<Byte>)
    requires |r0| == 1096 && |a| == 4 && |b| == 64 && |c| == 4 && |d| == 1024
    ensures PutField(PutField(PutField(PutField(r0, 0, a), 4, b), 68, c), 72, d) == a + b + c + d
  {
    var r1 := PutField(r0, 0, a);
    var r2 := PutField(r1, 4, b);
    var r3 := PutField(r2, 68, c);
    assert r1[..4] == a;
    assert r2[..68] == a + b;
    assert r3[..72] == a + b + c;
  }

  // ------------------------------------------------------------ operations

  // What reading and writing entries needs of the catalog's table: its columns and its key.
  ghost predicate IsCatalog(t: Table) {
    t.schema == CATALOG_SCHEMA && t.keyId == 1
  }

  method TableCreate(pager: Pagers.Pager, root: nat, d: TableDefinition) returns (table: Table)
    ensures fresh(table) && table.pager == pager && table.root == root
    ensures TableDefinition(table.name, table.schema, table.keyId, table.sql) == d
  {
    table := new Table(pager, root, d.name, d.schema, d.keyColumnId, d.sql);
  }

  /** Builds the catalog's table from its own text, by the path any CREATE TABLE takes. */
  method CatalogOpen(pager: Pagers.Pager, root: nat) returns (catalog: Table)
    ensures fresh(catalog) && catalog.pager == pager && catalog.root == root && IsCatalog(catalog)
    ensures TableDefinition(catalog.name, catalog.schema, catalog.keyId, catalog.sql) == CATALOG_DEFINITION
  {
    CatalogDefined();
    var parser := new Parser(CATALOG_SQL);
    var ast := parser.ParseStatement();
    var definition := TableDefinitionFromAst(ast.value.create);
    catalog := TableCreate(pager, root, definition.value);
  }

  /** The catalog's column with a name, looked up rather than assumed. */
  method CatalogColumn(catalog: Table, name: Text, ghost i: nat) returns (c: Column)
    requires IsCatalog(catalog) && i < 4 && name == CATALOG_SCHEMA.columns[i].name
    ensures c == CATALOG_SCHEMA.columns[i]
  {
    CatalogColumnNames(i);
    var k := FindColumnByName(catalog.schema, name);
    assert Named(CATALOG_SCHEMA, name, i);
    c := catalog.schema.columns[k];
  }

  lemma CatalogColumnNames(i: nat)
    requires i < 4
    ensures NulFree(CATALOG_SCHEMA.columns[i].name) && NamesNulFree(CATALOG_SCHEMA)
    ensures forall k :: 0 <= k < 4 ==> (Named(CATALOG_SCHEMA, CATALOG_SCHEMA.columns[i].name, k) <==> k == i)
  {
    forall k | 0 <= k < 4 && k != i ensures !Named(CATALOG_SCHEMA, CATALOG_SCHEMA.columns[i].name, k) {
      assert |CATALOG_SCHEMA.columns[i].name| != |CATALOG_SCHEMA.columns[k].name|;
    }
  }

  // Writes an entry's fields into a zeroed row.
  method SerializeEntry(catalog: Table, e: CatalogEntry) returns (row: Row)
    requires IsCatalog(catalog) && e.id < UINT32 && e.root < UINT32
    ensures row == RowOf(e)
  {
    var payload := new Byte[1096](_ => '\0');
    ghost var zeros := payload[..];
    var c := CatalogColumn(catalog, "id", 0);
    RecordSetInt(payload, c, ToSigned(e.id));
    c := CatalogColumn(catalog, "name", 1);
    RecordSetText(payload, c, e.name);
    c := CatalogColumn(catalog, "root_page", 2);
    RecordSetInt(payload, c, ToSigned(e.root));
    c := CatalogColumn(catalog, "sql", 3);
    RecordSetText(payload, c, e.sql);
    row := payload[..];
    RowWritten(zeros, EncodeInt(ToSigned(e.id)), EncodeText(e.name, 64), EncodeInt(ToSigned(e.root)),
               EncodeText(e.sql, 1024));
  }

  /** Records a table in the catalog under an id no other table has. */
  method CatalogAdd(catalog: Table, e: CatalogEntry)
    requires catalog.Ok() && IsCatalog(catalog) && EntryFits(e) && e.id <= INT32_MAX
    requires !HasKey(catalog.Contents(), e.id)
    modifies catalog.pager
    ensures catalog.Ok() && catalog.Contents() == old(catalog.Contents()) + {Cell(e.id, RowOf(e))}
    ensures Elsewhere(old(catalog.pager.pages), old(catalog.pager.nodes), catalog.pager.pages, catalog.pager.nodes,
                      catalog.root)
    ensures catalog.pager.caps == old(catalog.pager.caps)
  {
    EntryRoundTrip(e);
    var row := SerializeEntry(catalog, e);
    var inserted := catalog.Insert(row);
    assert inserted;
  }

  method DeserializeEntry(row: Row) returns (e: CatalogEntry)
    requires |row| == CATALOG_SCHEMA.rowSize
    ensures e == EntryOf(row)
  {
    var nameLength := TextLength(row[4..68]);
    var sqlLength := TextLength(row[72..]);
    e := CatalogEntry(ToUnsigned(DecodeInt(row[..4])), row[4..68][..nameLength], ToUnsigned(DecodeInt(row[68..72])),
                      row[72..][..sqlLength]);
  }

  // Every row of the catalog, in id order, decoded.
  ghost predicate Loaded(entries: seq<CatalogEntry>, rows: seq<Cell>) {
    |entries| == |rows| && forall i :: 0 <= i < |rows| ==>
      |rows[i].row| == CATALOG_SCHEMA.rowSize && entries[i] == EntryOf(rows[i].row)
  }

  // The entries are those of all the catalog's rows, in id order.
  ghost predicate LoadedAll(entries: seq<CatalogEntry>, contents: set<Cell>) {
    exists rows :: Loaded(entries, rows) && Ascending(rows) && forall c :: c in rows <==> c in contents
  }

  /** Reads every catalog row with a cursor, in id order. */
  method CatalogLoad(catalog: Table) returns (entries: seq<CatalogEntry>)
    requires catalog.Ok() && IsCatalog(catalog)
    ensures LoadedAll(entries, catalog.Contents())
  {
    entries := [];
    ghost var rows, next := [], 0;
    var cursor := new Cursor.Find(catalog.pager, catalog.root, 0);
    StartWalk(catalog, None, 0, KEY_MAX);
    while !cursor.endOfTable
      invariant cursor.pager == catalog.pager && cursor.root == catalog.root && cursor.At(next)
      invariant Walked(catalog, None, 0, next, KEY_MAX, rows, |rows|)
      invariant Loaded(entries, rows)
      decreases KEY_MAX + 1 - next
    {
      entries, rows, next := LoadEntry(catalog, cursor, entries, rows, next);
    }
    PastEnd(catalog, cursor, next, KEY_MAX);
    WalkedAll(catalog, next, rows, |rows|);
  }

  // Decodes the row under the cursor and moves on.
  method LoadEntry(catalog: Table, cursor: Cursor, entries: seq<CatalogEntry>, ghost rows: seq<Cell>, ghost next: int)
    returns (entries': seq<CatalogEntry>, ghost rows': seq<Cell>, ghost next': int)
    requires cursor.pager == catalog.pager && cursor.root == catalog.root && cursor.At(next) && !cursor.endOfTable
    requires IsCatalog(catalog) && Walked(catalog, None, 0, next, KEY_MAX, rows, |rows|) && Loaded(entries, rows)
    modifies cursor
    ensures cursor.At(next') && Walked(catalog, None, 0, next', KEY_MAX, rows', |rows'|) && Loaded(entries', rows')
    ensures next < next'
  {
    CursorRow(catalog, cursor, next);
    var cell := catalog.pager.pages[cursor.page].cells[cursor.cell];
    ReadEntry(catalog, next, rows, cell);
    var entry := DeserializeEntry(cell.row);
    LoadedStep(entries, rows, cell);
    entries', rows', next' := entries + [entry], rows + [cell], cell.key + 1;
    cursor.Advance(next);
  }

  lemma LoadedStep(entries: seq<CatalogEntry>, rows: seq<Cell>, cell: Cell)
    requires Loaded(entries, rows) && |cell.row| == CATALOG_SCHEMA.rowSize
    ensures Loaded(entries + [EntryOf(cell.row)], rows + [cell])
  {
  }

  lemma ReadEntry(catalog: Table, next: int, rows: seq<Cell>, cell: Cell)
    requires Walked(catalog, None, 0, next, KEY_MAX, rows, |rows|)
    requires cell in catalog.Contents() && next <= cell.key <= KEY_MAX
    requires forall c :: c in catalog.Contents() && next <= c.key ==> cell.key <= c.key
    ensures Walked(catalog, None, 0, cell.key + 1, KEY_MAX, rows + [cell], |rows + [cell]|)
  {
    ReadRow(catalog, None, 0, next, KEY_MAX, rows, |rows|, cell);
  }

  lemma WalkedAll(catalog: Table, next: int, rows: seq<Cell>, n: nat)
    requires Walked(catalog, None, 0, next, KEY_MAX, rows, n) && PastHigh(catalog.Contents(), next, KEY_MAX)
    ensures forall c :: c in rows <==> c in catalog.Contents()
  {
  }
}
