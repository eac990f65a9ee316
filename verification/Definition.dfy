/** Checking a CREATE TABLE, and the canonical text the catalog keeps of it. */
module Definitions {
  import opened Pages
  import opened Tokens
  import opened Parsing
  import opened Lexing
  import opened Records
  import Tables

  const TABLE_NAME_MAX_LENGTH: nat := 64
  const TABLE_SQL_MAX_LENGTH: nat := 1024
  const TABLE_MIN_ROWS_PER_LEAF: nat := 3

  datatype TableDefinition = TableDefinition(name: Text, schema: Schema, keyColumnId: nat, sql: Text)

  // ------------------------------------------------------------ the canonical text

  function SignedDecimal(n: int): Text {
    if n < 0 then ['-'] + Decimal(-n) else Decimal(n)
  }

  function TypeSql(kind: ColumnTypeAst): Text {
    match kind
    case IntType => "INT"
    case TextType(width, _) => "TEXT(" + SignedDecimal(width) + ")"
  }

  function ColumnSql(c: ColumnAst): Text {
    c.name + " " + TypeSql(c.kind) + (if c.primaryKey then " PRIMARY KEY" else "")
  }

  // The columns from one on, each but the table's first after a comma.
  function ColumnsSql(columns: seq<ColumnAst>, first: bool): Text {
    if |columns| == 0 then ""
    else (if first then "" else ", ") + ColumnSql(columns[0]) + ColumnsSql(columns[1..], false)
  }

  // Upper-case keywords and single spaces; names keep the spelling they were given.
  function CanonicalText(ast: CreateTableAst): Text {
    "CREATE TABLE " + ast.tableName + " (" + ColumnsSql(ast.columns, true) + ")"
  }

  // A heap buffer that doubles until what is appended, and a terminator, fit.
  class TextBuffer {
    var data: array<Byte>
    var length: nat

    constructor ()
      ensures Valid() && fresh(data) && Contents() == []
    {
      data := new Byte[64](_ => '\0');
      length := 0;
    }

    ghost predicate Valid()
      reads this
    {
      length < data.Length
    }

    ghost function Contents(): Text
      reads this, data
      requires Valid()
    {
      data[..length]
    }

    method Append(text: Text)
      requires Valid()
      modifies this, data
      ensures Valid() && Contents() == old(Contents()) + text
      ensures data == old(data) || fresh(data)
    {
      var capacity := data.Length;
      while length + |text| + 1 > capacity
        invariant capacity >= data.Length > 0
        decreases length + |text| + 1 - capacity
      {
        capacity := capacity * 2;
      }
      if capacity != data.Length {
        var grown := new Byte[capacity](_ => '\0');
        forall i | 0 <= i < length { grown[i] := data[i]; }
        data := grown;
      }
      forall i | 0 <= i < |text| { data[length + i] := text[i]; }
      length := length + |text|;
      assert data[..length] == old(data[..length]) + text;
    }
  }

  method CanonicalSql(ast: CreateTableAst) returns (sql: Text)
    ensures sql == CanonicalText(ast)
  {
    sql := Assemble("CREATE TABLE " + ast.tableName + " (", ast.columns, ")");
  }

  method Assemble(start: Text, columns: seq<ColumnAst>, end: Text) returns (sql: Text)
    ensures sql == start + ColumnsSql(columns, true) + end
  {
    var buffer := new TextBuffer();
    buffer.Append(start);
    assert buffer.Contents() == start;
    AppendColumns(buffer, columns);
    buffer.Append(end);
    assert buffer.Contents() == start + ColumnsSql(columns, true) + end;
    sql := buffer.data[..buffer.length];
  }

  method AppendColumns(buffer: TextBuffer, columns: seq<ColumnAst>)
    requires buffer.Valid()
    modifies buffer, buffer.data
    ensures buffer.Valid() && (buffer.data == old(buffer.data) || fresh(buffer.data))
    ensures buffer.Contents() == old(buffer.Contents()) + ColumnsSql(columns, true)
  {
    ghost var before := buffer.Contents();
    for i := 0 to |columns|
      invariant buffer.Valid() && (buffer.data == old(buffer.data) || fresh(buffer.data))
      invariant before + ColumnsSql(columns, true) == buffer.Contents() + ColumnsSql(columns[i..], i == 0)
    {
      ColumnAppended(columns, i, buffer.Contents());
      AppendColumn(buffer, columns[i], i > 0);
    }
  }

  method AppendColumn(buffer: TextBuffer, column: ColumnAst, comma: bool)
    requires buffer.Valid()
    modifies buffer, buffer.data
    ensures buffer.Valid() && (buffer.data == old(buffer.data) || fresh(buffer.data))
    ensures buffer.Contents() == old(buffer.Contents()) + ((if comma then ", " else "") + ColumnSql(column))
  {
    var separator: Text := if comma then ", " else "";
    var key: Text := if column.primaryKey then " PRIMARY KEY" else "";
    ghost var before := buffer.Contents();
    buffer.Append(separator + column.name + " ");
    buffer.Append(TypeSql(column.kind));
    buffer.Append(key);
    Regroup(before, separator, column.name, " ", TypeSql(column.kind), key);
  }

  lemma Regroup(a: Text, b: Text, c: Text, d: Text, e: Text, f: Text)
    ensures a + (b + c + d) + e + f == a + (b + (c + d + e + f))
  {
  }

  lemma ColumnAppended(columns: seq<ColumnAst>, i: nat, before: Text)
    requires i < |columns|
    ensures before + ColumnsSql(columns[i..], i == 0)
         == before + ((if i > 0 then ", " else "") + ColumnSql(columns[i])) + ColumnsSql(columns[i + 1..], false)
  {
    ColumnsSqlStep(columns[i..], i == 0);
    assert columns[i..][1..] == columns[i + 1..];
    Piecewise(before, if i == 0 then "" else ", ", ColumnSql(columns[i]), ColumnsSql(columns[i + 1..], false));
  }

  lemma Piecewise(before: Text, separator: Text, column: Text, more: Text)
    ensures before + (separator + column + more) == before + (separator + column) + more
  {
  }

  lemma ColumnsSqlStep(columns: seq<ColumnAst>, first: bool)
    requires |columns| > 0
    ensures ColumnsSql(columns, first) ==
      (if first then "" else ", ") + ColumnSql(columns[0]) + ColumnsSql(columns[1..], false)
  {
  }

  // ------------------------------------------------------------ the checks

  // What the tokenizer and the grammar guarantee of any parsed CREATE TABLE.
  predicate AstFits(ast: CreateTableAst) {
    && IsName(ast.tableName) && |ast.columns| > 0
    && forall i :: 0 <= i < |ast.columns| ==> ColumnFits(ast.columns[i])
  }

  predicate ColumnFits(c: ColumnAst) {
    && IsName(c.name)
    && (c.kind.TextType? && !c.kind.widthOutOfRange ==> 0 <= c.kind.width <= INT64_MAX)
  }

  predicate Twice(columns: seq<ColumnAst>, i: nat, j: nat)
    requires i < |columns| && j < |columns|
  {
    SameName(columns[i].name, columns[j].name)
  }

  // A TEXT column at least a byte wide and no wider than a row may be.
  predicate WidthFits(c: ColumnAst) {
    c.kind.TextType? ==>
      !c.kind.widthOutOfRange && 1 <= c.kind.width <= Tables.LeafNodeMaxRowSize(TABLE_MIN_ROWS_PER_LEAF)
  }

  function SizeOf(c: ColumnAst): int {
    if c.kind.IntType? then INT_SIZE else c.kind.width
  }

  function RowSize(columns: seq<ColumnAst>): int {
    if |columns| == 0 then 0 else RowSize(columns[..|columns| - 1]) + SizeOf(columns[|columns| - 1])
  }

  predicate OnlyKey(columns: seq<ColumnAst>, k: nat) {
    k < |columns| && columns[k].primaryKey && forall i :: 0 <= i < |columns| && columns[i].primaryKey ==> i == k
  }

  // The definitions that are accepted.
  ghost predicate Accepted(ast: CreateTableAst) {
    && |ast.tableName| <= TABLE_NAME_MAX_LENGTH
    && (forall i, j :: 0 <= j < i < |ast.columns| ==> !Twice(ast.columns, i, j))
    && (forall i :: 0 <= i < |ast.columns| ==> WidthFits(ast.columns[i]))
    && (exists k: nat :: OnlyKey(ast.columns, k) && ast.columns[k].kind.IntType?)
    && RowSize(ast.columns) <= Tables.LeafNodeMaxRowSize(TABLE_MIN_ROWS_PER_LEAF)
    && |CanonicalText(ast)| <= TABLE_SQL_MAX_LENGTH
  }

  function DeclaredOf(c: ColumnAst): Declared
    requires WidthFits(c)
  {
    Declared(c.name, if c.kind.IntType? then IntColumn else TextColumn, SizeOf(c))
  }

  function DeclaredIn(s: Schema, i: nat): Declared
    requires i < |s.columns|
  {
    Declared(s.columns[i].name, s.columns[i].kind, s.columns[i].size)
  }

  // The definition a CREATE TABLE establishes.
  ghost predicate Defines(d: TableDefinition, ast: CreateTableAst) {
    && d.name == ast.tableName && d.sql == CanonicalText(ast)
    && Laid(d.schema) && |d.schema.columns| == |ast.columns|
    && (forall i :: 0 <= i < |ast.columns| ==>
          && WidthFits(ast.columns[i])
          && DeclaredIn(d.schema, i) == DeclaredOf(ast.columns[i]))
    && d.keyColumnId > 0 && OnlyKey(ast.columns, d.keyColumnId - 1)
  }

  lemma NameNulFree(w: Text)
    requires IsName(w)
    ensures NulFree(w)
  {
  }

  // Whether a column before the i-th has its name.
  method NamedBefore(columns: seq<ColumnAst>, i: nat) returns (found: bool)
    requires i < |columns| && forall j :: 0 <= j < |columns| ==> ColumnFits(columns[j])
    ensures found <==> exists j :: 0 <= j < i && Twice(columns, i, j)
  {
    for j := 0 to i
      invariant forall b :: 0 <= b < j ==> !Twice(columns, i, b)
    {
      NameNulFree(columns[i].name);
      NameNulFree(columns[j].name);
      var same := NamesEqual(columns[i].name, columns[j].name);
      if same {
        assert Twice(columns, i, j);
        return true;
      }
    }
    return false;
  }

  method FindDuplicate(columns: seq<ColumnAst>) returns (found: bool)
    requires forall i :: 0 <= i < |columns| ==> ColumnFits(columns[i])
    ensures found <==> exists i, j :: 0 <= j < i < |columns| && Twice(columns, i, j)
  {
    for i := 0 to |columns|
      invariant forall a, b :: 0 <= b < a < i ==> !Twice(columns, a, b)
    {
      var named := NamedBefore(columns, i);
      if named { return true; }
    }
    return false;
  }

  // The only PRIMARY KEY column, if there is exactly one.
  method FindKey(columns: seq<ColumnAst>) returns (key: Option<nat>)
    ensures match key
            case Some(k) => OnlyKey(columns, k)
            case None => forall k: nat :: !OnlyKey(columns, k)
  {
    var numKeys, keyIndex := 0, 0;
    for i := 0 to |columns|
      invariant numKeys == 0 ==> forall j :: 0 <= j < i ==> !columns[j].primaryKey
      invariant numKeys == 1 ==> OnlyKey(columns[..i], keyIndex)
      invariant numKeys > 1 ==> forall k: nat :: !OnlyKey(columns, k)
    {
      if columns[i].primaryKey {
        if numKeys == 1 { assert columns[keyIndex].primaryKey == columns[..i][keyIndex].primaryKey; }
        numKeys := numKeys + 1;
        keyIndex := i;
      }
      assert columns[..i + 1][..i] == columns[..i];
    }
    assert columns[..|columns|] == columns;
    key := if numKeys == 1 then Some(keyIndex) else None;
  }

  // Whether every TEXT column has a width a row could hold, and the row as a whole fits.
  method RowFits(columns: seq<ColumnAst>, maxRowSize: int) returns (fits: bool)
    requires maxRowSize == Tables.LeafNodeMaxRowSize(TABLE_MIN_ROWS_PER_LEAF)
    requires forall i :: 0 <= i < |columns| ==> !TooNarrow(columns[i])
    ensures fits == ((forall i :: 0 <= i < |columns| ==> WidthFits(columns[i])) && RowSize(columns) <= maxRowSize)
  {
    var rowSize, tooWide := 0, false;
    for i := 0 to |columns|
      invariant tooWide <==> exists j :: 0 <= j < i && !WidthFits(columns[j])
      invariant !tooWide ==> rowSize == RowSize(columns[..i])
    {
      var column := columns[i];
      if column.kind.IntType? {
        rowSize := rowSize + INT_SIZE;
      } else if column.kind.widthOutOfRange || column.kind.width > maxRowSize {
        assert !WidthFits(columns[i]);
        tooWide := true;
      } else {
        rowSize := rowSize + column.kind.width;
      }
      assert columns[..i + 1][..i] == columns[..i];
    }
    assert columns[..|columns|] == columns;
    fits := !tooWide && rowSize <= maxRowSize;
  }

  predicate TooNarrow(c: ColumnAst) {
    c.kind.TextType? && !c.kind.widthOutOfRange && c.kind.width < 1
  }

  method FindTooNarrow(columns: seq<ColumnAst>) returns (found: bool)
    ensures found == exists i :: 0 <= i < |columns| && TooNarrow(columns[i])
  {
    for i := 0 to |columns|
      invariant forall j :: 0 <= j < i ==> !TooNarrow(columns[j])
    {
      if TooNarrow(columns[i]) { return true; }
    }
    return false;
  }

  method DeclareColumns(columns: seq<ColumnAst>) returns (declared: seq<Declared>)
    requires forall i :: 0 <= i < |columns| ==> WidthFits(columns[i])
    ensures |declared| == |columns| && forall i :: 0 <= i < |columns| ==> declared[i] == DeclaredOf(columns[i])
  {
    declared := [];
    for i := 0 to |columns|
      invariant |declared| == i && forall j :: 0 <= j < i ==> declared[j] == DeclaredOf(columns[j])
    {
      declared := declared + [DeclaredOf(columns[i])];
    }
  }

  /** Checks a definition and, only if every check passes, builds it. */
  method TableDefinitionFromAst(ast: CreateTableAst) returns (definition: Option<TableDefinition>)
    requires AstFits(ast)
    ensures definition.Some? <==> Accepted(ast)
    ensures definition.Some? ==> Defines(definition.value, ast)
  {
    if |ast.tableName| > TABLE_NAME_MAX_LENGTH { return None; }
    var duplicate := FindDuplicate(ast.columns);
    if duplicate { return None; }
    var narrow := FindTooNarrow(ast.columns);
    if narrow { return None; }
    var key := FindKey(ast.columns);
    if key.None? { return None; }
    if !ast.columns[key.value].kind.IntType? {
      forall k: nat | OnlyKey(ast.columns, k) ensures k == key.value { assert ast.columns[k].primaryKey; }
      return None;
    }
    var fits := RowFits(ast.columns, Tables.LeafNodeMaxRowSize(TABLE_MIN_ROWS_PER_LEAF));
    if !fits { return None; }
    var sql := CanonicalSql(ast);
    if |sql| > TABLE_SQL_MAX_LENGTH { return None; }
    var built := BuildDefinition(ast, key.value, sql);
    definition := Some(built);
  }

  // Puts together a definition that has passed the checks.
  method BuildDefinition(ast: CreateTableAst, key: nat, sql: Text) returns (definition: TableDefinition)
    requires OnlyKey(ast.columns, key) && sql == CanonicalText(ast)
    requires forall i :: 0 <= i < |ast.columns| ==> WidthFits(ast.columns[i])
    ensures Defines(definition, ast)
  {
    var declared := DeclareColumns(ast.columns);
    var schema := SchemaCreate(declared);
    definition := TableDefinition(ast.tableName, schema, key + 1, sql);
    forall i | 0 <= i < |ast.columns| ensures DeclaredIn(schema, i) == DeclaredOf(ast.columns[i]) {
      assert declared[i] == DeclaredOf(ast.columns[i]);
    }
  }

  // ------------------------------------------------------------ what a definition guarantees

  // A laid-out column is settled by what was declared and where it begins.
  lemma ColumnSame(c: Column, c': Column)
    requires c.id == c'.id && c.offset == c'.offset
    requires Declared(c.name, c.kind, c.size) == Declared(c'.name, c'.kind, c'.size)
    ensures c == c'
  {
  }

  lemma {:induction false} LaidSame(s: Schema, s': Schema, n: nat)
    requires Laid(s) && Laid(s') && n <= |s.columns| == |s'.columns|
    requires forall i :: 0 <= i < |s.columns| ==> DeclaredIn(s, i) == DeclaredIn(s', i)
    ensures EndOf(s, n) == EndOf(s', n) && forall i :: 0 <= i < n ==> s.columns[i] == s'.columns[i]
  {
    if n > 0 {
      LaidSame(s, s', n - 1);
      ColumnStart(s, n - 1);
      ColumnStart(s', n - 1);
      assert DeclaredIn(s, n - 1) == DeclaredIn(s', n - 1);
      ColumnSame(s.columns[n - 1], s'.columns[n - 1]);
    }
  }

  // One CREATE TABLE establishes one definition, column offsets and all.
  lemma DefinitionUnique(d: TableDefinition, d': TableDefinition, ast: CreateTableAst)
    requires Defines(d, ast) && Defines(d', ast)
    ensures d == d'
  {
    forall i | 0 <= i < |ast.columns| ensures DeclaredIn(d.schema, i) == DeclaredIn(d'.schema, i) {
      assert DeclaredIn(d.schema, i) == DeclaredOf(ast.columns[i]) == DeclaredIn(d'.schema, i);
    }
    SchemaSame(d.schema, d'.schema);
    assert ast.columns[d.keyColumnId - 1].primaryKey;
  }

  lemma SchemaSame(s: Schema, s': Schema)
    requires Laid(s) && Laid(s') && |s.columns| == |s'.columns|
    requires forall i :: 0 <= i < |s.columns| ==> DeclaredIn(s, i) == DeclaredIn(s', i)
    ensures s == s'
  {
    LaidSame(s, s', |s.columns|);
    ColumnStart(s, |s.columns|);
    ColumnStart(s', |s.columns|);
    assert s.columns == s'.columns;
  }

  /** A definition's columns are those declared, in order: an INT takes 4 bytes, a TEXT as many as it says. */
  lemma ColumnsAsDeclared(d: TableDefinition, ast: CreateTableAst, i: nat)
    requires Defines(d, ast) && i < |ast.columns|
    ensures |d.schema.columns| == |ast.columns|
    ensures var c, declared := d.schema.columns[i], ast.columns[i];
      && c.id == i + 1 && c.name == declared.name
      && (declared.kind.IntType? ==> c.kind == IntColumn && c.size == 4)
      && (declared.kind.TextType? ==> c.kind == TextColumn && c.size == declared.kind.width)
    ensures d.keyColumnId == i + 1 <==> ast.columns[i].primaryKey
  {
    assert DeclaredIn(d.schema, i) == DeclaredOf(ast.columns[i]);
  }

  // Where the first n columns end.
  function EndOf(s: Schema, n: nat): nat
    requires n <= |s.columns|
  {
    if n == 0 then 0 else s.columns[n - 1].offset + s.columns[n - 1].size
  }

  lemma ColumnStart(s: Schema, n: nat)
    requires Laid(s) && n <= |s.columns|
    ensures EndOf(s, n) == if n == |s.columns| then s.rowSize else s.columns[n].offset
  {
  }

  lemma RowSizeNext(columns: seq<ColumnAst>, n: nat)
    requires n < |columns|
    ensures RowSize(columns[..n + 1]) == RowSize(columns[..n]) + SizeOf(columns[n])
  {
    assert columns[..n + 1][..n] == columns[..n];
  }

  lemma {:induction false} RowSizeIsOffset(s: Schema, columns: seq<ColumnAst>, n: nat)
    requires Laid(s) && |s.columns| == |columns| && n <= |columns|
    requires forall i :: 0 <= i < |columns| ==> s.columns[i].size == SizeOf(columns[i])
    ensures RowSize(columns[..n]) == EndOf(s, n)
  {
    if n > 0 {
      RowSizeIsOffset(s, columns, n - 1);
      RowSizeNext(columns, n - 1);
      ColumnStart(s, n - 1);
    }
  }

  /** An accepted table's rows fit a leaf at least three times, and its key is an INT column. */
  lemma AcceptedFits(d: TableDefinition, ast: CreateTableAst)
    requires Accepted(ast) && Defines(d, ast)
    ensures Tables.LeafNodeMaxCells(d.schema.rowSize) >= TABLE_MIN_ROWS_PER_LEAF
    ensures 1 <= d.keyColumnId <= |d.schema.columns| && d.schema.columns[d.keyColumnId - 1].kind.IntColumn?
  {
    forall i | 0 <= i < |ast.columns| ensures d.schema.columns[i].size == SizeOf(ast.columns[i]) {
      assert DeclaredIn(d.schema, i) == DeclaredOf(ast.columns[i]);
    }
    RowSizeIsOffset(d.schema, ast.columns, |ast.columns|);
    ColumnStart(d.schema, |ast.columns|);
    assert ast.columns[..|ast.columns|] == ast.columns;
    Tables.CapacityExact(d.schema.rowSize, TABLE_MIN_ROWS_PER_LEAF);
    var k: nat :| OnlyKey(ast.columns, k) && ast.columns[k].kind.IntType?;
    assert ast.columns[k].primaryKey;
    assert DeclaredIn(d.schema, k).kind.IntColumn?;
  }

  // ------------------------------------------------------------ the rules, in numbers

  lemma {:induction false} WidestWithin(columns: seq<ColumnAst>, i: nat)
    requires i < |columns| && forall j :: 0 <= j < |columns| ==> 0 <= SizeOf(columns[j])
    ensures 0 <= SizeOf(columns[i]) <= RowSize(columns)
  {
    var n := |columns| - 1;
    if n > 0 { WidestWithin(columns[..n], if i < n then i else 0); }
  }

  // No two columns have the same name, case aside.
  predicate NamesDiffer(columns: seq<ColumnAst>) {
    forall i, j :: 0 <= i < j < |columns| ==> !SameName(columns[i].name, columns[j].name)
  }

  predicate WidthsPositive(columns: seq<ColumnAst>) {
    forall i :: 0 <= i < |columns| && columns[i].kind.TextType? ==>
      !columns[i].kind.widthOutOfRange && 1 <= columns[i].kind.width
  }

  // One column is the PRIMARY KEY, no other is, and it is an INT.
  predicate OneIntKey(columns: seq<ColumnAst>) {
    exists k :: 0 <= k < |columns| && columns[k] == ColumnAst(columns[k].name, IntType, true)
             && forall i :: 0 <= i < |columns| && i != k ==> !columns[i].primaryKey
  }

  // Three rows and their 4-byte keys, each rounded up to 4 bytes, fit a page of 4096 after its header of 16.
  predicate ThreeFit(columns: seq<ColumnAst>)
  {
    16 + 3 * ((4 + RowSize(columns) + 3) / 4 * 4) <= 4096
  }

  lemma WidthsWithin(columns: seq<ColumnAst>)
    ensures (forall i :: 0 <= i < |columns| ==> WidthFits(columns[i])) && RowSize(columns) <= 1356 <==>
      WidthsPositive(columns) && ThreeFit(columns)
  {
    assert Tables.LeafNodeMaxRowSize(TABLE_MIN_ROWS_PER_LEAF) == 1356;
    assert ThreeFit(columns) <==> RowSize(columns) <= 1356;
    if WidthsPositive(columns) && RowSize(columns) <= 1356 {
      forall i | 0 <= i < |columns| ensures WidthFits(columns[i]) { WidestWithin(columns, i); }
    }
    if forall i :: 0 <= i < |columns| ==> WidthFits(columns[i]) {
      assert WidthsPositive(columns) by {
        forall i | 0 <= i < |columns| && columns[i].kind.TextType?
          ensures !columns[i].kind.widthOutOfRange && 1 <= columns[i].kind.width
        {
          assert WidthFits(columns[i]);
        }
      }
    }
  }

  lemma KeyChosen(columns: seq<ColumnAst>)
    ensures (exists k: nat :: OnlyKey(columns, k) && columns[k].kind.IntType?) <==> OneIntKey(columns)
  {
    if k: nat :| OnlyKey(columns, k) && columns[k].kind.IntType? {
      assert columns[k] == ColumnAst(columns[k].name, IntType, true);
    }
    if OneIntKey(columns) {
      var k: nat :| k < |columns| && columns[k] == ColumnAst(columns[k].name, IntType, true)
             && forall i :: 0 <= i < |columns| && i != k ==> !columns[i].primaryKey;
      assert OnlyKey(columns, k);
    }
  }

  /** A CREATE TABLE is accepted exactly when its name has at most 64 bytes, its columns have different names, each
      TEXT has a width, one INT column alone is the PRIMARY KEY, three rows fit a page, and its canonical text has
      at most 1024 bytes. */
  lemma AcceptedExactly(ast: CreateTableAst)
    ensures Accepted(ast) <==>
      && |ast.tableName| <= 64 && |CanonicalText(ast)| <= 1024
      && NamesDiffer(ast.columns) && OneIntKey(ast.columns) && WidthsPositive(ast.columns) && ThreeFit(ast.columns)
  {
    WidthsWithin(ast.columns);
    KeyChosen(ast.columns);
    var columns := ast.columns;
    assert (forall i, j :: 0 <= j < i < |columns| ==> !Twice(columns, i, j)) <==> NamesDiffer(columns) by {
      SameNameEitherWay(columns);
    }
  }

  lemma SameNameEitherWay(columns: seq<ColumnAst>)
    ensures forall i, j :: 0 <= j < i < |columns| ==>
      (Twice(columns, i, j) <==> SameName(columns[j].name, columns[i].name))
  {
  }
}
