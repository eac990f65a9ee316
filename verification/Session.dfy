/** Any run of lines of SQL against one database, closed and reopened at will. */
module Sessions {
  import opened Pages
  import opened Pagers
  import opened Tokens
  import opened Records
  import opened Expressions
  import opened Planner
  import opened WherePlans
  import opened Tables
  import opened Executor
  import opened Parsing
  import opened Definitions
  import opened Catalogs
  import opened Statements
  import opened LineNames
  import opened Databases
  import opened Reopening
  import Insertion

  datatype Command = Line(text: Text) | Reopen

  // What a line answers: an error, nothing, a taken key, chosen rows and the columns wanted of them, or a plan.
  datatype Outcome = Refused | Done | Duplicate | Rows(rows: seq<Cell>, columnIds: seq<nat>) | Explained(plan: Plan)

  // ------------------------------------------------------------ a database as its user sees it

  // A table: its definition and its rows.
  datatype TableView = TableView(definition: TableDefinition, rows: set<Cell>)

  ghost function View(db: Database): (v: seq<TableView>)
    reads db, db.pager
    ensures |v| == |db.tables|
    ensures forall i :: 0 <= i < |v| ==> v[i] == TableView(DefinitionOf(db.tables[i]), RowsIn(db.pager, db.tables[i]))
  {
    seq(|db.tables|, i requires 0 <= i < |db.tables| reads db, db.pager =>
      TableView(DefinitionOf(db.tables[i]), RowsIn(db.pager, db.tables[i])))
  }

  ghost predicate IsNamed(v: TableView, name: Text) {
    SameName(v.definition.name, name)
  }

  // The table a statement means: the first of that name.
  ghost predicate Means(v: seq<TableView>, name: Text, i: nat) {
    i < |v| && IsNamed(v[i], name) && forall j :: 0 <= j < i ==> !IsNamed(v[j], name)
  }

  ghost predicate NoneNamed(v: seq<TableView>, name: Text) {
    forall i :: 0 <= i < |v| ==> !IsNamed(v[i], name)
  }

  ghost predicate Keyed(d: TableDefinition) {
    && Laid(d.schema)
    && 1 <= d.keyColumnId <= |d.schema.columns| && d.schema.columns[d.keyColumnId - 1].kind.IntColumn?
  }

  // ------------------------------------------------------------ CREATE TABLE

  ghost predicate Created(v: seq<TableView>, ast: CreateTableAst, outcome: Outcome, v': seq<TableView>) {
    if !NoneNamed(v, ast.tableName) || !Accepted(ast) then outcome.Refused? && v' == v
    else
      && outcome.Done? && |v'| == |v| + 1 && v'[..|v|] == v
      && Defines(v'[|v|].definition, ast) && v'[|v|].rows == {}
  }

  // ------------------------------------------------------------ INSERT

  // The row an INSERT makes for a table: every column holds the value meant for it.
  ghost predicate Makes(d: TableDefinition, insert: InsertAst, row: Row)
    requires Keyed(d)
  {
    Insertion.RowFor(d.schema, d.keyColumnId, insert, row)
  }

  // No row could hold what the INSERT says.
  ghost predicate Unbindable(d: TableDefinition, insert: InsertAst)
    requires Keyed(d)
  {
    forall row :: !Makes(d, insert, row)
  }

  // A table once a row is inserted: unchanged if the row's key was taken.
  ghost predicate WithRow(v: TableView, row: Row, outcome: Outcome, v': TableView)
    requires Keyed(v.definition) && |row| == v.definition.schema.rowSize
  {
    var key := ColumnInt(row, v.definition.schema, v.definition.keyColumnId);
    && v'.definition == v.definition
    && outcome == (if HasKey(v.rows, key) then Duplicate else Done)
    && v'.rows == (if HasKey(v.rows, key) then v.rows else v.rows + {Cell(key, row)})
  }

  ghost predicate InsertedInto(v: seq<TableView>, i: nat, insert: InsertAst, outcome: Outcome, v': seq<TableView>)
    requires i < |v|
  {
    && Keyed(v[i].definition)
    && (Unbindable(v[i].definition, insert) ==> outcome.Refused? && v' == v)
    && (!Unbindable(v[i].definition, insert) ==>
          && |v'| == |v| && v' == v[i := v'[i]]
          && exists row :: Makes(v[i].definition, insert, row) && WithRow(v[i], row, outcome, v'[i]))
  }

  ghost predicate Inserted(v: seq<TableView>, insert: InsertAst, outcome: Outcome, v': seq<TableView>) {
    if NoneNamed(v, insert.tableName) then outcome.Refused? && v' == v
    else exists i: nat :: Means(v, insert.tableName, i) && InsertedInto(v, i, insert, outcome, v')
  }

  // ------------------------------------------------------------ SELECT and DELETE

  ghost predicate WhereFits(where: Option<ExprAst>, s: Schema) {
    where.Some? ==> WellTyped(where.value, s)
  }

  // The rows of a table that a WHERE is true of.
  ghost function Satisfying(v: TableView, where: Option<ExprAst>): set<Cell>
    requires Laid(v.definition.schema) && WhereFits(where, v.definition.schema)
  {
    set c | c in v.rows && |c.row| == v.definition.schema.rowSize
         && (where.Some? ==> True(where.value, c.row, v.definition.schema))
  }

  /** AND keeps the rows that every part keeps, OR those that some part keeps, NOT those its part does not. */
  lemma WhereAlgebra(v: TableView, a: ExprAst, more: seq<ExprAst>)
    requires Laid(v.definition.schema) && WellTyped(a, v.definition.schema)
    requires forall e :: e in more ==> WellTyped(e, v.definition.schema)
    ensures var s := v.definition.schema;
      WellTyped(AndAst([a] + more), s) && WellTyped(OrAst([a] + more), s) && WellTyped(NotAst(a), s)
    ensures Satisfying(v, Some(AndAst([a] + more))) == Satisfying(v, Some(a)) * Satisfying(v, Some(AndAst(more)))
    ensures Satisfying(v, Some(OrAst([a] + more))) == Satisfying(v, Some(a)) + Satisfying(v, Some(OrAst(more)))
    ensures Satisfying(v, Some(NotAst(a))) == Satisfying(v, None) - Satisfying(v, Some(a))
    ensures Satisfying(v, Some(AndAst([]))) == Satisfying(v, None) && Satisfying(v, Some(OrAst([]))) == {}
  {
    assert forall e :: e in [a] + more <==> e == a || e in more;
  }

  ghost function WhereBound(where: Option<ExprAst>, s: Schema): (e: Option<Expr>)
    requires Laid(s) && WhereFits(where, s)
    ensures e.Some? <==> where.Some?
    ensures e.Some? ==> Bound(e.value, s)
  {
    if where.None? then None else BindsExactly(where.value, s); BoundExpr(where.value, s)
  }

  // The plan EXPLAIN describes: it reads a row exactly if the conditions of the WHERE that compare the key
  // are true of it.
  ghost predicate PlanFor(d: TableDefinition, where: Option<ExprAst>, outcome: Outcome)
    requires Keyed(d)
  {
    && outcome.Explained? && Classified(outcome.plan)
    && forall row :: KeyedRow(row, d.schema, d.keyColumnId) ==>
         (Reads(outcome.plan, ColumnInt(row, d.schema, d.keyColumnId)) <==>
          (where.Some? ==> KeyConditionsTrue(where.value, d.keyColumnId, row, d.schema)))
  }

  // The first column with a name has this id.
  ghost predicate IdOf(s: Schema, name: Text, id: nat) {
    1 <= id <= |s.columns| && Named(s, name, id - 1) && forall j :: 0 <= j < id - 1 ==> !Named(s, name, j)
  }

  ghost predicate HasColumn(s: Schema, name: Text) {
    exists j :: 0 <= j < |s.columns| && Named(s, name, j)
  }

  ghost predicate ColumnsExist(s: Schema, names: Option<seq<Text>>) {
    names.Some? ==> forall i :: 0 <= i < |names.value| ==> HasColumn(s, names.value[i])
  }

  // The ids of the columns a SELECT wants: of all in order, or of each one named, in the order named.
  ghost predicate ColumnsWanted(s: Schema, names: Option<seq<Text>>, ids: seq<nat>) {
    match names
    case None => |ids| == |s.columns| && forall i :: 0 <= i < |ids| ==> ids[i] == i + 1
    case Some(list) => |ids| == |list| && forall i :: 0 <= i < |ids| ==> IdOf(s, list[i], ids[i])
  }

  ghost predicate SelectedFrom(v: TableView, select: SelectAst, explain: bool, outcome: Outcome) {
    var s := v.definition.schema;
    && Keyed(v.definition)
    && if !ColumnsExist(s, select.columnNames) || !WhereFits(select.where, s) then outcome.Refused?
       else if explain then PlanFor(v.definition, select.where, outcome)
       else
         && outcome.Rows? && ColumnsWanted(s, select.columnNames, outcome.columnIds)
         && Ascending(outcome.rows)
         && forall c :: c in outcome.rows <==> c in Satisfying(v, select.where)
  }

  ghost predicate Selected(v: seq<TableView>, select: SelectAst, explain: bool, outcome: Outcome) {
    if NoneNamed(v, select.tableName) then outcome.Refused?
    else exists i: nat :: Means(v, select.tableName, i) && SelectedFrom(v[i], select, explain, outcome)
  }

  ghost predicate DeletedFrom(v: seq<TableView>, i: nat, where: Option<ExprAst>, explain: bool, outcome: Outcome,
                              v': seq<TableView>)
    requires i < |v|
  {
    var d := v[i].definition;
    && Keyed(d)
    && (!WhereFits(where, d.schema) ==> outcome.Refused? && v' == v)
    && (WhereFits(where, d.schema) && explain ==> PlanFor(d, where, outcome) && v' == v)
    && (WhereFits(where, d.schema) && !explain ==>
          outcome.Done? && v' == v[i := TableView(d, v[i].rows - Satisfying(v[i], where))])
  }

  ghost predicate Deleted(v: seq<TableView>, delete: DeleteAst, explain: bool, outcome: Outcome, v': seq<TableView>) {
    if NoneNamed(v, delete.tableName) then outcome.Refused? && v' == v
    else exists i: nat :: Means(v, delete.tableName, i) && DeletedFrom(v, i, delete.where, explain, outcome, v')
  }

  // ------------------------------------------------------------ any command

  // What a parsed statement does and answers: to the one table it names and no other.
  ghost predicate Does(v: seq<TableView>, ast: Ast, outcome: Outcome, v': seq<TableView>) {
    match ast
    case EmptyTree => outcome.Done? && v' == v
    case CreateTree(create) => Created(v, create, outcome, v')
    case InsertTree(insert) => Inserted(v, insert, outcome, v')
    case SelectTree(select, explain) => Selected(v, select, explain, outcome) && v' == v
    case DeleteTree(delete, explain) => Deleted(v, delete, explain, outcome, v')
  }

  /** What one command does to a database, as its user sees it, and what it answers. */
  ghost predicate Step(v: seq<TableView>, command: Command, outcome: Outcome, v': seq<TableView>) {
    match command
    case Reopen => outcome.Done? && v' == v
    case Line(text) => exists ast :: Parses(text, ast) && LineDoes(v, ast, outcome, v')
  }

  // The statement a line holds, or that it holds none.
  ghost predicate Parses(text: Text, ast: Option<Ast>) {
    ast == StatementOf(Tokenize(text))
  }

  // A line that does not parse is refused and does nothing.
  ghost predicate LineDoes(v: seq<TableView>, ast: Option<Ast>, outcome: Outcome, v': seq<TableView>) {
    if ast.None? then outcome.Refused? && v' == v else Does(v, ast.value, outcome, v')
  }

  // ------------------------------------------------------------ finding the table

  lemma DefinedColumns(d: TableDefinition)
    requires Defined(d)
    ensures NamesNulFree(d.schema) && Keyed(d)
  {
    DefinedFits(d);
    var ast :| AstFits(ast) && Accepted(ast) && Defines(d, ast);
    forall i | 0 <= i < |d.schema.columns| ensures NulFree(d.schema.columns[i].name) {
      assert DeclaredIn(d.schema, i) == DeclaredOf(ast.columns[i]);
      NameNulFree(ast.columns[i].name);
    }
  }

  // Naming a table among the open ones and among what the user sees is the same.
  lemma NamedInView(db: Database, name: Text)
    ensures NameTaken(db.tables, name) <==> !NoneNamed(View(db), name)
  {
    if NameTaken(db.tables, name) {
      var i :| 0 <= i < |db.tables| && SameName(db.tables[i].name, name);
      assert IsNamed(View(db)[i], name);
    }
    if !NoneNamed(View(db), name) {
      var i :| 0 <= i < |View(db)| && IsNamed(View(db)[i], name);
      assert SameName(db.tables[i].name, name);
    }
  }

  // The i-th table is fit for work, and is open once only.
  ghost predicate Ready(db: Database, i: nat)
    reads db, db.pager
  {
    && i < |db.tables| && db.tables[i].pager == db.pager && NamesNulFree(db.tables[i].schema)
    && Keyed(DefinitionOf(db.tables[i]))
    && forall j :: 0 <= j < |db.tables| && j != i ==> db.tables[j] != db.tables[i]
  }

  lemma TableReady(db: Database, i: nat)
    requires db.Consistent() && i < |db.tables|
    ensures Ready(db, i)
  {
    db.Inside();
    db.TablesOk();
    assert db.tables[i] in db.tables;
    assert TableBacked(db.tables[i], db.pager, db.pager.pages, db.pager.nodes, db.pager.caps, db.catalog.root);
    DefinedColumns(DefinitionOf(db.tables[i]));
    forall j | 0 <= j < |db.tables| && j != i ensures db.tables[j] != db.tables[i] {
      assert if i < j then Apart(db.tables[i], db.tables[j]) else Apart(db.tables[j], db.tables[i]);
    }
  }

  // Resolves a statement's table; -1 when there is none of that name.
  method BindTable(db: Database, name: Text) returns (i: int)
    requires db.Consistent() && NulFree(name)
    ensures -1 <= i < |db.tables| && (i < 0 <==> NoneNamed(View(db), name))
    ensures i >= 0 ==> Means(View(db), name, i) && Ready(db, i)
  {
    NamedInView(db, name);
    i := db.FindTable(name);
    if i >= 0 { TableReady(db, i); }
  }

  // A change to one table's rows changes the view there only.
  lemma ViewAt(v: seq<TableView>, v': seq<TableView>, i: nat)
    requires i < |v| == |v'| && forall j :: 0 <= j < |v| && j != i ==> v'[j] == v[j]
    ensures v' == v[i := v'[i]]
  {
  }

  // ------------------------------------------------------------ carrying out an INSERT

  // What a database shows once a row an INSERT makes has been offered to its i-th table.
  lemma RowOffered(v: seq<TableView>, v': seq<TableView>, i: nat, insert: InsertAst, row: Row, outcome: Outcome)
    requires i < |v| == |v'| && Keyed(v[i].definition) && !Unbindable(v[i].definition, insert)
    requires Makes(v[i].definition, insert, row) && WithRow(v[i], row, outcome, v'[i])
    requires forall j :: 0 <= j < |v| && j != i ==> v'[j] == v[j]
    ensures InsertedInto(v, i, insert, outcome, v')
  {
    ViewAt(v, v', i);
  }

  // Inserts the row an INSERT made into the table it was made for.
  method OfferRow(db: Database, i: nat, row: Row, ghost insert: InsertAst) returns (outcome: Outcome)
    requires Ready(db, i) && Takes(db.tables[i], row) && db.Consistent()
    requires Makes(DefinitionOf(db.tables[i]), insert, row) && !Unbindable(DefinitionOf(db.tables[i]), insert)
    modifies db.pager
    ensures db.Consistent() && InsertedInto(old(View(db)), i, insert, outcome, View(db))
  {
    ghost var v := View(db);
    var inserted := db.InsertRow(db.tables[i], row);
    outcome := if inserted then Done else Duplicate;
    RowOffered(v, View(db), i, insert, row, outcome);
  }

  method InsertInto(db: Database, i: nat, insert: InsertAst) returns (outcome: Outcome)
    requires Ready(db, i) && db.Consistent() && NamesOk(insert.columnNames)
    modifies db.pager
    ensures db.Consistent() && InsertedInto(old(View(db)), i, insert, outcome, View(db))
  {
    var table := db.tables[i];
    var row := Insertion.BindInsert(table.schema, table.keyId, insert);
    if row.None? { return Refused; }
    assert Makes(DefinitionOf(table), insert, row.value);
    outcome := OfferRow(db, i, row.value, insert);
  }

  method ExecuteInsert(db: Database, insert: InsertAst) returns (outcome: Outcome)
    requires db.Consistent() && NulFree(insert.tableName) && NamesOk(insert.columnNames)
    modifies db.pager
    ensures db.Consistent() && Inserted(old(View(db)), insert, outcome, View(db))
  {
    var i := BindTable(db, insert.tableName);
    if i < 0 { return Refused; }
    outcome := InsertInto(db, i, insert);
  }

  // ------------------------------------------------------------ carrying out a SELECT

  method BindWhere(table: Table, where: Option<ExprAst>) returns (fits: bool, bound: Option<Expr>)
    requires Keyed(DefinitionOf(table)) && NamesNulFree(table.schema) && WhereOk(where)
    ensures fits == WhereFits(where, table.schema)
    ensures fits ==> bound == WhereBound(where, table.schema)
  {
    if where.None? { return true, None; }
    BindsExactly(where.value, table.schema);
    bound := ExpressionBind(where.value, table.schema);
    fits := bound.Some?;
  }

  method BindColumns(s: Schema, names: Option<seq<Text>>) returns (ids: Option<seq<nat>>)
    requires Laid(s) && NamesNulFree(s) && NamesOk(names)
    ensures ids.Some? <==> ColumnsExist(s, names)
    ensures ids.Some? ==> ColumnsWanted(s, names, ids.value)
  {
    var numColumns := if names.None? then |s.columns| else |names.value|;
    var list: seq<nat> := [];
    for i := 0 to numColumns
      invariant |list| == i
      invariant names.None? ==> forall j :: 0 <= j < i ==> list[j] == j + 1
      invariant names.Some? ==>
        forall j :: 0 <= j < i ==> HasColumn(s, names.value[j]) && IdOf(s, names.value[j], list[j])
    {
      if names.None? {
        list := list + [s.columns[i].id];
      } else {
        var index := ResolveColumn(s, names.value[i]);
        if index.None? {
          assert !HasColumn(s, names.value[i]);
          return None;
        }
        assert IdOf(s, names.value[i], s.columns[index.value].id);
        list := list + [s.columns[index.value].id];
      }
    }
    ids := Some(list);
  }

  // Filtering by the bound WHERE and by the WHERE as written keep the same rows.
  lemma MatchingIsSatisfying(table: Table, v: TableView, where: Option<ExprAst>)
    requires Keyed(v.definition) && v == TableView(DefinitionOf(table), RowsIn(table.pager, table))
    requires WhereFits(where, table.schema)
    ensures Matching(table, WhereBound(where, table.schema)) == Satisfying(v, where)
  {
    if where.Some? {
      forall c | c in v.rows && |c.row| == table.schema.rowSize
        ensures Holds(WhereBound(where, table.schema).value, c.row, table.schema) <==>
          True(where.value, c.row, table.schema)
      {
        BindingMeans(where.value, c.row, table.schema);
      }
    }
  }

  // The plan made for a WHERE is the one EXPLAIN describes.
  lemma PlanAsWritten(d: TableDefinition, where: Option<ExprAst>, plan: Plan)
    requires Keyed(d) && WhereFits(where, d.schema) && Classified(plan)
    requires PlanOf(plan, WhereBound(where, d.schema), d.keyColumnId)
    ensures PlanFor(d, where, Explained(plan))
  {
    forall row | KeyedRow(row, d.schema, d.keyColumnId)
      ensures Reads(plan, ColumnInt(row, d.schema, d.keyColumnId)) <==>
        (where.Some? ==> KeyConditionsTrue(where.value, d.keyColumnId, row, d.schema))
    {
      if where.Some? { PlanReadsAsWritten(plan, where.value, d.keyColumnId, row, d.schema); }
    }
  }

  method SelectFrom(db: Database, i: nat, select: SelectAst, explain: bool) returns (outcome: Outcome)
    requires Ready(db, i) && db.Consistent() && NamesOk(select.columnNames) && WhereOk(select.where)
    ensures SelectedFrom(View(db)[i], select, explain, outcome)
  {
    var table := db.tables[i];
    var ids := BindColumns(table.schema, select.columnNames);
    if ids.None? { return Refused; }
    var fits, bound := BindWhere(table, select.where);
    if !fits { return Refused; }
    if explain {
      var plan := PlanSelect(bound, table.keyId);
      PlanAsWritten(DefinitionOf(table), select.where, plan);
      return Explained(plan);
    }
    MatchingIsSatisfying(table, View(db)[i], select.where);
    db.TablesOk();
    assert table in db.tables;
    var rows, examined := ExecuteSelect(table, bound);
    outcome := Rows(rows, ids.value);
  }

  /** Carries out a SELECT, which changes nothing. */
  method Select(db: Database, select: SelectAst, explain: bool) returns (outcome: Outcome)
    requires db.Consistent() && NulFree(select.tableName) && NamesOk(select.columnNames) && WhereOk(select.where)
    ensures Selected(View(db), select, explain, outcome)
  {
    var i := BindTable(db, select.tableName);
    if i < 0 { return Refused; }
    outcome := SelectFrom(db, i, select, explain);
  }

  // ------------------------------------------------------------ carrying out a DELETE

  // Deletes the rows a WHERE that binds is true of.
  method DeleteBound(db: Database, i: nat, bound: Option<Expr>, ghost where: Option<ExprAst>) returns (outcome: Outcome)
    requires Ready(db, i) && WhereFits(where, db.tables[i].schema) && bound == WhereBound(where, db.tables[i].schema)
    requires db.Consistent()
    modifies db.pager
    ensures db.Consistent() && DeletedFrom(old(View(db)), i, where, false, outcome, View(db))
  {
    ghost var v := View(db);
    MatchingIsSatisfying(db.tables[i], v[i], where);
    db.DeleteRows(db.tables[i], bound);
    ViewAt(v, View(db), i);
    outcome := Done;
  }

  method DeleteFrom(db: Database, i: nat, where: Option<ExprAst>, explain: bool) returns (outcome: Outcome)
    requires Ready(db, i) && db.Consistent() && WhereOk(where)
    modifies db.pager
    ensures db.Consistent() && DeletedFrom(old(View(db)), i, where, explain, outcome, View(db))
  {
    var table := db.tables[i];
    var fits, bound := BindWhere(table, where);
    if !fits { return Refused; }
    if explain {
      var plan := PlanSelect(bound, table.keyId);
      PlanAsWritten(DefinitionOf(table), where, plan);
      return Explained(plan);
    }
    outcome := DeleteBound(db, i, bound, where);
  }

  method Delete(db: Database, delete: DeleteAst, explain: bool) returns (outcome: Outcome)
    requires db.Consistent() && NulFree(delete.tableName) && WhereOk(delete.where)
    modifies db.pager
    ensures db.Consistent() && Deleted(old(View(db)), delete, explain, outcome, View(db))
  {
    var i := BindTable(db, delete.tableName);
    if i < 0 { return Refused; }
    outcome := DeleteFrom(db, i, delete.where, explain);
  }

  // ------------------------------------------------------------ carrying out a CREATE TABLE

  // Whether the file has room for page and table numbers of 32 bits.
  predicate HasRoom(db: Database)
    reads db, db.pager
  {
    |db.pager.pages| < UINT32 && db.nextTableId <= INT32_MAX
  }

  lemma CreatedNow(v: seq<TableView>, ast: CreateTableAst, v': seq<TableView>, d: TableDefinition)
    requires NoneNamed(v, ast.tableName) && Accepted(ast) && Defines(d, ast)
    requires |v'| == |v| + 1 && v'[|v|] == TableView(d, {}) && forall j :: 0 <= j < |v| ==> v'[j] == v[j]
    ensures Created(v, ast, Done, v')
  {
    assert v'[..|v|] == v;
  }

  method CreateIn(db: Database, ast: CreateTableAst) returns (outcome: Outcome)
    requires db.Consistent() && AstFits(ast) && HasRoom(db)
    modifies db, db.pager
    ensures db.Consistent() && Created(old(View(db)), ast, outcome, View(db))
  {
    ghost var v := View(db);
    NamedInView(db, ast.tableName);
    var created;
    ghost var table;
    created, table := db.ExecuteCreate(ast);
    outcome := if created then Done else Refused;
    if created { CreatedNow(v, ast, View(db), DefinitionOf(table)); } else { assert View(db) == v; }
  }

  // ------------------------------------------------------------ carrying out any command

  /** Closes the database and opens the file again. */
  method CloseAndOpen(db: Database) returns (db': Database)
    requires db.Consistent()
    modifies db.pager
    ensures fresh(db') && fresh(db'.pager) && db'.Consistent() && View(db') == old(View(db))
  {
    db.Inside();
    ghost var v := View(db);
    var file := DbClose(db);
    assert View(db) == v;
    db' := DbOpen(db.pager.maxKeys, file, db);
    ReopenedView(db', db);
  }

  lemma ReopenedView(db': Database, db: Database)
    requires SameDatabase(db', db)
    ensures View(db') == View(db)
  {
    forall i | 0 <= i < |View(db)|
      ensures View(db')[i] == View(db)[i]
    {
      assert SameTable(db'.tables[i], db.tables[i]);
    }
  }

  /** Carries out one parsed statement. */
  method Execute(db: Database, ast: Ast) returns (outcome: Outcome)
    requires db.Consistent() && AstUsable(ast) && HasRoom(db)
    modifies db, db.pager
    ensures db.Consistent() && Does(old(View(db)), ast, outcome, View(db))
  {
    match ast
    case EmptyTree => outcome := Done;
    case CreateTree(create) => outcome := CreateIn(db, create);
    case InsertTree(insert) => outcome := ExecuteInsert(db, insert);
    case SelectTree(select, explain) => outcome := Select(db, select, explain);
    case DeleteTree(delete, explain) => outcome := Delete(db, delete, explain);
  }

  method ExecuteParsed(db: Database, ast: Option<Ast>) returns (outcome: Outcome)
    requires db.Consistent() && HasRoom(db) && (ast.Some? ==> AstUsable(ast.value))
    modifies db, db.pager
    ensures db.Consistent() && LineDoes(old(View(db)), ast, outcome, View(db))
  {
    if ast.None? { return Refused; }
    outcome := Execute(db, ast.value);
  }

  /** Parses a line of text and carries out what it says. */
  method PerformLine(db: Database, text: Text) returns (outcome: Outcome)
    requires db.Consistent() && HasRoom(db)
    modifies db, db.pager
    ensures db.Consistent() && Step(old(View(db)), Line(text), outcome, View(db))
  {
    var ast := ParseLine(text);
    outcome := ExecuteParsed(db, ast);
  }

  method ParseLine(text: Text) returns (ast: Option<Ast>)
    ensures Parses(text, ast) && (ast.Some? ==> AstUsable(ast.value))
  {
    var parser := new Parser(text);
    ast := parser.ParseStatement();
    if ast.Some? { LineUsable(text); }
  }

  method Perform(db: Database, command: Command) returns (db': Database, outcome: Outcome)
    requires db.Consistent() && HasRoom(db)
    modifies db, db.pager
    ensures db'.Consistent() && Step(old(View(db)), command, outcome, View(db'))
    ensures db' == db || (fresh(db') && fresh(db'.pager))
  {
    db' := db;
    match command
    case Line(text) => outcome := PerformLine(db, text);
    case Reopen =>
      db' := CloseAndOpen(db);
      outcome := Done;
  }

  ghost predicate StepAt(trace: seq<seq<TableView>>, commands: seq<Command>, outcomes: seq<Outcome>, k: nat)
    requires k < |commands| && k < |outcomes| && k + 1 < |trace|
  {
    Step(trace[k], commands[k], outcomes[k], trace[k + 1])
  }

  // The states of the database before and after each command of a run, and what each answered.
  ghost predicate RunOf(trace: seq<seq<TableView>>, commands: seq<Command>, outcomes: seq<Outcome>) {
    && |outcomes| <= |commands| && |trace| == |outcomes| + 1
    && forall k {:trigger StepAt(trace, commands, outcomes, k)} :: 0 <= k < |outcomes| ==>
      StepAt(trace, commands, outcomes, k)
  }

  lemma SameStep(v: seq<TableView>, command: Command, outcome: Outcome, w: seq<TableView>,
                 v': seq<TableView>, outcome': Outcome, w': seq<TableView>)
    requires Step(v, command, outcome, w) && v' == v && outcome' == outcome && w' == w
    ensures Step(v', command, outcome', w')
  {
  }

  lemma RunNext(trace: seq<seq<TableView>>, commands: seq<Command>, outcomes: seq<Outcome>, outcome: Outcome,
                v: seq<TableView>)
    requires RunOf(trace, commands, outcomes) && |outcomes| < |commands|
    requires Step(trace[|outcomes|], commands[|outcomes|], outcome, v)
    ensures RunOf(trace + [v], commands, outcomes + [outcome])
  {
    var trace', outcomes' := trace + [v], outcomes + [outcome];
    forall k | 0 <= k < |outcomes'| ensures StepAt(trace', commands, outcomes', k) {
      if k < |outcomes| {
        assert StepAt(trace, commands, outcomes, k);
        SameStep(trace[k], commands[k], outcomes[k], trace[k + 1], trace'[k], outcomes'[k], trace'[k + 1]);
      } else {
        SameStep(trace[k], commands[k], outcome, v, trace'[k], outcomes'[k], trace'[k + 1]);
      }
    }
  }

  /**
   Any run of lines of text, well-formed or not, for as long as page and table numbers
   fit 32 bits: each line does and answers what it says of the table it names and nothing
   to the others, whatever the trees went through, and closing and reopening in between
   changes nothing.
   */
  method Run(start: Database, commands: seq<Command>)
    returns (db: Database, outcomes: seq<Outcome>, ghost trace: seq<seq<TableView>>)
    requires start.Consistent()
    modifies start, start.pager
    ensures db.Consistent() && RunOf(trace, commands, outcomes)
    ensures trace[0] == old(View(start)) && trace[|outcomes|] == View(db)
    ensures |outcomes| == |commands| || !HasRoom(db)
  {
    db, outcomes, trace := start, [], [View(start)];
    while |outcomes| < |commands| && HasRoom(db)
      invariant db.Consistent() && RunOf(trace, commands, outcomes)
      invariant trace[0] == old(View(start)) && trace[|outcomes|] == View(db)
      invariant db == start || (fresh(db) && fresh(db.pager))
      decreases |commands| - |outcomes|
    {
      ghost var before := trace;
      var outcome;
      db, outcome := Perform(db, commands[|outcomes|]);
      RunNext(before, commands, outcomes, outcome, View(db));
      trace := before + [View(db)];
      outcomes := outcomes + [outcome];
    }
  }

  /** Whatever run led to it, a database's pages are its header, its free pages, and the
      nodes of its catalog and tables: none is lost and none is used twice. */
  lemma EveryPageAccounted(db: Database)
    requires db.Consistent()
    ensures |db.pager.pages| == 1 + |db.pager.free| + |db.pager.nodes|
    ensures forall p :: 0 < p < |db.pager.pages| ==> (p in db.pager.free <==> p !in db.pager.nodes)
    ensures forall p :: p in db.pager.nodes ==>
      db.pager.nodes[p].tree == db.catalog.root || IsRoot(db.tables, db.pager.nodes[p].tree)
    ensures forall i, j :: 0 <= i < j < |db.tables| ==> db.tables[i].root != db.tables[j].root
  {
    db.Inside();
    PagesPartitioned(db.pager.pages, db.pager.nodes, db.pager.freeHead, db.pager.free);
    forall i, j | 0 <= i < j < |db.tables|
      ensures db.tables[i].root != db.tables[j].root
    {
      assert Apart(db.tables[i], db.tables[j]);
    }
  }
}
