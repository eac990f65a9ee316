/** Statements written out as SQL, and read back as the same statements. */
module LinePrinting {
  import opened Pages
  import opened Tokens
  import opened Parsing
  import opened Lexing
  import opened Spelling
  import opened Grammar
  import opened Sentences
  import opened Printing
  import Definitions
  import Canonical

  // ------------------------------------------------------------ statements as SQL

  function NamesSql(names: seq<Text>): Text
    requires |names| > 0
  {
    if |names| == 1 then names[0] else names[0] + ", " + NamesSql(names[1..])
  }

  function ValuesSql(values: seq<Literal>): Text
    requires |values| > 0
  {
    if |values| == 1 then LiteralSql(values[0]) else LiteralSql(values[0]) + ", " + ValuesSql(values[1..])
  }

  function ListSql(names: Option<seq<Text>>): Text
    requires names.Some? ==> |names.value| > 0
  {
    if names.None? then "" else " (" + NamesSql(names.value) + ")"
  }

  function InsertSql(insert: InsertAst): Text
    requires |insert.values| > 0 && (insert.columnNames.Some? ==> |insert.columnNames.value| > 0)
  {
    "INSERT INTO " + insert.tableName + ListSql(insert.columnNames) + " VALUES (" + ValuesSql(insert.values) + ")"
  }

  function FromSql(table: Text, where: Option<ExprAst>): Text
    requires where.Some? ==> Joins(where.value)
  {
    "FROM " + table + if where.None? then "" else " WHERE " + WhereSql(where.value)
  }

  function WantedSql(names: Option<seq<Text>>): Text
    requires names.Some? ==> |names.value| > 0
  {
    if names.None? then "*" else NamesSql(names.value)
  }

  function SelectSql(select: SelectAst): Text
    requires (select.columnNames.Some? ==> |select.columnNames.value| > 0)
    requires select.where.Some? ==> Joins(select.where.value)
  {
    "SELECT " + WantedSql(select.columnNames) + " " + FromSql(select.tableName, select.where)
  }

  function DeleteSql(delete: DeleteAst): Text
    requires delete.where.Some? ==> Joins(delete.where.value)
  {
    "DELETE " + FromSql(delete.tableName, delete.where)
  }

  function ExplainSql(explain: bool): Text { if explain then "EXPLAIN " else "" }

  function Sql(ast: Ast): Text
    requires AstJoins(ast)
  {
    match ast
    case EmptyTree => ""
    case InsertTree(insert) => InsertSql(insert)
    case SelectTree(select, explain) => ExplainSql(explain) + SelectSql(select)
    case CreateTree(create) => Definitions.CanonicalText(create)
    case DeleteTree(delete, explain) => ExplainSql(explain) + DeleteSql(delete)
  }

  // Lists have something in them, and what AND and OR join is two conditions at least.
  predicate AstJoins(ast: Ast) {
    match ast
    case EmptyTree => true
    case InsertTree(insert) => |insert.values| > 0 && (insert.columnNames.Some? ==> |insert.columnNames.value| > 0)
    case SelectTree(select, _) =>
      && (select.columnNames.Some? ==> |select.columnNames.value| > 0)
      && (select.where.Some? ==> Joins(select.where.value))
    case CreateTree(create) => true
    case DeleteTree(delete, _) => delete.where.Some? ==> Joins(delete.where.value)
  }

  // ------------------------------------------------------------ what can be written

  ghost predicate NamesWritable(names: Option<seq<Text>>) {
    names.Some? ==> |names.value| > 0 && forall i :: 0 <= i < |names.value| ==> IsPlainName(names.value[i])
  }

  ghost predicate ValuesWritable(values: seq<Literal>) {
    |values| > 0 && forall i :: 0 <= i < |values| ==> LiteralWritable(values[i])
  }

  ghost predicate WhereOptional(where: Option<ExprAst>) {
    where.Some? ==> WhereWritable(where.value)
  }

  ghost predicate CreateWritable(create: CreateTableAst) {
    && IsPlainName(create.tableName) && |create.columns| > 0
    && forall i :: 0 <= i < |create.columns| ==> Canonical.Printable(create.columns[i])
  }

  // A statement that SQL can say.
  ghost predicate AstWritable(ast: Ast) {
    match ast
    case EmptyTree => true
    case InsertTree(insert) =>
      IsPlainName(insert.tableName) && NamesWritable(insert.columnNames) && ValuesWritable(insert.values)
    case SelectTree(select, _) =>
      IsPlainName(select.tableName) && NamesWritable(select.columnNames) && WhereOptional(select.where)
    case CreateTree(create) => CreateWritable(create)
    case DeleteTree(delete, _) => IsPlainName(delete.tableName) && WhereOptional(delete.where)
  }

  // ------------------------------------------------------------ lists

  function NameToken(name: Text): Token { Plain(IdentifierToken, name) }

  function NamesTreeOf(names: seq<Text>): NamesTree
    requires |names| > 0
  {
    if |names| == 1 then LastName(NameToken(names[0]))
    else NameThenMore(NameToken(names[0]), COMMA, NamesTreeOf(names[1..]))
  }

  function ValuesTreeOf(values: seq<Literal>): ValuesTree
    requires |values| > 0
  {
    if |values| == 1 then LastValue(LiteralTree(values[0]))
    else ValueThenMore(LiteralTree(values[0]), COMMA, ValuesTreeOf(values[1..]))
  }

  lemma {:induction false} NamesTreeMeans(names: seq<Text>)
    requires |names| > 0
    ensures NamesFit(NamesTreeOf(names)) && NamesMeaning(NamesTreeOf(names)) == names
  {
    if |names| > 1 { NamesTreeMeans(names[1..]); }
  }

  lemma LiteralTreeValue(l: Literal)
    requires LiteralWritable(l)
    ensures Sentences.ValueFits(LiteralTree(l)) && ValueMeaning(LiteralTree(l)) == l
  {
    LiteralTreeMeans(l);
  }

  lemma {:induction false} ValuesTreeMeans(values: seq<Literal>)
    requires ValuesWritable(values)
    ensures ValuesFit(ValuesTreeOf(values)) && ValuesMeaning(ValuesTreeOf(values)) == values
  {
    LiteralTreeValue(values[0]);
    if |values| > 1 { ValuesTreeMeans(values[1..]); }
  }

  lemma TwoThen(a: Token, b: Token, ts: seq<Token>)
    ensures [a] + ([b] + ts) == [a, b] + ts
  {
  }

  lemma ThreeThen(a: Token, b: Token, c: Token, ts: seq<Token>)
    ensures [a] + ([b] + ([c] + ts)) == [a, b, c] + ts
  {
  }

  // A comma, a space, and what follows.
  lemma CommaSpace(own: Text, ts: seq<Token>, rest: Text)
    requires Reads(own, ts, rest)
    ensures Reads("," + ([' '] + own), [COMMA] + ts, rest)
  {
    SymbolIsSpelled(COMMA);
    TokenSpace(COMMA, own, ts, rest);
  }

  lemma CommaText(first: Text, more: Text, rest: Text)
    ensures first + ", " + more + rest == first + ("," + ([' '] + (more + rest)))
  {
  }

  lemma NameReads(name: Text, rest: Text)
    requires IsPlainName(name) && Ends(rest)
    ensures Reads(name + rest, [NameToken(name)], rest)
  {
    TokenReads(NameToken(name), rest);
  }

  lemma {:induction false} NamesRead(names: seq<Text>, rest: Text)
    requires NamesWritable(Some(names)) && Ends(rest)
    ensures Reads(NamesSql(names) + rest, NamesYield(NamesTreeOf(names)), rest)
  {
    if |names| == 1 {
      NameReads(names[0], rest);
    } else {
      var own := NamesSql(names[1..]) + rest;
      var more := NamesYield(NamesTreeOf(names[1..]));
      NamesRead(names[1..], rest);
      CommaSpace(own, more, rest);
      NameReads(names[0], "," + ([' '] + own));
      ReadsThen(names[0] + ("," + ([' '] + own)), [NameToken(names[0])], "," + ([' '] + own), [COMMA] + more, rest);
      CommaText(names[0], NamesSql(names[1..]), rest);
      TwoThen(NameToken(names[0]), COMMA, more);
    }
  }

  lemma {:induction false} ValuesRead(values: seq<Literal>, rest: Text)
    requires ValuesWritable(values) && Ends(rest)
    ensures Reads(ValuesSql(values) + rest, ValuesYield(ValuesTreeOf(values)), rest)
  {
    if |values| == 1 {
      LiteralReads(values[0], rest);
    } else {
      var own := ValuesSql(values[1..]) + rest;
      var first, more := OperandYield(LiteralTree(values[0])), ValuesYield(ValuesTreeOf(values[1..]));
      ValuesRead(values[1..], rest);
      CommaSpace(own, more, rest);
      LiteralReads(values[0], "," + ([' '] + own));
      ReadsThen(LiteralSql(values[0]) + ("," + ([' '] + own)), first, "," + ([' '] + own), [COMMA] + more, rest);
      CommaText(LiteralSql(values[0]), ValuesSql(values[1..]), rest);
    }
  }

  // ------------------------------------------------------------ FROM and WHERE

  const FROM: Token := Plain(FromToken, "FROM")
  const WHERE: Token := Plain(WhereToken, "WHERE")

  // A keyword, a space, and what follows.
  lemma WordSpace(t: Token, own: Text, ts: seq<Token>, rest: Text)
    requires t == Plain(t.kind, t.text) && IsKeyword(t.text, t.kind) && Reads(own, ts, rest)
    ensures Reads(t.text + ([' '] + own), [t] + ts, rest)
  {
    KeywordIsSpelled(t);
    TokenSpace(t, own, ts, rest);
  }

  function WhereTreeFor(where: Option<ExprAst>): WhereTree
    requires where.Some? ==> Joins(where.value)
  {
    if where.None? then NoWhere else Where(WHERE, WhereTreeOf(where.value))
  }

  function FromTreeOf(table: Text, where: Option<ExprAst>): FromTree
    requires where.Some? ==> Joins(where.value)
  {
    From(FROM, NameToken(table), WhereTreeFor(where))
  }

  lemma FromTreeMeans(table: Text, where: Option<ExprAst>)
    requires WhereOptional(where)
    ensures FromFits(FromTreeOf(table, where)) && WhereMeaning(WhereTreeFor(where)) == where
  {
    if where.Some? { WhereTreeMeans(where.value); }
  }

  lemma WhereText(e: Text, rest: Text)
    ensures " WHERE " + e + rest == [' '] + ("WHERE" + ([' '] + (e + rest)))
  {
  }

  lemma WherePartReads(where: Option<ExprAst>, rest: Text)
    requires WhereOptional(where) && Ends(rest)
    ensures var own := (if where.None? then "" else " WHERE " + WhereSql(where.value)) + rest;
      Ends(own) && Reads(own, WhereYield(WhereTreeFor(where)), rest)
  {
    if where.None? {
      assert "" + rest == rest;
      ReadsNone(rest);
    } else {
      var own, ts := WhereSql(where.value) + rest, OrYield(WhereTreeOf(where.value));
      WhereReads(where.value, rest);
      WordSpace(WHERE, own, ts, rest);
      SpaceThen("WHERE" + ([' '] + own), [WHERE] + ts, rest);
      WhereText(WhereSql(where.value), rest);
    }
  }

  lemma FromText(table: Text, where: Text, rest: Text)
    ensures "FROM " + table + where + rest == "FROM" + ([' '] + (table + (where + rest)))
  {
  }

  lemma FromReads(table: Text, where: Option<ExprAst>, rest: Text)
    requires IsPlainName(table) && WhereOptional(where) && Ends(rest)
    ensures Reads(FromSql(table, where) + rest, FromYield(FromTreeOf(table, where)), rest)
  {
    var part: Text := if where.None? then "" else " WHERE " + WhereSql(where.value);
    var tail, ts := part + rest, WhereYield(WhereTreeFor(where));
    WherePartReads(where, rest);
    NameReads(table, tail);
    ReadsThen(table + tail, [NameToken(table)], tail, ts, rest);
    WordSpace(FROM, table + tail, [NameToken(table)] + ts, rest);
    FromText(table, part, rest);
    TwoThen(FROM, NameToken(table), ts);
  }

  // ------------------------------------------------------------ SELECT and DELETE

  const SELECT: Token := Plain(SelectToken, "SELECT")
  const DELETE: Token := Plain(DeleteToken, "DELETE")
  const EXPLAIN: Token := Plain(ExplainToken, "EXPLAIN")
  const STAR: Token := Plain(StarToken, "*")

  function WantedTreeOf(names: Option<seq<Text>>): WantedTree
    requires names.Some? ==> |names.value| > 0
  {
    if names.None? then Star(STAR) else Wanted(NamesTreeOf(names.value))
  }

  lemma WantedReads(names: Option<seq<Text>>, rest: Text)
    requires NamesWritable(names) && Ends(rest)
    ensures Reads(WantedSql(names) + rest, WantedYield(WantedTreeOf(names)), rest)
    ensures WantedFits(WantedTreeOf(names)) && WantedMeaning(WantedTreeOf(names)) == names
  {
    if names.None? {
      SymbolIsSpelled(STAR);
      TokenReads(STAR, rest);
    } else {
      NamesRead(names.value, rest);
      NamesTreeMeans(names.value);
    }
  }

  function SelectTreeOf(select: SelectAst): SentenceTree
    requires AstJoins(SelectTree(select, false))
  {
    SelectSentence(SELECT, WantedTreeOf(select.columnNames), FromTreeOf(select.tableName, select.where))
  }

  lemma SelectText(wanted: Text, from: Text, rest: Text)
    ensures "SELECT " + wanted + " " + from + rest == "SELECT" + ([' '] + (wanted + ([' '] + (from + rest))))
  {
  }

  lemma SelectReads(select: SelectAst, rest: Text)
    requires AstWritable(SelectTree(select, false)) && Ends(rest)
    ensures Reads(SelectSql(select) + rest, SentenceYield(SelectTreeOf(select)), rest)
    ensures SentenceFits(SelectTreeOf(select))
    ensures forall explain :: SentenceMeaning(SelectTreeOf(select), explain) == SelectTree(select, explain)
  {
    var from := FromSql(select.tableName, select.where) + rest;
    var fts := FromYield(FromTreeOf(select.tableName, select.where));
    var wts := WantedYield(WantedTreeOf(select.columnNames));
    FromReads(select.tableName, select.where, rest);
    FromTreeMeans(select.tableName, select.where);
    SpaceThen(from, fts, rest);
    WantedReads(select.columnNames, [' '] + from);
    ReadsThen(WantedSql(select.columnNames) + ([' '] + from), wts, [' '] + from, fts, rest);
    WordSpace(SELECT, WantedSql(select.columnNames) + ([' '] + from), wts + fts, rest);
    SelectText(WantedSql(select.columnNames), FromSql(select.tableName, select.where), rest);
  }

  function DeleteTreeOf(delete: DeleteAst): SentenceTree
    requires AstJoins(DeleteTree(delete, false))
  {
    DeleteSentence(DELETE, FromTreeOf(delete.tableName, delete.where))
  }

  lemma DeleteReads(delete: DeleteAst, rest: Text)
    requires AstWritable(DeleteTree(delete, false)) && Ends(rest)
    ensures Reads(DeleteSql(delete) + rest, SentenceYield(DeleteTreeOf(delete)), rest)
    ensures SentenceFits(DeleteTreeOf(delete))
    ensures forall explain :: SentenceMeaning(DeleteTreeOf(delete), explain) == DeleteTree(delete, explain)
  {
    var from := FromSql(delete.tableName, delete.where);
    FromReads(delete.tableName, delete.where, rest);
    FromTreeMeans(delete.tableName, delete.where);
    WordSpace(DELETE, from + rest, FromYield(FromTreeOf(delete.tableName, delete.where)), rest);
    assert "DELETE " + from + rest == "DELETE" + ([' '] + (from + rest));
  }

  // ------------------------------------------------------------ INSERT

  const INSERT: Token := Plain(InsertToken, "INSERT")
  const INTO: Token := Plain(IntoToken, "INTO")
  const VALUES: Token := Plain(ValuesToken, "VALUES")

  function ListTreeOf(names: Option<seq<Text>>): ListTree
    requires names.Some? ==> |names.value| > 0
  {
    if names.None? then NoList else Listed(OPEN, NamesTreeOf(names.value), CLOSE)
  }

  function ItemsTreeOf(values: seq<Literal>): ItemsTree
    requires |values| > 0
  {
    Items(VALUES, OPEN, ValuesTreeOf(values), CLOSE)
  }

  function InsertTreeOf(insert: InsertAst): SentenceTree
    requires AstJoins(InsertTree(insert))
  {
    InsertSentence(INSERT, INTO, NameToken(insert.tableName), ListTreeOf(insert.columnNames),
                   ItemsTreeOf(insert.values))
  }

  lemma InsertTreeMeans(insert: InsertAst)
    requires AstWritable(InsertTree(insert))
    ensures SentenceFits(InsertTreeOf(insert))
    ensures SentenceMeaning(InsertTreeOf(insert), false) == InsertTree(insert)
  {
    ItemsTreeMeans(insert.values);
    ListTreeMeans(insert.columnNames);
  }

  lemma ItemsTreeMeans(values: seq<Literal>)
    requires ValuesWritable(values)
    ensures ItemsFit(ItemsTreeOf(values)) && ValuesMeaning(ItemsTreeOf(values).list) == values
  {
    ValuesTreeMeans(values);
  }

  lemma ListTreeMeans(names: Option<seq<Text>>)
    requires NamesWritable(names)
    ensures ListFits(ListTreeOf(names)) && ListMeaning(ListTreeOf(names)) == names
  {
    if names.Some? { NamesTreeMeans(names.value); }
  }

  lemma ListText(names: Text, rest: Text)
    ensures " (" + names + ")" + rest == [' '] + ("(" + names + ")" + rest)
  {
  }

  lemma ListReads(names: Option<seq<Text>>, rest: Text)
    requires NamesWritable(names) && Ends(rest)
    ensures Ends(ListSql(names) + rest) && Reads(ListSql(names) + rest, ListYield(ListTreeOf(names)), rest)
  {
    if names.None? {
      assert "" + rest == rest;
      ReadsNone(rest);
    } else {
      var ts := NamesYield(NamesTreeOf(names.value));
      NamesRead(names.value, ")" + rest);
      BracketReads(NamesSql(names.value), ts, rest);
      SpaceThen("(" + NamesSql(names.value) + ")" + rest, [OPEN] + ts + [CLOSE], rest);
      ListText(NamesSql(names.value), rest);
      Grouped([OPEN], ts, [CLOSE]);
    }
  }

  lemma ItemsText(values: Text, rest: Text)
    ensures " VALUES (" + values + ")" + rest == [' '] + ("VALUES" + ([' '] + ("(" + values + ")" + rest)))
  {
  }

  lemma ItemsRead(values: seq<Literal>, rest: Text)
    requires ValuesWritable(values) && Ends(rest)
    ensures Reads(" VALUES (" + ValuesSql(values) + ")" + rest, ItemsYield(ItemsTreeOf(values)), rest)
  {
    var ts := ValuesYield(ValuesTreeOf(values));
    var own := "(" + ValuesSql(values) + ")" + rest;
    ValuesRead(values, ")" + rest);
    BracketReads(ValuesSql(values), ts, rest);
    WordSpace(VALUES, own, [OPEN] + ts + [CLOSE], rest);
    SpaceThen("VALUES" + ([' '] + own), [VALUES] + ([OPEN] + ts + [CLOSE]), rest);
    ItemsText(ValuesSql(values), rest);
    Grouped([OPEN], ts, [CLOSE]);
    TwoThen(VALUES, OPEN, ts + [CLOSE]);
  }

  lemma InsertText(table: Text, list: Text, items: Text, rest: Text)
    ensures "INSERT INTO " + table + list + items + rest ==
      "INSERT" + ([' '] + ("INTO" + ([' '] + (table + (list + (items + rest))))))
  {
  }

  lemma InsertReads(insert: InsertAst, rest: Text)
    requires AstWritable(InsertTree(insert)) && Ends(rest)
    ensures Reads(InsertSql(insert) + rest, SentenceYield(InsertTreeOf(insert)), rest)
  {
    var name := NameToken(insert.tableName);
    var lts, its := ListYield(ListTreeOf(insert.columnNames)), ItemsYield(ItemsTreeOf(insert.values));
    var itemsSql: Text := " VALUES (" + ValuesSql(insert.values) + ")";
    var items := itemsSql + rest;
    var list := ListSql(insert.columnNames) + items;
    ItemsRead(insert.values, rest);
    ListReads(insert.columnNames, items);
    ReadsThen(list, lts, items, its, rest);
    NameReads(insert.tableName, list);
    ReadsThen(insert.tableName + list, [name], list, lts + its, rest);
    WordSpace(INTO, insert.tableName + list, [name] + (lts + its), rest);
    var into := "INTO" + ([' '] + (insert.tableName + list));
    WordSpace(INSERT, into, [INTO] + ([name] + (lts + its)), rest);
    InsertText(insert.tableName, ListSql(insert.columnNames), itemsSql, rest);
    ThreeThen(INSERT, INTO, name, lts + its);
    InsertSqlParts(insert, itemsSql);
  }

  lemma InsertSqlParts(insert: InsertAst, items: Text)
    requires AstJoins(InsertTree(insert)) && items == " VALUES (" + ValuesSql(insert.values) + ")"
    ensures InsertSql(insert) == "INSERT INTO " + insert.tableName + ListSql(insert.columnNames) + items
  {
  }

  // ------------------------------------------------------------ any statement

  lemma WritableJoins(ast: Ast)
    requires AstWritable(ast)
    ensures AstJoins(ast)
  {
  }

  function ExplainTree(explain: bool): Option<Token> { if explain then Some(EXPLAIN) else None }

  // A statement of which the text is read as the tokens of its derivation, with EXPLAIN before it or without.
  lemma ExplainReads(explain: bool, own: Text, t: SentenceTree)
    requires Reads(own + [], SentenceYield(t), [])
    ensures Reads(ExplainSql(explain) + own, LineYield(LineTree(ExplainTree(explain), t, None)), [])
  {
    var ts := SentenceYield(t);
    assert own + [] == own;
    assert ts + [] == ts;
    if explain {
      WordSpace(EXPLAIN, own, ts, []);
      assert "EXPLAIN " + own == "EXPLAIN" + ([' '] + own);
    } else {
      assert "" + own == own && [] + ts == ts;
    }
  }

  lemma LineReparses(sql: Text, line: LineTree)
    requires LineFits(line) && Reads(sql, LineYield(line), [])
    ensures StatementOf(Tokenize(sql)) == Some(LineMeaning(line))
  {
    EndOfText(sql, LineYield(line));
    LineComplete(line);
  }

  lemma SelectReparses(select: SelectAst, explain: bool)
    requires AstWritable(SelectTree(select, explain))
    ensures StatementOf(Tokenize(ExplainSql(explain) + SelectSql(select))) == Some(SelectTree(select, explain))
  {
    SelectReads(select, []);
    ExplainReads(explain, SelectSql(select), SelectTreeOf(select));
    LineReparses(ExplainSql(explain) + SelectSql(select), LineTree(ExplainTree(explain), SelectTreeOf(select), None));
  }

  lemma DeleteReparses(delete: DeleteAst, explain: bool)
    requires AstWritable(DeleteTree(delete, explain))
    ensures StatementOf(Tokenize(ExplainSql(explain) + DeleteSql(delete))) == Some(DeleteTree(delete, explain))
  {
    DeleteReads(delete, []);
    ExplainReads(explain, DeleteSql(delete), DeleteTreeOf(delete));
    LineReparses(ExplainSql(explain) + DeleteSql(delete), LineTree(ExplainTree(explain), DeleteTreeOf(delete), None));
  }

  lemma InsertReparses(insert: InsertAst)
    requires AstWritable(InsertTree(insert))
    ensures StatementOf(Tokenize(InsertSql(insert))) == Some(InsertTree(insert))
  {
    InsertReads(insert, []);
    InsertTreeMeans(insert);
    ExplainReads(false, InsertSql(insert), InsertTreeOf(insert));
    assert "" + InsertSql(insert) == InsertSql(insert);
    LineReparses(InsertSql(insert), LineTree(None, InsertTreeOf(insert), None));
  }

  lemma EmptyReparses()
    ensures StatementOf(Tokenize("")) == Some(EmptyTree)
  {
    ReadsNone("");
    assert LineYield(LineTree(None, EmptySentence, None)) == [];
    LineReparses("", LineTree(None, EmptySentence, None));
  }

  /** A statement written out as SQL is read back as that statement. */
  lemma StatementReparses(ast: Ast)
    requires AstWritable(ast)
    ensures AstJoins(ast) && StatementOf(Tokenize(Sql(ast))) == Some(ast)
  {
    WritableJoins(ast);
    match ast
    case EmptyTree => EmptyReparses();
    case InsertTree(insert) => InsertReparses(insert);
    case SelectTree(select, explain) => SelectReparses(select, explain);
    case CreateTree(create) =>
      PlainNameIsName(create.tableName);
      Canonical.CanonicalReparses(create);
    case DeleteTree(delete, explain) => DeleteReparses(delete, explain);
  }
}
