/** The canonical text of an accepted definition parses back to the same definition. */
module Canonical {
  import opened Pages
  import opened Tokens
  import opened Parsing
  import opened Lexing
  import opened Spelling
  import opened Records
  import opened Sentences
  import opened Definitions
  import opened LineNames

  // ------------------------------------------------------------ the keywords it uses

  const CREATE: Token := Plain(CreateToken, "CREATE")
  const TABLE: Token := Plain(TableToken, "TABLE")
  const PRIMARY: Token := Plain(PrimaryToken, "PRIMARY")
  const KEY: Token := Plain(KeyToken, "KEY")
  const INT: Token := Plain(IntToken, "INT")
  const TEXT: Token := Plain(TextToken, "TEXT")

  // ------------------------------------------------------------ the tokens of the canonical text

  lemma NameLexes(w: Text, rest: Text)
    requires IsName(w) && Breaks(rest)
    ensures Reads(w + rest, [Plain(IdentifierToken, w)], rest)
  {
    WordLexes(w, rest);
  }

  lemma MarkThen(c: Byte, t: Token, rest: Text)
    requires c in {'(', ')', ','} && t == Plain(MarkOf(c), [c])
    ensures Reads([c] + rest, [t], rest)
  {
    MarkLexes(c, rest);
  }

  lemma WidthLexes(n: nat, rest: Text)
    requires n <= INT64_MAX && Breaks(rest)
    ensures Reads(Decimal(n) + rest, [Token(IntegerToken, Decimal(n), n, false)], rest)
  {
    NumberLexes(n, rest);
  }

  // One of the keywords above, before text that ends it.
  lemma KeywordLexes(t: Token, rest: Text)
    requires t == Plain(t.kind, t.text) && IsKeyword(t.text, t.kind) && Breaks(rest)
    ensures Reads(t.text + rest, [t], rest)
  {
    KeywordIsSpelled(t);
    TokenReads(t, rest);
  }

  lemma CreateLexes(rest: Text)
    requires Breaks(rest)
    ensures Reads("CREATE" + rest, [CREATE], rest)
  {
    KeywordLexes(CREATE, rest);
  }

  lemma TableLexes(rest: Text)
    requires Breaks(rest)
    ensures Reads("TABLE" + rest, [TABLE], rest)
  {
    KeywordLexes(TABLE, rest);
  }

  // A TEXT width that is printed and read back exactly.
  predicate Printable(c: ColumnAst) {
    IsName(c.name) && (c.kind.TextType? ==> !c.kind.widthOutOfRange && 0 <= c.kind.width <= INT64_MAX)
  }

  function TypeTreeOf(kind: ColumnTypeAst): TypeTree {
    match kind
    case IntType => IntTree(INT)
    case TextType(width, _) => TextTree(TEXT, OPEN, Token(IntegerToken, SignedDecimal(width), width, false), CLOSE)
  }

  function KeyTreeOf(primaryKey: bool): KeyTree {
    if primaryKey then PrimaryKeyTree(PRIMARY, KEY) else NoKey
  }

  function ColumnTreeOf(c: ColumnAst): ColumnTree {
    ColumnTree(Plain(IdentifierToken, c.name), TypeTreeOf(c.kind), KeyTreeOf(c.primaryKey))
  }

  function ColumnsTreeOf(columns: seq<ColumnAst>): ColumnsTree
    requires |columns| > 0
  {
    if |columns| == 1 then LastColumn(ColumnTreeOf(columns[0]))
    else ColumnThenMore(ColumnTreeOf(columns[0]), COMMA, ColumnsTreeOf(columns[1..]))
  }

  function CreateTreeOf(ast: CreateTableAst): SentenceTree
    requires |ast.columns| > 0
  {
    CreateSentence(CREATE, TABLE, Plain(IdentifierToken, ast.tableName), OPEN, ColumnsTreeOf(ast.columns), CLOSE)
  }

  function TypeTokens(kind: ColumnTypeAst): seq<Token> { TypeYield(TypeTreeOf(kind)) }

  function KeyTokens(primaryKey: bool): seq<Token> { KeyYield(KeyTreeOf(primaryKey)) }

  function ColumnTokens(c: ColumnAst): seq<Token> { ColumnYield(ColumnTreeOf(c)) }

  // The tokens of the columns from one on, each but the table's first after a comma.
  function ColumnsTokens(columns: seq<ColumnAst>, first: bool): seq<Token> {
    if |columns| == 0 then [] else (if first then [] else [COMMA]) + ColumnsYield(ColumnsTreeOf(columns))
  }

  lemma ColumnsTokensStep(columns: seq<ColumnAst>)
    requires |columns| > 0
    ensures ColumnsTokens(columns, true) == ColumnsYield(ColumnsTreeOf(columns))
         == ColumnTokens(columns[0]) + ColumnsTokens(columns[1..], false)
    ensures ColumnsTokens(columns, false) == [COMMA] + ColumnsTokens(columns, true)
  {
    assert [] + ColumnsYield(ColumnsTreeOf(columns)) == ColumnsYield(ColumnsTreeOf(columns));
    if |columns| == 1 { assert ColumnTokens(columns[0]) + [] == ColumnTokens(columns[0]); }
  }

  lemma TextTypeText(digits: Text, rest: Text)
    ensures "TEXT(" + digits + ")" + rest == "TEXT" + (['('] + (digits + ([')'] + rest)))
  {
  }

  lemma TypeLexed(kind: ColumnTypeAst, rest: Text)
    requires kind.TextType? ==> 0 <= kind.width <= INT64_MAX
    requires Breaks(rest)
    ensures Reads(TypeSql(kind) + rest, TypeTokens(kind), rest)
  {
    match kind
    case IntType => KeywordLexes(INT, rest);
    case TextType(width, _) =>
      var digits := Decimal(width);
      var number := Token(IntegerToken, digits, width, false);
      var a := [')'] + rest;
      var b := digits + a;
      var c := ['('] + b;
      TextTypeText(digits, rest);
      KeywordLexes(TEXT, c);
      MarkThen('(', OPEN, b);
      WidthLexes(width, a);
      MarkThen(')', CLOSE, rest);
      ReadsThen(b, [number], a, [CLOSE], rest);
      ReadsThen(c, [OPEN], b, [number] + [CLOSE], rest);
      ReadsThen("TEXT" + c, [TEXT], c, [OPEN] + ([number] + [CLOSE]), rest);
      assert [TEXT] + ([OPEN] + ([number] + [CLOSE])) == [TEXT, OPEN, number, CLOSE];
  }

  function KeySql(primaryKey: bool): Text {
    if primaryKey then " PRIMARY KEY" else ""
  }

  lemma KeyText(rest: Text)
    ensures " PRIMARY KEY" + rest == [' '] + ("PRIMARY" + ([' '] + ("KEY" + rest)))
  {
  }

  lemma KeyPartLexed(primaryKey: bool, rest: Text)
    requires Breaks(rest)
    ensures Reads(KeySql(primaryKey) + rest, KeyTokens(primaryKey), rest)
  {
    if primaryKey {
      var a := [' '] + ("KEY" + rest);
      KeyText(rest);
      KeywordLexes(KEY, rest);
      SpaceThen("KEY" + rest, [KEY], rest);
      KeywordLexes(PRIMARY, a);
      ReadsThen("PRIMARY" + a, [PRIMARY], a, [KEY], rest);
      SpaceThen("PRIMARY" + a, [PRIMARY] + [KEY], rest);
      assert [PRIMARY] + [KEY] == [PRIMARY, KEY];
    } else {
      assert [] + rest == rest;
      ReadsNone(rest);
    }
  }

  lemma ColumnText(name: Text, kind: Text, key: Text, rest: Text)
    ensures name + " " + kind + key + rest == name + ([' '] + (kind + (key + rest)))
  {
  }

  lemma KeyBreaks(primaryKey: bool, rest: Text)
    requires Breaks(rest)
    ensures Breaks(KeySql(primaryKey) + rest)
  {
    if !primaryKey { assert [] + rest == rest; }
  }

  lemma ColumnLexed(c: ColumnAst, rest: Text)
    requires Printable(c) && Breaks(rest)
    ensures Reads(ColumnSql(c) + rest, ColumnTokens(c), rest)
  {
    var a := KeySql(c.primaryKey) + rest;
    var b := TypeSql(c.kind) + a;
    ColumnText(c.name, TypeSql(c.kind), KeySql(c.primaryKey), rest);
    KeyBreaks(c.primaryKey, rest);
    KeyPartLexed(c.primaryKey, rest);
    TypeLexed(c.kind, a);
    ReadsThen(b, TypeTokens(c.kind), a, KeyTokens(c.primaryKey), rest);
    SpaceThen(b, TypeTokens(c.kind) + KeyTokens(c.primaryKey), rest);
    NameLexes(c.name, [' '] + b);
    ReadsThen(c.name + ([' '] + b), [Plain(IdentifierToken, c.name)], [' '] + b,
              TypeTokens(c.kind) + KeyTokens(c.primaryKey), rest);
  }

  lemma ColumnsText(columns: seq<ColumnAst>, first: bool, rest: Text)
    requires |columns| > 0
    ensures var own := ColumnSql(columns[0]) + (ColumnsSql(columns[1..], false) + rest);
      ColumnsSql(columns, first) + rest == if first then own else [','] + ([' '] + own)
  {
    ColumnsSqlStep(columns, first);
    SeparatorText(ColumnSql(columns[0]), ColumnsSql(columns[1..], false), rest);
  }

  lemma SeparatorText(column: Text, more: Text, rest: Text)
    ensures "" + column + more + rest == column + (more + rest)
    ensures ", " + column + more + rest == [','] + ([' '] + (column + (more + rest)))
  {
  }

  lemma MoreBreaks(columns: seq<ColumnAst>, rest: Text)
    requires Breaks(rest)
    ensures Breaks(ColumnsSql(columns, false) + rest)
  {
    if |columns| > 0 { ColumnsText(columns, false, rest); } else { assert ColumnsSql(columns, false) + rest == rest; }
  }

  // A comma, a space, and what follows.
  lemma CommaThen(own: Text, tokens: seq<Token>, rest: Text)
    requires Reads(own, tokens, rest)
    ensures Reads([','] + ([' '] + own), [COMMA] + tokens, rest)
  {
    SpaceThen(own, tokens, rest);
    MarkThen(',', COMMA, [' '] + own);
    ReadsThen([','] + ([' '] + own), [COMMA], [' '] + own, tokens, rest);
  }

  lemma {:induction false} ColumnsLexed(columns: seq<ColumnAst>, first: bool, rest: Text)
    requires forall i :: 0 <= i < |columns| ==> Printable(columns[i])
    requires Breaks(rest)
    ensures Reads(ColumnsSql(columns, first) + rest, ColumnsTokens(columns, first), rest)
  {
    if |columns| == 0 {
      assert ColumnsSql(columns, first) + rest == rest;
      ReadsNone(rest);
    } else {
      var more := ColumnsSql(columns[1..], false) + rest;
      var own := ColumnSql(columns[0]) + more;
      var tokens := ColumnTokens(columns[0]) + ColumnsTokens(columns[1..], false);
      ColumnsText(columns, first, rest);
      ColumnsLexed(columns[1..], false, rest);
      MoreBreaks(columns[1..], rest);
      ColumnLexed(columns[0], more);
      ReadsThen(own, ColumnTokens(columns[0]), more, ColumnsTokens(columns[1..], false), rest);
      ColumnsTokensStep(columns);
      if !first { CommaThen(own, tokens, rest); }
    }
  }

  function CreateTokens(ast: CreateTableAst): seq<Token> {
    var name := Plain(IdentifierToken, ast.tableName);
    [CREATE] + ([TABLE] + ([name] + ([OPEN] + (ColumnsTokens(ast.columns, true) + [CLOSE]))))
  }

  lemma CreateText(name: Text, columns: Text)
    ensures "CREATE TABLE " + name + " (" + columns + ")"
         == "CREATE" + ([' '] + ("TABLE" + ([' '] + (name + ([' '] + (['('] + (columns + ([')'] + []))))))))
  {
  }

  lemma CanonicalLexed(ast: CreateTableAst)
    requires IsName(ast.tableName) && forall i :: 0 <= i < |ast.columns| ==> Printable(ast.columns[i])
    ensures Reads(CanonicalText(ast), CreateTokens(ast), [])
  {
    var name := Plain(IdentifierToken, ast.tableName);
    var columns := ColumnsTokens(ast.columns, true);
    var close := [')'] + [];
    var a := ColumnsSql(ast.columns, true) + close;
    var b := ['('] + a;
    var c := ast.tableName + ([' '] + b);
    var d := "TABLE" + ([' '] + c);
    CreateText(ast.tableName, ColumnsSql(ast.columns, true));
    MarkThen(')', CLOSE, []);
    ColumnsLexed(ast.columns, true, close);
    ReadsThen(a, columns, close, [CLOSE], []);
    MarkThen('(', OPEN, a);
    ReadsThen(b, [OPEN], a, columns + [CLOSE], []);
    SpaceThen(b, [OPEN] + (columns + [CLOSE]), []);
    NameLexes(ast.tableName, [' '] + b);
    ReadsThen(c, [name], [' '] + b, [OPEN] + (columns + [CLOSE]), []);
    SpaceThen(c, [name] + ([OPEN] + (columns + [CLOSE])), []);
    TableLexes([' '] + c);
    ReadsThen(d, [TABLE], [' '] + c, [name] + ([OPEN] + (columns + [CLOSE])), []);
    SpaceThen(d, [TABLE] + ([name] + ([OPEN] + (columns + [CLOSE]))), []);
    CreateLexes([' '] + d);
    ReadsThen("CREATE" + ([' '] + d), [CREATE], [' '] + d, [TABLE] + ([name] + ([OPEN] + (columns + [CLOSE]))), []);
  }

  // ------------------------------------------------------------ what they parse to

  lemma {:induction false} ColumnsTreeMeans(columns: seq<ColumnAst>)
    requires |columns| > 0 && forall i :: 0 <= i < |columns| ==> Printable(columns[i])
    ensures Sentences.ColumnsFit(ColumnsTreeOf(columns)) && ColumnsMeaning(ColumnsTreeOf(columns)) == columns
  {
    ColumnTreeMeans(columns[0]);
    if |columns| > 1 { ColumnsTreeMeans(columns[1..]); }
  }

  lemma ColumnTreeMeans(c: ColumnAst)
    requires Printable(c)
    ensures ColumnTreeFits(ColumnTreeOf(c)) && ColumnMeaning(ColumnTreeOf(c)) == c
  {
  }

  lemma CreateYield(ast: CreateTableAst)
    requires |ast.columns| > 0
    ensures LineYield(CreateLine(ast)) == CreateTokens(ast)
  {
    ColumnsTokensStep(ast.columns);
    CreateYielded(Plain(IdentifierToken, ast.tableName), ColumnsYield(ColumnsTreeOf(ast.columns)));
  }

  lemma CreateYielded(name: Token, columns: seq<Token>)
    ensures [] + ([CREATE, TABLE, name, OPEN] + (columns + [CLOSE]) + []) ==
      [CREATE] + ([TABLE] + ([name] + ([OPEN] + (columns + [CLOSE]))))
  {
  }

  /** The canonical text parses back to the very tree it was printed from. */
  lemma CanonicalReparses(ast: CreateTableAst)
    requires IsName(ast.tableName) && |ast.columns| > 0 && forall i :: 0 <= i < |ast.columns| ==>
      Printable(ast.columns[i])
    ensures StatementOf(Tokenize(CanonicalText(ast))) == Some(CreateTree(ast))
    ensures CreateStatement(Tokenize(CanonicalText(ast))) == Some(ast)
  {
    CanonicalLexed(ast);
    EndOfText(CanonicalText(ast), CreateTokens(ast));
    CreateYield(ast);
    CreateLineMeans(ast);
    LineComplete(CreateLine(ast));
    OnlyCreate(Tokenize(CanonicalText(ast)), ast);
  }

  lemma OnlyCreate(ts: seq<Token>, ast: CreateTableAst)
    requires StatementOf(ts) == Some(CreateTree(ast))
    ensures CreateStatement(ts) == Some(ast)
  {
  }

  function CreateLine(ast: CreateTableAst): LineTree
    requires |ast.columns| > 0
  {
    LineTree(None, CreateTreeOf(ast), None)
  }

  lemma CreateLineMeans(ast: CreateTableAst)
    requires |ast.columns| > 0 && forall i :: 0 <= i < |ast.columns| ==> Printable(ast.columns[i])
    ensures LineFits(CreateLine(ast)) && LineMeaning(CreateLine(ast)) == CreateTree(ast)
  {
    ColumnsTreeMeans(ast.columns);
  }

  // ------------------------------------------------------------ from a line of SQL

  /** Whatever line created a table, the canonical text kept of it is accepted again, defines
      the same table column for column, and prints as itself; and it fits the catalog. */
  lemma DefinitionSurvives(line: Text, ast: CreateTableAst, d: TableDefinition)
    requires CreateStatement(Tokenize(line)) == Some(ast) && Accepted(ast) && Defines(d, ast)
    ensures AstFits(ast) && CreateStatement(Tokenize(d.sql)) == Some(ast)
    ensures |d.name| <= TABLE_NAME_MAX_LENGTH && NulFree(d.name)
    ensures |d.sql| <= TABLE_SQL_MAX_LENGTH && NulFree(d.sql)
  {
    LineUsable(line);
    AcceptedPrintable(ast);
    CanonicalReparses(ast);
    NameNulFree(ast.tableName);
    CanonicalNulFree(ast);
  }

  lemma AcceptedPrintable(ast: CreateTableAst)
    requires AstFits(ast) && Accepted(ast)
    ensures forall i :: 0 <= i < |ast.columns| ==> Printable(ast.columns[i])
  {
    forall i | 0 <= i < |ast.columns| ensures Printable(ast.columns[i]) { assert WidthFits(ast.columns[i]); }
  }

  lemma {:induction false} ColumnsNulFree(columns: seq<ColumnAst>, first: bool)
    requires forall i :: 0 <= i < |columns| ==> Printable(columns[i])
    ensures NulFree(ColumnsSql(columns, first))
  {
    if |columns| > 0 {
      ColumnsSqlStep(columns, first);
      ColumnsNulFree(columns[1..], false);
      ColumnNulFree(columns[0]);
    }
  }

  lemma ColumnNulFree(c: ColumnAst)
    requires Printable(c)
    ensures NulFree(ColumnSql(c))
  {
    NameNulFree(c.name);
  }

  lemma NulFreeParts(a: Text, b: Text)
    requires NulFree(a) && NulFree(b)
    ensures NulFree(a + b)
  {
  }

  lemma CanonicalNulFree(ast: CreateTableAst)
    requires IsName(ast.tableName) && forall i :: 0 <= i < |ast.columns| ==> Printable(ast.columns[i])
    ensures NulFree(CanonicalText(ast))
  {
    NameNulFree(ast.tableName);
    ColumnsNulFree(ast.columns, true);
    FiveNulFree("CREATE TABLE ", ast.tableName, " (", ColumnsSql(ast.columns, true), ")");
  }

  lemma FiveNulFree(a: Text, b: Text, c: Text, d: Text, e: Text)
    requires NulFree(a) && NulFree(b) && NulFree(c) && NulFree(d) && NulFree(e)
    ensures NulFree(a + b + c + d + e)
  {
    NulFreeParts(a, b);
    NulFreeParts(a + b, c);
    NulFreeParts(a + b + c, d);
    NulFreeParts(a + b + c + d, e);
  }
}
