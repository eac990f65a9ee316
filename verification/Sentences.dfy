/** The grammar of a whole line, as derivation trees, and the parser's agreement with it. */
module Sentences {
  import opened Pages
  import opened Tokens
  import opened Parsing
  import opened Grammar

  // Names, each but the last with a comma after it.
  datatype NamesTree = LastName(name: Token) | NameThenMore(name: Token, comma: Token, more: NamesTree)

  // Values, each but the last with a comma after it.
  datatype ValuesTree =
    | LastValue(value: OperandTree)
    | ValueThenMore(value: OperandTree, comma: Token, more: ValuesTree)

  // The column list of an INSERT, which may be left out.
  datatype ListTree = NoList | Listed(open: Token, names: NamesTree, close: Token)

  datatype ItemsTree = Items(values: Token, open: Token, list: ValuesTree, close: Token)

  // What a SELECT asks for: every column, or some.
  datatype WantedTree = Star(star: Token) | Wanted(names: NamesTree)

  datatype WhereTree = NoWhere | Where(where: Token, expr: OrTree)

  datatype FromTree = From(from: Token, table: Token, where: WhereTree)

  datatype TypeTree = IntTree(word: Token) | TextTree(text: Token, open: Token, width: Token, close: Token)

  datatype KeyTree = NoKey | PrimaryKeyTree(primary: Token, key: Token)

  datatype ColumnTree = ColumnTree(name: Token, kind: TypeTree, key: KeyTree)

  datatype ColumnsTree =
    | LastColumn(column: ColumnTree)
    | ColumnThenMore(column: ColumnTree, comma: Token, more: ColumnsTree)

  datatype SentenceTree =
    | EmptySentence
    | InsertSentence(insert: Token, into: Token, table: Token, list: ListTree, items: ItemsTree)
    | SelectSentence(select: Token, wanted: WantedTree, from: FromTree)
    | DeleteSentence(delete: Token, from: FromTree)
    | CreateSentence(create: Token, tableWord: Token, name: Token, open: Token, columns: ColumnsTree, close: Token)

  // A line: EXPLAIN before a statement that may have it, and a semicolon after, if it is there.
  datatype LineTree = LineTree(explain: Option<Token>, sentence: SentenceTree, semicolon: Option<Token>)

  // ------------------------------------------------------------ the grammar's tokens, in the right places

  predicate NamesFit(t: NamesTree) {
    && t.name.kind == IdentifierToken
    && (t.NameThenMore? ==> t.comma.kind == CommaToken && NamesFit(t.more))
  }

  // A value is an operand that is no name.
  predicate ValueFits(t: OperandTree) {
    OperandFits(t) && !(t.Single? && t.token.kind == IdentifierToken)
  }

  predicate ValuesFit(t: ValuesTree) {
    && ValueFits(t.value)
    && (t.ValueThenMore? ==> t.comma.kind == CommaToken && ValuesFit(t.more))
  }

  predicate ListFits(t: ListTree) {
    t.Listed? ==> t.open.kind == LeftParenToken && NamesFit(t.names) && t.close.kind == RightParenToken
  }

  predicate ItemsFit(t: ItemsTree) {
    && t.values.kind == ValuesToken && t.open.kind == LeftParenToken && ValuesFit(t.list)
    && t.close.kind == RightParenToken
  }

  predicate WantedFits(t: WantedTree) {
    match t
    case Star(star) => star.kind == StarToken
    case Wanted(names) => NamesFit(names)
  }

  predicate WhereTreeFits(t: WhereTree) {
    t.Where? ==> t.where.kind == WhereToken && OrFits(t.expr) && OrNesting(t.expr) <= 64
  }

  predicate FromFits(t: FromTree) {
    t.from.kind == FromToken && t.table.kind == IdentifierToken && WhereTreeFits(t.where)
  }

  predicate TypeFits(t: TypeTree) {
    match t
    case IntTree(word) => word.kind == IntToken
    case TextTree(text, open, width, close) =>
      && text.kind == TextToken && open.kind == LeftParenToken && width.kind == IntegerToken
      && close.kind == RightParenToken
  }

  predicate KeyFits(t: KeyTree) {
    t.PrimaryKeyTree? ==> t.primary.kind == PrimaryToken && t.key.kind == KeyToken
  }

  predicate ColumnTreeFits(t: ColumnTree) {
    t.name.kind == IdentifierToken && TypeFits(t.kind) && KeyFits(t.key)
  }

  predicate ColumnsFit(t: ColumnsTree) {
    && ColumnTreeFits(t.column)
    && (t.ColumnThenMore? ==> t.comma.kind == CommaToken && ColumnsFit(t.more))
  }

  predicate SentenceFits(t: SentenceTree) {
    match t
    case EmptySentence => true
    case InsertSentence(insert, into, table, list, items) =>
      && insert.kind == InsertToken && into.kind == IntoToken && table.kind == IdentifierToken
      && ListFits(list) && ItemsFit(items)
    case SelectSentence(select, wanted, from) => select.kind == SelectToken && WantedFits(wanted) && FromFits(from)
    case DeleteSentence(delete, from) => delete.kind == DeleteToken && FromFits(from)
    case CreateSentence(create, tableWord, name, open, columns, close) =>
      && create.kind == CreateToken && tableWord.kind == TableToken && name.kind == IdentifierToken
      && open.kind == LeftParenToken && ColumnsFit(columns) && close.kind == RightParenToken
  }

  predicate LineFits(t: LineTree) {
    && (t.explain.Some? ==>
          t.explain.value.kind == ExplainToken && (t.sentence.SelectSentence? || t.sentence.DeleteSentence?))
    && SentenceFits(t.sentence)
    && (t.semicolon.Some? ==> t.semicolon.value.kind == SemicolonToken)
  }

  // ------------------------------------------------------------ the tokens a tree derives

  function NamesYield(t: NamesTree): seq<Token> {
    match t
    case LastName(name) => [name]
    case NameThenMore(name, comma, more) => [name, comma] + NamesYield(more)
  }

  function ValuesYield(t: ValuesTree): seq<Token> {
    match t
    case LastValue(value) => OperandYield(value)
    case ValueThenMore(value, comma, more) => OperandYield(value) + ([comma] + ValuesYield(more))
  }

  function ListYield(t: ListTree): seq<Token> {
    match t
    case NoList => []
    case Listed(open, names, close) => [open] + (NamesYield(names) + [close])
  }

  function ItemsYield(t: ItemsTree): seq<Token> {
    [t.values, t.open] + (ValuesYield(t.list) + [t.close])
  }

  function WantedYield(t: WantedTree): seq<Token> {
    match t
    case Star(star) => [star]
    case Wanted(names) => NamesYield(names)
  }

  function WhereYield(t: WhereTree): seq<Token> {
    match t
    case NoWhere => []
    case Where(where, expr) => [where] + OrYield(expr)
  }

  function FromYield(t: FromTree): seq<Token> {
    [t.from, t.table] + WhereYield(t.where)
  }

  function TypeYield(t: TypeTree): seq<Token> {
    match t
    case IntTree(word) => [word]
    case TextTree(text, open, width, close) => [text, open, width, close]
  }

  function KeyYield(t: KeyTree): seq<Token> {
    match t
    case NoKey => []
    case PrimaryKeyTree(primary, key) => [primary, key]
  }

  function ColumnYield(t: ColumnTree): seq<Token> {
    [t.name] + (TypeYield(t.kind) + KeyYield(t.key))
  }

  function ColumnsYield(t: ColumnsTree): seq<Token> {
    match t
    case LastColumn(column) => ColumnYield(column)
    case ColumnThenMore(column, comma, more) => ColumnYield(column) + ([comma] + ColumnsYield(more))
  }

  function SentenceYield(t: SentenceTree): seq<Token> {
    match t
    case EmptySentence => []
    case InsertSentence(insert, into, table, list, items) =>
      [insert, into, table] + (ListYield(list) + ItemsYield(items))
    case SelectSentence(select, wanted, from) => [select] + (WantedYield(wanted) + FromYield(from))
    case DeleteSentence(delete, from) => [delete] + FromYield(from)
    case CreateSentence(create, tableWord, name, open, columns, close) =>
      [create, tableWord, name, open] + (ColumnsYield(columns) + [close])
  }

  function OneOrNone(t: Option<Token>): seq<Token> {
    if t.Some? then [t.value] else []
  }

  function LineYield(t: LineTree): seq<Token> {
    OneOrNone(t.explain) + (SentenceYield(t.sentence) + OneOrNone(t.semicolon))
  }

  // ------------------------------------------------------------ what a tree means

  function NamesMeaning(t: NamesTree): seq<Text> {
    match t
    case LastName(name) => [name.text]
    case NameThenMore(name, _, more) => [name.text] + NamesMeaning(more)
  }

  function ValueMeaning(t: OperandTree): Literal
    requires ValueFits(t)
  {
    match t
    case Single(token) => LiteralOf(false, token)
    case Signed(_, integer) => LiteralOf(true, integer)
  }

  function ValuesMeaning(t: ValuesTree): seq<Literal>
    requires ValuesFit(t)
  {
    match t
    case LastValue(value) => [ValueMeaning(value)]
    case ValueThenMore(value, _, more) => [ValueMeaning(value)] + ValuesMeaning(more)
  }

  function ListMeaning(t: ListTree): Option<seq<Text>> {
    if t.NoList? then None else Some(NamesMeaning(t.names))
  }

  function WantedMeaning(t: WantedTree): Option<seq<Text>> {
    if t.Star? then None else Some(NamesMeaning(t.names))
  }

  function WhereMeaning(t: WhereTree): Option<ExprAst>
    requires WhereTreeFits(t)
  {
    if t.NoWhere? then None else Some(OrMeaning(t.expr))
  }

  function TypeMeaning(t: TypeTree): ColumnTypeAst {
    if t.IntTree? then IntType else TextType(t.width.integer, t.width.outOfRange)
  }

  function ColumnMeaning(t: ColumnTree): ColumnAst {
    ColumnAst(t.name.text, TypeMeaning(t.kind), t.key.PrimaryKeyTree?)
  }

  function ColumnsMeaning(t: ColumnsTree): seq<ColumnAst> {
    match t
    case LastColumn(column) => [ColumnMeaning(column)]
    case ColumnThenMore(column, _, more) => [ColumnMeaning(column)] + ColumnsMeaning(more)
  }

  function SentenceMeaning(t: SentenceTree, explain: bool): Ast
    requires SentenceFits(t)
  {
    match t
    case EmptySentence => EmptyTree
    case InsertSentence(_, _, table, list, items) =>
      InsertTree(InsertAst(table.text, ListMeaning(list), ValuesMeaning(items.list)))
    case SelectSentence(_, wanted, from) =>
      SelectTree(SelectAst(from.table.text, WantedMeaning(wanted), WhereMeaning(from.where)), explain)
    case DeleteSentence(_, from) => DeleteTree(DeleteAst(from.table.text, WhereMeaning(from.where)), explain)
    case CreateSentence(_, _, name, _, columns, _) => CreateTree(CreateTableAst(name.text, ColumnsMeaning(columns)))
  }

  function LineMeaning(t: LineTree): Ast
    requires LineFits(t)
  {
    SentenceMeaning(t.sentence, t.explain.Some?)
  }

  // ------------------------------------------------------------ every derivable list is parsed

  lemma Chained(a: seq<Token>, x: Token, b: seq<Token>, rest: seq<Token>)
    ensures a + ([x] + b) + rest == a + ([x] + (b + rest))
  {
  }

  lemma Headed(x: Token, a: seq<Token>, b: seq<Token>, rest: seq<Token>)
    ensures var ts := [x] + (a + b) + rest; |ts| > 0 && ts[0] == x && ts[1..] == a + (b + rest)
  {
  }

  lemma Enclosed(x: Token, y: Token, a: seq<Token>, z: Token, rest: seq<Token>)
    ensures var ts := [x, y] + (a + [z]) + rest;
      |ts| > 2 && ts[0] == x && |ts[1..]| > 0 && ts[1..][0] == y && ts[2..] == a + ([z] + rest)
    ensures ([z] + rest)[1..] == rest
  {
  }

  lemma {:induction false} NamesComplete(t: NamesTree, rest: seq<Token>)
    requires NamesFit(t) && Kind(rest) != CommaToken
    ensures NameListAt(NamesYield(t) + rest) == Parsed(NamesMeaning(t), rest)
  {
    var ts := NamesYield(t) + rest;
    match t
    case LastName(_) => assert ts[1..] == rest;
    case NameThenMore(_, comma, more) =>
      NamesComplete(more, rest);
      assert ts[1..][0] == comma && ts[2..] == NamesYield(more) + rest;
  }

  lemma ValueComplete(t: OperandTree, rest: seq<Token>)
    requires ValueFits(t)
    ensures LiteralAt(OperandYield(t) + rest) == Parsed(ValueMeaning(t), rest)
  {
    var ts := OperandYield(t) + rest;
    match t
    case Single(_) => assert ts[1..] == rest;
    case Signed(_, _) => assert ts[2..] == rest;
  }

  lemma ValueChain(ts: seq<Token>, v: Literal, comma: Token, more: seq<Token>)
    requires comma.kind == CommaToken && LiteralAt(ts) == Parsed(v, [comma] + more)
    ensures LiteralListAt(ts) == Prepended([v], LiteralListAt(more))
  {
    assert ([comma] + more)[1..] == more;
  }

  lemma {:induction false} ValuesComplete(t: ValuesTree, rest: seq<Token>)
    requires ValuesFit(t) && Kind(rest) != CommaToken
    ensures LiteralListAt(ValuesYield(t) + rest) == Parsed(ValuesMeaning(t), rest)
  {
    match t
    case LastValue(value) => ValueComplete(value, rest);
    case ValueThenMore(value, comma, more) =>
      ValuesComplete(more, rest);
      ValueComplete(value, [comma] + (ValuesYield(more) + rest));
      Chained(OperandYield(value), comma, ValuesYield(more), rest);
      ValueChain(ValuesYield(t) + rest, ValueMeaning(value), comma, ValuesYield(more) + rest);
  }

  lemma ListComplete(t: ListTree, rest: seq<Token>)
    requires ListFits(t) && Kind(rest) != LeftParenToken
    ensures ColumnNamesAt(ListYield(t) + rest) == Parsed(ListMeaning(t), rest)
  {
    match t
    case NoList => assert [] + rest == rest;
    case Listed(open, names, close) =>
      NamesComplete(names, [close] + rest);
      Headed(open, NamesYield(names), [close], rest);
      assert ([close] + rest)[1..] == rest;
  }

  lemma ItemsComplete(t: ItemsTree, rest: seq<Token>)
    requires ItemsFit(t)
    ensures ValuesAt(ItemsYield(t) + rest) == Parsed(ValuesMeaning(t.list), rest)
  {
    ValuesComplete(t.list, [t.close] + rest);
    Enclosed(t.values, t.open, ValuesYield(t.list), t.close, rest);
  }

  lemma WantedComplete(t: WantedTree, rest: seq<Token>)
    requires WantedFits(t) && Kind(rest) != CommaToken
    ensures SelectedAt(WantedYield(t) + rest) == Parsed(WantedMeaning(t), rest)
  {
    match t
    case Star(_) => assert (WantedYield(t) + rest)[1..] == rest;
    case Wanted(names) => NamesComplete(names, rest);
  }

  lemma FromComplete(t: FromTree, rest: seq<Token>)
    requires FromFits(t) && Kind(rest) !in {WhereToken, AndToken, OrToken}
    ensures FromAt(FromYield(t) + rest) == Parsed((t.table.text, WhereMeaning(t.where)), rest)
  {
    var ts := FromYield(t) + rest;
    assert ts[1..][0] == t.table && ts[2..] == WhereYield(t.where) + rest;
    match t.where
    case NoWhere => assert [] + rest == rest;
    case Where(where, expr) =>
      OrComplete(expr, rest, 0);
      assert ts[3..] == OrYield(expr) + rest;
  }

  lemma TypeComplete(t: TypeTree, rest: seq<Token>)
    requires TypeFits(t)
    ensures TypeAt(TypeYield(t) + rest) == Parsed(TypeMeaning(t), rest)
  {
    var ts := TypeYield(t) + rest;
    match t
    case IntTree(_) => assert ts[1..] == rest;
    case TextTree(_, open, width, close) =>
      assert ts[1..][0] == open && ts[2..][0] == width && ts[3..][0] == close && ts[4..] == rest;
  }

  lemma KeyedColumn(ts: seq<Token>, t: ColumnTree, tail: seq<Token>, rest: seq<Token>)
    requires ColumnTreeFits(t) && |ts| > 0 && ts[0] == t.name && TypeAt(ts[1..]) == Parsed(TypeMeaning(t.kind), tail)
    requires tail == KeyYield(t.key) + rest && Kind(rest) != PrimaryToken
    ensures ColumnAt(ts) == Parsed(ColumnMeaning(t), rest)
  {
    match t.key
    case NoKey => assert tail == rest;
    case PrimaryKeyTree(_, key) => assert tail[1..][0] == key && tail[2..] == rest;
  }

  lemma ColumnComplete(t: ColumnTree, rest: seq<Token>)
    requires ColumnTreeFits(t) && Kind(rest) != PrimaryToken
    ensures ColumnAt(ColumnYield(t) + rest) == Parsed(ColumnMeaning(t), rest)
  {
    var ts, tail := ColumnYield(t) + rest, KeyYield(t.key) + rest;
    TypeComplete(t.kind, tail);
    Headed(t.name, TypeYield(t.kind), KeyYield(t.key), rest);
    KeyedColumn(ts, t, tail, rest);
  }

  lemma ColumnChain(ts: seq<Token>, c: ColumnAst, comma: Token, more: seq<Token>)
    requires comma.kind == CommaToken && ColumnAt(ts) == Parsed(c, [comma] + more)
    ensures ColumnListAt(ts) == Prepended([c], ColumnListAt(more))
  {
    assert ([comma] + more)[1..] == more;
  }

  lemma {:induction false} ColumnsComplete(t: ColumnsTree, rest: seq<Token>)
    requires ColumnsFit(t) && Kind(rest) !in {CommaToken, PrimaryToken}
    ensures ColumnListAt(ColumnsYield(t) + rest) == Parsed(ColumnsMeaning(t), rest)
  {
    match t
    case LastColumn(column) => ColumnComplete(column, rest);
    case ColumnThenMore(column, comma, more) =>
      ColumnsComplete(more, rest);
      ColumnComplete(column, [comma] + (ColumnsYield(more) + rest));
      Chained(ColumnYield(column), comma, ColumnsYield(more), rest);
      ColumnChain(ColumnsYield(t) + rest, ColumnMeaning(column), comma, ColumnsYield(more) + rest);
  }

  // ------------------------------------------------------------ every derivable line is parsed

  lemma InsertTokens(x: Token, y: Token, z: Token, a: seq<Token>, b: seq<Token>, rest: seq<Token>)
    ensures var ts := [x, y, z] + (a + b) + rest;
      |ts| > 2 && ts[0] == x && ts[1..][0] == y && ts[2..][0] == z && ts[2] == z && ts[3..] == a + (b + rest)
  {
  }

  lemma InsertComplete(t: SentenceTree, rest: seq<Token>)
    requires t.InsertSentence? && SentenceFits(t)
    ensures InsertIntoAt(SentenceYield(t) + rest) ==
      Parsed(InsertAst(t.table.text, ListMeaning(t.list), ValuesMeaning(t.items.list)), rest)
    ensures Kind(SentenceYield(t) + rest) == InsertToken
  {
    InsertTokens(t.insert, t.into, t.table, ListYield(t.list), ItemsYield(t.items), rest);
    ListComplete(t.list, ItemsYield(t.items) + rest);
    ItemsComplete(t.items, rest);
    InsertFrom(SentenceYield(t) + rest, ListMeaning(t.list), ItemsYield(t.items) + rest, ValuesMeaning(t.items.list),
               rest);
  }

  lemma InsertFrom(ts: seq<Token>, names: Option<seq<Text>>, tail: seq<Token>, values: seq<Literal>, rest: seq<Token>)
    requires Kind(ts) == InsertToken && Kind(ts[1..]) == IntoToken && Kind(ts[2..]) == IdentifierToken
    requires ColumnNamesAt(ts[3..]) == Parsed(names, tail) && ValuesAt(tail) == Parsed(values, rest)
    ensures InsertIntoAt(ts) == Parsed(InsertAst(ts[2].text, names, values), rest)
  {
  }

  lemma SelectComplete(t: SentenceTree, rest: seq<Token>)
    requires t.SelectSentence? && SentenceFits(t) && Kind(rest) !in {WhereToken, AndToken, OrToken}
    ensures SelectAt(SentenceYield(t) + rest) ==
      Parsed(SelectAst(t.from.table.text, WantedMeaning(t.wanted), WhereMeaning(t.from.where)), rest)
    ensures Kind(SentenceYield(t) + rest) == SelectToken
  {
    Headed(t.select, WantedYield(t.wanted), FromYield(t.from), rest);
    WantedComplete(t.wanted, FromYield(t.from) + rest);
    FromComplete(t.from, rest);
  }

  lemma DeleteComplete(t: SentenceTree, rest: seq<Token>)
    requires t.DeleteSentence? && SentenceFits(t) && Kind(rest) !in {WhereToken, AndToken, OrToken}
    ensures DeleteAt(SentenceYield(t) + rest) ==
      Parsed(DeleteAst(t.from.table.text, WhereMeaning(t.from.where)), rest)
    ensures Kind(SentenceYield(t) + rest) == DeleteToken
  {
    assert (SentenceYield(t) + rest)[1..] == FromYield(t.from) + rest;
    FromComplete(t.from, rest);
  }

  lemma CreateTokens(x: Token, y: Token, z: Token, w: Token, a: seq<Token>, v: Token, rest: seq<Token>)
    ensures var ts := [x, y, z, w] + (a + [v]) + rest;
      && |ts| > 3 && ts[0] == x && ts[1..][0] == y && ts[2..][0] == z && ts[2] == z && ts[3..][0] == w
      && ts[4..] == a + ([v] + rest)
    ensures ([v] + rest)[1..] == rest
  {
  }

  lemma CreateComplete(t: SentenceTree, rest: seq<Token>)
    requires t.CreateSentence? && SentenceFits(t)
    ensures CreateAt(SentenceYield(t) + rest) == Parsed(CreateTableAst(t.name.text, ColumnsMeaning(t.columns)), rest)
    ensures Kind(SentenceYield(t) + rest) == CreateToken
  {
    CreateTokens(t.create, t.tableWord, t.name, t.open, ColumnsYield(t.columns), t.close, rest);
    ColumnsComplete(t.columns, [t.close] + rest);
  }

  lemma SentenceComplete(t: SentenceTree, explain: bool, rest: seq<Token>)
    requires SentenceFits(t) && Kind(rest) in {SemicolonToken, EndToken}
    ensures BodyAt(SentenceYield(t) + rest, explain) == Parsed(SentenceMeaning(t, explain), rest)
  {
    match t
    case EmptySentence => assert [] + rest == rest;
    case InsertSentence(_, _, _, _, _) =>
      InsertComplete(t, rest);
      InsertBody(SentenceYield(t) + rest, explain);
    case SelectSentence(_, _, _) =>
      SelectComplete(t, rest);
      SelectBody(SentenceYield(t) + rest, explain);
    case DeleteSentence(_, _) =>
      DeleteComplete(t, rest);
      DeleteBody(SentenceYield(t) + rest, explain);
    case CreateSentence(_, _, _, _, _, _) =>
      CreateComplete(t, rest);
      CreateBody(SentenceYield(t) + rest, explain);
  }

  lemma InsertBody(ts: seq<Token>, explain: bool)
    requires Kind(ts) == InsertToken && InsertIntoAt(ts).Parsed?
    ensures BodyAt(ts, explain) == Parsed(InsertTree(InsertIntoAt(ts).value), InsertIntoAt(ts).rest)
  {
  }

  lemma SelectBody(ts: seq<Token>, explain: bool)
    requires Kind(ts) == SelectToken && SelectAt(ts).Parsed?
    ensures BodyAt(ts, explain) == Parsed(SelectTree(SelectAt(ts).value, explain), SelectAt(ts).rest)
  {
  }

  lemma DeleteBody(ts: seq<Token>, explain: bool)
    requires Kind(ts) == DeleteToken && DeleteAt(ts).Parsed?
    ensures BodyAt(ts, explain) == Parsed(DeleteTree(DeleteAt(ts).value, explain), DeleteAt(ts).rest)
  {
  }

  lemma CreateBody(ts: seq<Token>, explain: bool)
    requires Kind(ts) == CreateToken && CreateAt(ts).Parsed?
    ensures BodyAt(ts, explain) == Parsed(CreateTree(CreateAt(ts).value), CreateAt(ts).rest)
  {
  }

  lemma EndComplete(t: LineTree)
    requires LineFits(t)
    ensures var rest := OneOrNone(t.semicolon) + [END]; AtEnd(rest) && Kind(rest) in {SemicolonToken, EndToken}
  {
    if t.semicolon.Some? { assert (OneOrNone(t.semicolon) + [END])[1..] == [END]; }
  }

  lemma LineTokens(a: seq<Token>, b: seq<Token>, c: seq<Token>)
    ensures a + (b + c) + [END] == a + (b + (c + [END]))
  {
  }

  lemma LineComplete(t: LineTree)
    requires LineFits(t)
    ensures StatementOf(LineYield(t) + [END]) == Some(LineMeaning(t))
  {
    var rest := OneOrNone(t.semicolon) + [END];
    var body := SentenceYield(t.sentence) + rest;
    EndComplete(t);
    SentenceComplete(t.sentence, t.explain.Some?, rest);
    LineTokens(OneOrNone(t.explain), SentenceYield(t.sentence), OneOrNone(t.semicolon));
    FirstTokens(t, rest);
    if t.explain.Some? { assert ([t.explain.value] + body)[1..] == body; } else { assert [] + body == body; }
  }

  // What a sentence starts with.
  lemma FirstTokens(t: LineTree, rest: seq<Token>)
    requires LineFits(t) && Kind(rest) in {SemicolonToken, EndToken}
    ensures var body := SentenceYield(t.sentence) + rest;
      && Kind(body) != ExplainToken
      && (t.explain.Some? ==> Kind(body) == SelectToken || Kind(body) == DeleteToken)
  {
    if t.sentence.EmptySentence? { assert [] + rest == rest; }
  }

  // ------------------------------------------------------------ everything parsed is derivable

  lemma {:induction false} NamesSound(ts: seq<Token>) returns (t: NamesTree)
    requires NameListAt(ts).Parsed?
    ensures NamesFit(t) && NamesMeaning(t) == NameListAt(ts).value && NamesYield(t) + NameListAt(ts).rest == ts
    decreases |ts|
  {
    if Kind(ts[1..]) != CommaToken {
      t := LastName(ts[0]);
    } else {
      var more := NamesSound(ts[2..]);
      t := NameThenMore(ts[0], ts[1], more);
      TwoFirst(ts, NamesYield(more), NameListAt(ts[2..]).rest);
    }
  }

  lemma ValueSound(ts: seq<Token>) returns (t: OperandTree)
    requires LiteralAt(ts).Parsed?
    ensures ValueFits(t) && ValueMeaning(t) == LiteralAt(ts).value && OperandYield(t) + LiteralAt(ts).rest == ts
  {
    t := if ts[0].kind == MinusToken then Signed(ts[0], ts[1]) else Single(ts[0]);
  }

  // What stands before and after a comma, put together.
  lemma Joined(a: seq<Token>, tail: seq<Token>, b: seq<Token>, rest: seq<Token>, ts: seq<Token>)
    requires a + tail == ts && |tail| > 0 && b + rest == tail[1..]
    ensures a + ([tail[0]] + b) + rest == ts
  {
    assert tail == [tail[0]] + tail[1..];
    Chained(a, tail[0], b, rest);
  }

  lemma {:induction false} ValuesSound(ts: seq<Token>) returns (t: ValuesTree)
    requires LiteralListAt(ts).Parsed?
    ensures ValuesFit(t) && ValuesMeaning(t) == LiteralListAt(ts).value
    ensures ValuesYield(t) + LiteralListAt(ts).rest == ts
    decreases |ts|
  {
    var value := ValueSound(ts);
    var tail := LiteralAt(ts).rest;
    if Kind(tail) != CommaToken {
      t := LastValue(value);
    } else {
      var more := ValuesSound(tail[1..]);
      t := ValueThenMore(value, tail[0], more);
      Joined(OperandYield(value), tail, ValuesYield(more), LiteralListAt(ts).rest, ts);
    }
  }

  lemma TypeSound(ts: seq<Token>) returns (t: TypeTree)
    requires TypeAt(ts).Parsed?
    ensures TypeFits(t) && TypeMeaning(t) == TypeAt(ts).value && TypeYield(t) + TypeAt(ts).rest == ts
  {
    if Kind(ts) == IntToken {
      t := IntTree(ts[0]);
    } else {
      t := TextTree(ts[0], ts[1], ts[2], ts[3]);
      assert ts == [ts[0], ts[1], ts[2], ts[3]] + ts[4..];
    }
  }

  lemma KeySound(ts: seq<Token>) returns (t: KeyTree)
    requires Kind(ts) == PrimaryToken ==> Kind(ts[1..]) == KeyToken
    ensures KeyFits(t) && (t.PrimaryKeyTree? <==> Kind(ts) == PrimaryToken)
    ensures KeyYield(t) + (if Kind(ts) == PrimaryToken then ts[2..] else ts) == ts
  {
    if Kind(ts) == PrimaryToken {
      t := PrimaryKeyTree(ts[0], ts[1]);
      assert ts == [ts[0], ts[1]] + ts[2..];
    } else {
      t := NoKey;
    }
  }

  lemma ColumnSound(ts: seq<Token>) returns (t: ColumnTree)
    requires ColumnAt(ts).Parsed?
    ensures ColumnTreeFits(t) && ColumnMeaning(t) == ColumnAt(ts).value && ColumnYield(t) + ColumnAt(ts).rest == ts
  {
    var kind := TypeSound(ts[1..]);
    var key := KeySound(TypeAt(ts[1..]).rest);
    t := ColumnTree(ts[0], kind, key);
    Rebuilt(ts, TypeYield(kind), TypeAt(ts[1..]).rest, KeyYield(key), ColumnAt(ts).rest);
  }

  lemma Rebuilt(ts: seq<Token>, a: seq<Token>, tail: seq<Token>, b: seq<Token>, rest: seq<Token>)
    requires |ts| > 0 && a + tail == ts[1..] && b + rest == tail
    ensures [ts[0]] + (a + b) + rest == ts
  {
    assert a + (b + rest) == a + b + rest;
    assert ts == [ts[0]] + ts[1..];
  }

  lemma {:induction false} ColumnsSound(ts: seq<Token>) returns (t: ColumnsTree)
    requires ColumnListAt(ts).Parsed?
    ensures ColumnsFit(t) && ColumnsMeaning(t) == ColumnListAt(ts).value
    ensures ColumnsYield(t) + ColumnListAt(ts).rest == ts
    decreases |ts|
  {
    var column := ColumnSound(ts);
    var tail := ColumnAt(ts).rest;
    if Kind(tail) != CommaToken {
      t := LastColumn(column);
    } else {
      var more := ColumnsSound(tail[1..]);
      t := ColumnThenMore(column, tail[0], more);
      Joined(ColumnYield(column), tail, ColumnsYield(more), ColumnListAt(ts).rest, ts);
    }
  }

  lemma ListSound(ts: seq<Token>) returns (t: ListTree)
    requires ColumnNamesAt(ts).Parsed?
    ensures ListFits(t) && ListMeaning(t) == ColumnNamesAt(ts).value && ListYield(t) + ColumnNamesAt(ts).rest == ts
  {
    if Kind(ts) != LeftParenToken {
      t := NoList;
      assert [] + ts == ts;
    } else {
      var names := NamesSound(ts[1..]);
      var tail := NameListAt(ts[1..]).rest;
      t := Listed(ts[0], names, tail[0]);
      assert tail == [tail[0]] + tail[1..];
      Rebuilt(ts, NamesYield(names), tail, [tail[0]], tail[1..]);
    }
  }

  lemma Enclosing(ts: seq<Token>, a: seq<Token>, tail: seq<Token>)
    requires |ts| > 1 && |tail| > 0 && a + tail == ts[2..]
    ensures [ts[0], ts[1]] + (a + [tail[0]]) + tail[1..] == ts
  {
    assert tail == [tail[0]] + tail[1..];
    assert ts == [ts[0], ts[1]] + ts[2..];
  }

  lemma ItemsSound(ts: seq<Token>) returns (t: ItemsTree)
    requires ValuesAt(ts).Parsed?
    ensures ItemsFit(t) && ValuesMeaning(t.list) == ValuesAt(ts).value && ItemsYield(t) + ValuesAt(ts).rest == ts
  {
    var list := ValuesSound(ts[2..]);
    var tail := LiteralListAt(ts[2..]).rest;
    t := Items(ts[0], ts[1], list, tail[0]);
    Enclosing(ts, ValuesYield(list), tail);
  }

  lemma WantedSound(ts: seq<Token>) returns (t: WantedTree)
    requires SelectedAt(ts).Parsed?
    ensures WantedFits(t) && WantedMeaning(t) == SelectedAt(ts).value && WantedYield(t) + SelectedAt(ts).rest == ts
  {
    if Kind(ts) == StarToken {
      t := Star(ts[0]);
    } else {
      var names := NamesSound(ts);
      t := Wanted(names);
    }
  }

  lemma WhereSound(ts: seq<Token>) returns (t: WhereTree)
    requires Kind(ts) == WhereToken ==> OrAt(ts[1..], 0).Parsed?
    ensures WhereTreeFits(t)
    ensures WhereMeaning(t) == if Kind(ts) == WhereToken then Some(OrAt(ts[1..], 0).value) else None
    ensures WhereYield(t) + (if Kind(ts) == WhereToken then OrAt(ts[1..], 0).rest else ts) == ts
  {
    if Kind(ts) == WhereToken {
      var expr := OrSound(ts[1..], 0);
      t := Where(ts[0], expr);
      assert ts == [ts[0]] + ts[1..];
      assert [ts[0]] + OrYield(expr) + OrAt(ts[1..], 0).rest == [ts[0]] + (OrYield(expr) + OrAt(ts[1..], 0).rest);
    } else {
      t := NoWhere;
      assert [] + ts == ts;
    }
  }

  lemma TwoFirst(ts: seq<Token>, a: seq<Token>, rest: seq<Token>)
    requires |ts| > 1 && a + rest == ts[2..]
    ensures [ts[0], ts[1]] + a + rest == ts
  {
    assert ts == [ts[0], ts[1]] + ts[2..];
  }

  lemma FromSound(ts: seq<Token>) returns (t: FromTree)
    requires FromAt(ts).Parsed?
    ensures FromFits(t) && (t.table.text, WhereMeaning(t.where)) == FromAt(ts).value
    ensures FromYield(t) + FromAt(ts).rest == ts
  {
    assert Kind(ts[2..]) == WhereToken ==> ts[2..][1..] == ts[3..];
    var where := WhereSound(ts[2..]);
    t := From(ts[0], ts[1], where);
    TwoFirst(ts, WhereYield(where), FromAt(ts).rest);
  }

  lemma ThreeFirst(ts: seq<Token>, a: seq<Token>, tail: seq<Token>, b: seq<Token>, rest: seq<Token>)
    requires |ts| > 2 && a + tail == ts[3..] && b + rest == tail
    ensures [ts[0], ts[1], ts[2]] + (a + b) + rest == ts
  {
    assert a + (b + rest) == a + b + rest;
    assert ts == [ts[0], ts[1], ts[2]] + ts[3..];
  }

  lemma InsertSound(ts: seq<Token>) returns (t: SentenceTree)
    requires InsertIntoAt(ts).Parsed?
    ensures t.InsertSentence? && SentenceFits(t)
    ensures SentenceMeaning(t, false) == InsertTree(InsertIntoAt(ts).value)
    ensures SentenceYield(t) + InsertIntoAt(ts).rest == ts
  {
    var list := ListSound(ts[3..]);
    var tail := ColumnNamesAt(ts[3..]).rest;
    var items := ItemsSound(tail);
    t := InsertSentence(ts[0], ts[1], ts[2], list, items);
    ThreeFirst(ts, ListYield(list), tail, ItemsYield(items), ValuesAt(tail).rest);
  }

  lemma SelectSound(ts: seq<Token>, explain: bool) returns (t: SentenceTree)
    requires SelectAt(ts).Parsed?
    ensures t.SelectSentence? && SentenceFits(t)
    ensures SentenceMeaning(t, explain) == SelectTree(SelectAt(ts).value, explain)
    ensures SentenceYield(t) + SelectAt(ts).rest == ts
  {
    var wanted := WantedSound(ts[1..]);
    var tail := SelectedAt(ts[1..]).rest;
    var from := FromSound(tail);
    t := SelectSentence(ts[0], wanted, from);
    Rebuilt(ts, WantedYield(wanted), tail, FromYield(from), FromAt(tail).rest);
  }

  lemma DeleteSound(ts: seq<Token>, explain: bool) returns (t: SentenceTree)
    requires DeleteAt(ts).Parsed?
    ensures t.DeleteSentence? && SentenceFits(t)
    ensures SentenceMeaning(t, explain) == DeleteTree(DeleteAt(ts).value, explain)
    ensures SentenceYield(t) + DeleteAt(ts).rest == ts
  {
    var from := FromSound(ts[1..]);
    t := DeleteSentence(ts[0], from);
    OneFirst(ts, FromYield(from), FromAt(ts[1..]).rest);
  }

  lemma OneFirst(ts: seq<Token>, a: seq<Token>, rest: seq<Token>)
    requires |ts| > 0 && a + rest == ts[1..]
    ensures [ts[0]] + a + rest == ts
  {
    assert ts == [ts[0]] + ts[1..];
  }

  lemma FourFirst(ts: seq<Token>, a: seq<Token>, tail: seq<Token>)
    requires |ts| > 3 && |tail| > 0 && a + tail == ts[4..]
    ensures [ts[0], ts[1], ts[2], ts[3]] + (a + [tail[0]]) + tail[1..] == ts
  {
    assert tail == [tail[0]] + tail[1..];
    assert ts == [ts[0], ts[1], ts[2], ts[3]] + ts[4..];
  }

  lemma CreateSound(ts: seq<Token>) returns (t: SentenceTree)
    requires CreateAt(ts).Parsed?
    ensures t.CreateSentence? && SentenceFits(t)
    ensures SentenceMeaning(t, false) == CreateTree(CreateAt(ts).value)
    ensures SentenceYield(t) + CreateAt(ts).rest == ts
  {
    var columns := ColumnsSound(ts[4..]);
    var tail := ColumnListAt(ts[4..]).rest;
    t := CreateSentence(ts[0], ts[1], ts[2], ts[3], columns, tail[0]);
    FourFirst(ts, ColumnsYield(columns), tail);
  }

  lemma SentenceSound(ts: seq<Token>, explain: bool) returns (t: SentenceTree)
    requires BodyAt(ts, explain).Parsed?
    ensures SentenceFits(t) && SentenceMeaning(t, explain) == BodyAt(ts, explain).value
    ensures SentenceYield(t) + BodyAt(ts, explain).rest == ts
    ensures Kind(ts) in {SelectToken, DeleteToken} ==> t.SelectSentence? || t.DeleteSentence?
  {
    if Kind(ts) == InsertToken {
      t := InsertSound(ts);
    } else if Kind(ts) == SelectToken {
      t := SelectSound(ts, explain);
    } else if Kind(ts) == DeleteToken {
      t := DeleteSound(ts, explain);
    } else if Kind(ts) == CreateToken {
      t := CreateSound(ts);
    } else {
      t := EmptySentence;
      EmptyYield(ts);
    }
  }

  lemma EmptyYield(ts: seq<Token>)
    ensures SentenceYield(EmptySentence) + ts == ts
  {
  }

  // ------------------------------------------------------------ where a line ends

  ghost predicate NoEnd(ts: seq<Token>) {
    forall i :: 0 <= i < |ts| ==> ts[i].kind != EndToken
  }

  lemma PartsNoEnd(a: seq<Token>, b: seq<Token>)
    requires NoEnd(a) && NoEnd(b)
    ensures NoEnd(a + b)
  {
  }

  lemma {:induction false} NamesNoEnd(t: NamesTree)
    requires NamesFit(t)
    ensures NoEnd(NamesYield(t))
  {
    if t.NameThenMore? {
      NamesNoEnd(t.more);
      PartsNoEnd([t.name, t.comma], NamesYield(t.more));
    }
  }

  lemma {:induction false} ValuesNoEnd(t: ValuesTree)
    requires ValuesFit(t)
    ensures NoEnd(ValuesYield(t))
  {
    if t.ValueThenMore? {
      ValuesNoEnd(t.more);
      PartsNoEnd([t.comma], ValuesYield(t.more));
      PartsNoEnd(OperandYield(t.value), [t.comma] + ValuesYield(t.more));
    }
  }

  lemma {:induction false} ColumnsNoEnd(t: ColumnsTree)
    requires ColumnsFit(t)
    ensures NoEnd(ColumnsYield(t))
  {
    ColumnNoEnd(t.column);
    if t.ColumnThenMore? {
      ColumnsNoEnd(t.more);
      PartsNoEnd([t.comma], ColumnsYield(t.more));
      PartsNoEnd(ColumnYield(t.column), [t.comma] + ColumnsYield(t.more));
    }
  }

  lemma ColumnNoEnd(t: ColumnTree)
    requires ColumnTreeFits(t)
    ensures NoEnd(ColumnYield(t))
  {
    assert NoEnd(TypeYield(t.kind)) && NoEnd(KeyYield(t.key));
    PartsNoEnd(TypeYield(t.kind), KeyYield(t.key));
    PartsNoEnd([t.name], TypeYield(t.kind) + KeyYield(t.key));
  }

  lemma {:induction false} NotNoEnd(t: NotTree)
    requires NotFits(t)
    ensures NoEnd(NotYield(t))
    decreases t
  {
    match t
    case Negated(not, inner) =>
      NotNoEnd(inner);
      PartsNoEnd([not], NotYield(inner));
    case Nested(open, expr, close) =>
      OrNoEnd(expr);
      PartsNoEnd([open], OrYield(expr));
      PartsNoEnd([open] + OrYield(expr), [close]);
    case Compared(left, op, right) =>
      PartsNoEnd(OperandYield(left), [op]);
      PartsNoEnd(OperandYield(left) + [op], OperandYield(right));
  }

  lemma {:induction false} AndNoEnd(t: AndTree)
    requires AndFits(t)
    ensures NoEnd(AndYield(t))
    decreases t
  {
    match t
    case LastNot(last) => NotNoEnd(last);
    case NotThenAnd(first, and, more) =>
      NotNoEnd(first);
      AndNoEnd(more);
      PartsNoEnd(NotYield(first), [and]);
      PartsNoEnd(NotYield(first) + [and], AndYield(more));
  }

  lemma {:induction false} OrNoEnd(t: OrTree)
    requires OrFits(t)
    ensures NoEnd(OrYield(t))
    decreases t
  {
    match t
    case LastAnd(last) => AndNoEnd(last);
    case AndThenOr(first, or, more) =>
      AndNoEnd(first);
      OrNoEnd(more);
      PartsNoEnd(AndYield(first), [or]);
      PartsNoEnd(AndYield(first) + [or], OrYield(more));
  }

  lemma FromNoEnd(t: FromTree)
    requires FromFits(t)
    ensures NoEnd(FromYield(t))
  {
    if t.where.Where? {
      OrNoEnd(t.where.expr);
      PartsNoEnd([t.where.where], OrYield(t.where.expr));
    }
    PartsNoEnd([t.from, t.table], WhereYield(t.where));
  }

  lemma ListNoEnd(t: ListTree)
    requires ListFits(t)
    ensures NoEnd(ListYield(t))
  {
    if t.Listed? {
      NamesNoEnd(t.names);
      PartsNoEnd(NamesYield(t.names), [t.close]);
      PartsNoEnd([t.open], NamesYield(t.names) + [t.close]);
    }
  }

  lemma InsertNoEnd(t: SentenceTree)
    requires t.InsertSentence? && SentenceFits(t)
    ensures NoEnd(SentenceYield(t))
  {
    ListNoEnd(t.list);
    ValuesNoEnd(t.items.list);
    PartsNoEnd(ValuesYield(t.items.list), [t.items.close]);
    PartsNoEnd([t.items.values, t.items.open], ValuesYield(t.items.list) + [t.items.close]);
    PartsNoEnd(ListYield(t.list), ItemsYield(t.items));
    PartsNoEnd([t.insert, t.into, t.table], ListYield(t.list) + ItemsYield(t.items));
  }

  lemma SelectNoEnd(t: SentenceTree)
    requires t.SelectSentence? && SentenceFits(t)
    ensures NoEnd(SentenceYield(t))
  {
    if t.wanted.Wanted? { NamesNoEnd(t.wanted.names); }
    FromNoEnd(t.from);
    PartsNoEnd(WantedYield(t.wanted), FromYield(t.from));
    PartsNoEnd([t.select], WantedYield(t.wanted) + FromYield(t.from));
  }

  lemma DeleteNoEnd(t: SentenceTree)
    requires t.DeleteSentence? && SentenceFits(t)
    ensures NoEnd(SentenceYield(t))
  {
    FromNoEnd(t.from);
    PartsNoEnd([t.delete], FromYield(t.from));
  }

  lemma CreateNoEnd(t: SentenceTree)
    requires t.CreateSentence? && SentenceFits(t)
    ensures NoEnd(SentenceYield(t))
  {
    ColumnsNoEnd(t.columns);
    PartsNoEnd(ColumnsYield(t.columns), [t.close]);
    PartsNoEnd([t.create, t.tableWord, t.name, t.open], ColumnsYield(t.columns) + [t.close]);
  }

  lemma SentenceNoEnd(t: SentenceTree)
    requires SentenceFits(t)
    ensures NoEnd(SentenceYield(t))
  {
    match t
    case EmptySentence =>
    case InsertSentence(_, _, _, _, _) => InsertNoEnd(t);
    case SelectSentence(_, _, _) => SelectNoEnd(t);
    case DeleteSentence(_, _) => DeleteNoEnd(t);
    case CreateSentence(_, _, _, _, _, _) => CreateNoEnd(t);
  }

  // Tokens that end where the line does leave nothing else over.
  lemma EndSound(a: seq<Token>, rest: seq<Token>, ts: seq<Token>) returns (semicolon: Option<Token>)
    requires NoEnd(ts) && NoEnd(a) && a + rest == ts + [END] && AtEnd(rest)
    ensures semicolon.Some? ==> semicolon.value.kind == SemicolonToken
    ensures a + OneOrNone(semicolon) == ts
  {
    var n := |a|;
    LastIsEnd(a, rest, ts);
    semicolon := if Kind(rest) == SemicolonToken then Some(rest[0]) else None;
    var k := |OneOrNone(semicolon)|;
    assert rest[k].kind == EndToken && (a + rest)[n + k] == rest[k];
    assert n + k == |ts|;
    assert (a + rest)[..n + k] == a + rest[..k];
    assert (ts + [END])[..|ts|] == ts;
  }

  lemma LastIsEnd(a: seq<Token>, rest: seq<Token>, ts: seq<Token>)
    requires NoEnd(a) && a + rest == ts + [END]
    ensures |rest| > 0 && rest[|rest| - 1] == END
  {
    assert (a + rest)[|ts|] == END;
  }

  function BodyOf(ts: seq<Token>): seq<Token> {
    if Kind(ts) == ExplainToken then ts[1..] else ts
  }

  lemma StatementParts(ts: seq<Token>, ast: Ast)
    requires StatementOf(ts) == Some(ast)
    ensures var explain, body := Kind(ts) == ExplainToken, BodyOf(ts);
      && (explain ==> Kind(body) in {SelectToken, DeleteToken})
      && BodyAt(body, explain).Parsed? && BodyAt(body, explain).value == ast && AtEnd(BodyAt(body, explain).rest)
  {
  }

  // EXPLAIN, if it is there, and the rest of the line.
  lemma ExplainApart(ts: seq<Token>) returns (own: seq<Token>)
    requires NoEnd(ts)
    ensures BodyOf(ts + [END]) == own + [END] && NoEnd(own)
    ensures OneOrNone(if Kind(ts + [END]) == ExplainToken then Some((ts + [END])[0]) else None) + own == ts
  {
    if Kind(ts + [END]) == ExplainToken {
      own := ts[1..];
      assert ts == [ts[0]] + ts[1..];
    } else {
      own := ts;
      assert [] + ts == ts;
    }
  }

  lemma LineSound(ts: seq<Token>, ast: Ast) returns (t: LineTree)
    requires NoEnd(ts) && StatementOf(ts + [END]) == Some(ast)
    ensures LineFits(t) && LineYield(t) == ts && LineMeaning(t) == ast
  {
    var all := ts + [END];
    var explain, body := Kind(all) == ExplainToken, BodyOf(all);
    StatementParts(all, ast);
    var own := ExplainApart(ts);
    var sentence := SentenceSound(body, explain);
    SentenceNoEnd(sentence);
    var semicolon := EndSound(SentenceYield(sentence), BodyAt(body, explain).rest, own);
    t := LineTree(if explain then Some(all[0]) else None, sentence, semicolon);
  }

  /** A line is a statement exactly when the grammar derives it, its WHERE nested at most 64 deep, and then it is the
      statement the derivation means. */
  lemma LineParsedExactly(ts: seq<Token>, ast: Ast)
    requires NoEnd(ts)
    ensures StatementOf(ts + [END]) == Some(ast) <==>
      exists t :: LineFits(t) && LineYield(t) == ts && LineMeaning(t) == ast
  {
    if StatementOf(ts + [END]) == Some(ast) {
      var t := LineSound(ts, ast);
    }
    if t :| LineFits(t) && LineYield(t) == ts && LineMeaning(t) == ast {
      LineComplete(t);
    }
  }
}
