/** The names in a parsed statement are names, because the tokens of a line are well-formed. */
module LineNames {
  import opened Tokens
  import opened Pages
  import opened Records
  import opened Parsing
  import opened Lexing
  import opened Grammar
  import opened Definitions
  import opened Statements

  ghost predicate AllFit(ts: seq<Token>) {
    forall i :: 0 <= i < |ts| ==> TokenFits(ts[i])
  }

  lemma PartsFit(a: seq<Token>, b: seq<Token>)
    requires AllFit(a + b)
    ensures AllFit(a) && AllFit(b)
  {
    assert forall i :: 0 <= i < |a| ==> (a + b)[i] == a[i];
    assert forall i :: 0 <= i < |b| ==> (a + b)[|a| + i] == b[i];
  }

  // ------------------------------------------------------------ names in a WHERE

  lemma OperandTreeUsable(t: OperandTree)
    requires OperandFits(t) && AllFit(OperandYield(t))
    ensures OperandUsable(OperandMeaning(t))
  {
    if t.Single? { assert OperandYield(t)[0] == t.token; }
  }

  lemma {:induction false} NotTreeUsable(t: NotTree)
    requires NotFits(t) && AllFit(NotYield(t))
    ensures NamesUsable(NotMeaning(t))
    decreases t
  {
    match t
    case Negated(not, inner) =>
      PartsFit([not], NotYield(inner));
      NotTreeUsable(inner);
    case Nested(open, expr, close) =>
      PartsFit([open] + OrYield(expr), [close]);
      PartsFit([open], OrYield(expr));
      OrTreeUsable(expr);
    case Compared(left, op, right) =>
      PartsFit(OperandYield(left) + [op], OperandYield(right));
      PartsFit(OperandYield(left), [op]);
      OperandTreeUsable(left);
      OperandTreeUsable(right);
  }

  lemma {:induction false} AndTreeUsable(t: AndTree)
    requires AndFits(t) && AllFit(AndYield(t))
    ensures NamesUsable(AndMeaning(t)) && forall e :: e in AndOperands(t) ==> NamesUsable(e)
    decreases t
  {
    match t
    case LastNot(last) => NotTreeUsable(last);
    case NotThenAnd(first, and, more) =>
      PartsFit(NotYield(first) + [and], AndYield(more));
      PartsFit(NotYield(first), [and]);
      NotTreeUsable(first);
      AndTreeUsable(more);
  }

  lemma {:induction false} OrTreeUsable(t: OrTree)
    requires OrFits(t) && AllFit(OrYield(t))
    ensures NamesUsable(OrMeaning(t)) && forall e :: e in OrOperands(t) ==> NamesUsable(e)
    decreases t
  {
    match t
    case LastAnd(last) => AndTreeUsable(last);
    case AndThenOr(first, or, more) =>
      PartsFit(AndYield(first) + [or], OrYield(more));
      PartsFit(AndYield(first), [or]);
      AndTreeUsable(first);
      OrTreeUsable(more);
  }

  /** Every column a parsed WHERE names is named by a word. */
  lemma WhereUsable(ts: seq<Token>)
    requires AllFit(ts) && OrAt(ts, 0).Parsed?
    ensures NamesUsable(OrAt(ts, 0).value)
  {
    var t := OrSound(ts, 0);
    PartsFit(OrYield(t), OrAt(ts, 0).rest);
    OrTreeUsable(t);
  }

  // ------------------------------------------------------------ names in a CREATE TABLE

  ghost predicate AllColumnsFit(columns: seq<ColumnAst>) {
    |columns| > 0 && forall i :: 0 <= i < |columns| ==> ColumnFits(columns[i])
  }

  lemma OneMoreFits(c: ColumnAst, more: seq<ColumnAst>)
    requires ColumnFits(c)
    ensures AllColumnsFit([c]) && (AllColumnsFit(more) ==> AllColumnsFit([c] + more))
  {
  }

  lemma {:induction false} ColumnsFit(ts: seq<Token>)
    requires AllFit(ts) && ColumnListAt(ts).Parsed?
    ensures AllColumnsFit(ColumnListAt(ts).value)
    decreases |ts|
  {
    ColumnOneFits(ts);
    var rest := ColumnAt(ts).rest;
    if Kind(rest) == CommaToken {
      ColumnsFit(rest[1..]);
      OneMoreFits(ColumnAt(ts).value, ColumnListAt(rest[1..]).value);
    } else {
      OneMoreFits(ColumnAt(ts).value, []);
    }
  }

  lemma TypeFits(ts: seq<Token>)
    requires AllFit(ts) && TypeAt(ts).Parsed?
    ensures var k := TypeAt(ts).value; k.TextType? && !k.widthOutOfRange ==> 0 <= k.width <= INT64_MAX
    ensures AllFit(TypeAt(ts).rest)
  {
    if TypeAt(ts).value.TextType? { assert ts[2..][0] == ts[2]; }
  }

  lemma ColumnOneFits(ts: seq<Token>)
    requires AllFit(ts) && ColumnAt(ts).Parsed?
    ensures ColumnFits(ColumnAt(ts).value) && AllFit(ColumnAt(ts).rest)
  {
    assert ts[0].kind == IdentifierToken;
    TypeFits(ts[1..]);
  }

  lemma CreateFits(ts: seq<Token>)
    requires AllFit(ts) && CreateAt(ts).Parsed?
    ensures AstFits(CreateAt(ts).value)
  {
    assert Kind(ts[2..]) == IdentifierToken && ts[2..][0] == ts[2];
    ColumnsFit(ts[4..]);
  }

  // ------------------------------------------------------------ names in any statement

  predicate AllNulFree(names: seq<Text>) {
    forall i :: 0 <= i < |names| ==> NulFree(names[i])
  }

  predicate NamesOk(names: Option<seq<Text>>) {
    names.Some? ==> AllNulFree(names.value)
  }

  predicate WhereOk(where: Option<ExprAst>) {
    where.Some? ==> NamesUsable(where.value)
  }

  // A statement whose names are words.
  predicate AstUsable(ast: Ast) {
    match ast
    case EmptyTree => true
    case InsertTree(insert) => NulFree(insert.tableName) && NamesOk(insert.columnNames)
    case SelectTree(select, _) => NulFree(select.tableName) && NamesOk(select.columnNames) && WhereOk(select.where)
    case CreateTree(create) => AstFits(create)
    case DeleteTree(delete, _) => NulFree(delete.tableName) && WhereOk(delete.where)
  }

  lemma NameFits(ts: seq<Token>, i: nat)
    requires AllFit(ts) && i < |ts| && ts[i].kind == IdentifierToken
    ensures NulFree(ts[i].text)
  {
    NameNulFree(ts[i].text);
  }

  lemma {:induction false} NameListUsable(ts: seq<Token>)
    requires AllFit(ts) && NameListAt(ts).Parsed?
    ensures AllNulFree(NameListAt(ts).value) && AllFit(NameListAt(ts).rest)
    decreases |ts|
  {
    NameFits(ts, 0);
    if Kind(ts[1..]) == CommaToken { NameListUsable(ts[2..]); }
  }

  lemma FromUsable(ts: seq<Token>)
    requires AllFit(ts) && FromAt(ts).Parsed?
    ensures NulFree(FromAt(ts).value.0) && WhereOk(FromAt(ts).value.1)
  {
    assert ts[1..][0] == ts[1];
    NameFits(ts, 1);
    if Kind(ts[2..]) == WhereToken { WhereUsable(ts[3..]); }
  }

  lemma InsertUsable(ts: seq<Token>)
    requires AllFit(ts) && InsertIntoAt(ts).Parsed?
    ensures NulFree(InsertIntoAt(ts).value.tableName) && NamesOk(InsertIntoAt(ts).value.columnNames)
  {
    assert ts[2..][0] == ts[2];
    NameFits(ts, 2);
    var names := ts[3..];
    if Kind(names) == LeftParenToken { NameListUsable(names[1..]); }
  }

  lemma SelectUsable(ts: seq<Token>)
    requires AllFit(ts) && SelectAt(ts).Parsed?
    ensures var t := SelectAt(ts).value; NulFree(t.tableName) && NamesOk(t.columnNames) && WhereOk(t.where)
  {
    var names := ts[1..];
    if Kind(names) != StarToken { NameListUsable(names); }
    FromUsable(SelectedAt(names).rest);
  }

  lemma BodyUsable(ts: seq<Token>, explain: bool)
    requires AllFit(ts) && BodyAt(ts, explain).Parsed?
    ensures AstUsable(BodyAt(ts, explain).value)
  {
    match Kind(ts)
    case InsertToken => InsertUsable(ts);
    case SelectToken => SelectUsable(ts);
    case CreateToken => CreateFits(ts);
    case DeleteToken => FromUsable(ts[1..]);
    case _ =>
  }

  /** Whatever line was parsed, the statement found in it names its tables and columns by words. */
  lemma LineUsable(line: Text)
    requires StatementOf(Tokenize(line)).Some?
    ensures AstUsable(StatementOf(Tokenize(line)).value)
  {
    TokensFit(line);
    TokensUsable(Tokenize(line));
  }

  lemma TokensUsable(ts: seq<Token>)
    requires AllFit(ts) && StatementOf(ts).Some?
    ensures AstUsable(StatementOf(ts).value)
  {
    if Kind(ts) == ExplainToken { BodyUsable(ts[1..], true); } else { BodyUsable(ts, false); }
  }
}
