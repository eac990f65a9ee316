/** Whatever line was accepted, its statement can be written out again, and is then the same statement. */
module Rewriting {
  import opened Pages
  import opened Tokens
  import opened Parsing
  import opened Lexing
  import opened Spelling
  import opened Grammar
  import opened Sentences
  import opened Printing
  import opened LinePrinting
  import Canonical

  ghost predicate AllSpelled(ts: seq<Token>) {
    forall i :: 0 <= i < |ts| ==> ts[i].kind != ErrorToken ==> Spelled(ts[i])
  }

  lemma PartsSpelled(a: seq<Token>, b: seq<Token>)
    requires AllSpelled(a + b)
    ensures AllSpelled(a) && AllSpelled(b)
  {
    assert forall i :: 0 <= i < |a| ==> (a + b)[i] == a[i];
    assert forall i :: 0 <= i < |b| ==> (a + b)[|a| + i] == b[i];
  }

  lemma OneSpelled(t: Token)
    requires AllSpelled([t]) && t.kind != ErrorToken
    ensures Spelled(t)
  {
    assert [t][0] == t;
  }

  // The tokens of a line, and the one that ends it.
  lemma {:induction false} LineTokensSpelled(s: Text) returns (ts: seq<Token>)
    ensures Tokenize(s) == ts + [END] && NoEnd(ts) && AllSpelled(ts)
    decreases |s|
  {
    var (t, rest) := NextToken(s);
    if t.kind == EndToken {
      ts := [];
    } else {
      var more := LineTokensSpelled(rest);
      if t.kind != ErrorToken { var b := TokensSpelled(s); }
      ts := [t] + more;
      TokenizeStep(s, t, rest);
      MoreTokens(t, more);
    }
  }

  lemma MoreTokens(t: Token, more: seq<Token>)
    ensures [t] + (more + [END]) == [t] + more + [END]
    ensures t.kind != EndToken && NoEnd(more) ==> NoEnd([t] + more)
    ensures (t.kind != ErrorToken ==> Spelled(t)) && AllSpelled(more) ==> AllSpelled([t] + more)
  {
  }

  // ------------------------------------------------------------ a WHERE

  lemma NameWritable(t: Token)
    requires Spelled(t) && t.kind == IdentifierToken
    ensures IsPlainName(t.text)
  {
  }

  lemma NumberWritable(negative: bool, t: Token)
    requires Spelled(t) && t.kind == IntegerToken
    ensures LiteralWritable(LiteralOf(negative, t))
  {
    var l := LiteralOf(negative, t);
    if negative {
      assert l.text[1..] == t.text;
    }
  }

  lemma OperandTreeWritable(t: OperandTree)
    requires OperandFits(t) && AllSpelled(OperandYield(t))
    ensures OperandWritable(OperandMeaning(t))
  {
    match t
    case Single(token) =>
      OneSpelled(token);
      if token.kind == IntegerToken { NumberWritable(false, token); }
    case Signed(minus, integer) =>
      assert OperandYield(t)[1] == integer;
      NumberWritable(true, integer);
  }

  // Brackets that were not needed are dropped, so what is written out is nested no deeper.
  lemma {:induction false} NotTreeWritable(t: NotTree)
    requires NotFits(t) && AllSpelled(NotYield(t))
    ensures Joins(NotMeaning(t)) && OperandsWritable(NotMeaning(t)) && NotDepth(NotMeaning(t)) <= NotNesting(t)
    decreases t
  {
    match t
    case Negated(not, inner) =>
      PartsSpelled([not], NotYield(inner));
      NotTreeWritable(inner);
    case Nested(open, expr, close) =>
      PartsSpelled([open] + OrYield(expr), [close]);
      PartsSpelled([open], OrYield(expr));
      OrTreeWritable(expr);
      Bracketing(OrMeaning(expr));
    case Compared(left, op, right) =>
      PartsSpelled(OperandYield(left) + [op], OperandYield(right));
      PartsSpelled(OperandYield(left), [op]);
      OperandTreeWritable(left);
      OperandTreeWritable(right);
  }

  // Brackets around a condition are one level more at most.
  lemma Bracketing(e: ExprAst)
    ensures NotDepth(e) <= 1 + WhereDepth(e)
  {
    if e.OrAst? {
      assert NotDepth(e) == 1 + OrChainDepth(e.children);
    } else if e.AndAst? {
      assert NotDepth(e) == 1 + AndChainDepth(e.children);
    }
  }

  ghost predicate ListWritable(es: seq<ExprAst>) {
    forall e :: e in es ==> Joins(e) && OperandsWritable(e)
  }

  lemma OneMoreWritable(e: ExprAst, es: seq<ExprAst>)
    requires Joins(e) && OperandsWritable(e) && ListWritable(es)
    ensures ListWritable([e] + es) && ([e] + es)[1..] == es && ([e] + es)[0] == e
  {
  }

  lemma {:induction false} AndTreeWritable(t: AndTree)
    requires AndFits(t) && AllSpelled(AndYield(t))
    ensures ListWritable(AndOperands(t)) && AndChainDepth(AndOperands(t)) <= AndNesting(t)
    ensures Joins(AndMeaning(t)) && OperandsWritable(AndMeaning(t)) && AndDepth(AndMeaning(t)) <= AndNesting(t)
    decreases t
  {
    match t
    case LastNot(last) =>
      NotTreeWritable(last);
      AndDepthOf(last);
    case NotThenAnd(first, and, more) =>
      PartsSpelled(NotYield(first) + [and], AndYield(more));
      PartsSpelled(NotYield(first), [and]);
      NotTreeWritable(first);
      AndTreeWritable(more);
      OneMoreWritable(NotMeaning(first), AndOperands(more));
  }

  // Under AND and OR, a condition in brackets that needs none there is nested no deeper.
  lemma AndDepthOf(t: NotTree)
    requires NotFits(t) && NotDepth(NotMeaning(t)) <= NotNesting(t)
    ensures AndDepth(NotMeaning(t)) <= NotNesting(t)
  {
    var e := NotMeaning(t);
    if e.AndAst? { assert NotDepth(e) == 1 + AndChainDepth(e.children); }
  }

  lemma {:induction false} OrTreeWritable(t: OrTree)
    requires OrFits(t) && AllSpelled(OrYield(t))
    ensures ListWritable(OrOperands(t)) && OrChainDepth(OrOperands(t)) <= OrNesting(t)
    ensures Joins(OrMeaning(t)) && OperandsWritable(OrMeaning(t)) && WhereDepth(OrMeaning(t)) <= OrNesting(t)
    decreases t
  {
    match t
    case LastAnd(last) =>
      AndTreeWritable(last);
      WhereDepthOf(last);
    case AndThenOr(first, or, more) =>
      PartsSpelled(AndYield(first) + [or], OrYield(more));
      PartsSpelled(AndYield(first), [or]);
      AndTreeWritable(first);
      OrTreeWritable(more);
      OneMoreWritable(AndMeaning(first), OrOperands(more));
  }

  lemma WhereDepthOf(t: AndTree)
    requires AndFits(t) && AndDepth(AndMeaning(t)) <= AndNesting(t)
    ensures WhereDepth(AndMeaning(t)) <= AndNesting(t)
  {
    var e := AndMeaning(t);
    if e.OrAst? {
      assert AndDepth(e) == NotDepth(e) == 1 + OrChainDepth(e.children);
    }
  }

  // ------------------------------------------------------------ any statement

  lemma {:induction false} NamesTreeWritable(t: NamesTree)
    requires NamesFit(t) && AllSpelled(NamesYield(t))
    ensures NamesWritable(Some(NamesMeaning(t)))
  {
    assert NamesYield(t)[0] == t.name;
    if t.NameThenMore? {
      PartsSpelled([t.name, t.comma], NamesYield(t.more));
      NamesTreeWritable(t.more);
    }
  }

  lemma ValueWritable(t: OperandTree)
    requires Sentences.ValueFits(t) && AllSpelled(OperandYield(t))
    ensures LiteralWritable(ValueMeaning(t))
  {
    OperandTreeWritable(t);
  }

  lemma {:induction false} ValuesTreeWritable(t: ValuesTree)
    requires ValuesFit(t) && AllSpelled(ValuesYield(t))
    ensures ValuesWritable(ValuesMeaning(t))
  {
    match t
    case LastValue(value) => ValueWritable(value);
    case ValueThenMore(value, comma, more) =>
      PartsSpelled(OperandYield(value), [comma] + ValuesYield(more));
      PartsSpelled([comma], ValuesYield(more));
      ValueWritable(value);
      ValuesTreeWritable(more);
  }

  lemma FromTreeWritable(t: FromTree)
    requires FromFits(t) && AllSpelled(FromYield(t))
    ensures IsPlainName(t.table.text) && WhereOptional(WhereMeaning(t.where))
  {
    assert FromYield(t)[1] == t.table;
    PartsSpelled([t.from, t.table], WhereYield(t.where));
    if t.where.Where? {
      PartsSpelled([t.where.where], OrYield(t.where.expr));
      OrTreeWritable(t.where.expr);
    }
  }

  lemma InsertTreeWritable(t: SentenceTree)
    requires t.InsertSentence? && SentenceFits(t) && AllSpelled(SentenceYield(t))
    ensures AstWritable(SentenceMeaning(t, false))
  {
    assert SentenceYield(t)[2] == t.table;
    PartsSpelled([t.insert, t.into, t.table], ListYield(t.list) + ItemsYield(t.items));
    PartsSpelled(ListYield(t.list), ItemsYield(t.items));
    PartsSpelled([t.items.values, t.items.open], ValuesYield(t.items.list) + [t.items.close]);
    PartsSpelled(ValuesYield(t.items.list), [t.items.close]);
    ValuesTreeWritable(t.items.list);
    if t.list.Listed? {
      PartsSpelled([t.list.open], NamesYield(t.list.names) + [t.list.close]);
      PartsSpelled(NamesYield(t.list.names), [t.list.close]);
      NamesTreeWritable(t.list.names);
    }
  }

  lemma SelectTreeWritable(t: SentenceTree, explain: bool)
    requires t.SelectSentence? && SentenceFits(t) && AllSpelled(SentenceYield(t))
    ensures AstWritable(SentenceMeaning(t, explain))
  {
    PartsSpelled([t.select], WantedYield(t.wanted) + FromYield(t.from));
    PartsSpelled(WantedYield(t.wanted), FromYield(t.from));
    FromTreeWritable(t.from);
    if t.wanted.Wanted? { NamesTreeWritable(t.wanted.names); }
  }

  lemma DeleteTreeWritable(t: SentenceTree, explain: bool)
    requires t.DeleteSentence? && SentenceFits(t) && AllSpelled(SentenceYield(t))
    ensures AstWritable(SentenceMeaning(t, explain))
  {
    PartsSpelled([t.delete], FromYield(t.from));
    FromTreeWritable(t.from);
  }

  // A CREATE TABLE keeps no digits of a width too large for 64 bits, so it cannot say it again.
  ghost predicate WidthsKept(ast: Ast) {
    ast.CreateTree? ==> InRange(ast.create.columns)
  }

  ghost predicate InRange(columns: seq<ColumnAst>) {
    forall i :: 0 <= i < |columns| && columns[i].kind.TextType? ==> !columns[i].kind.widthOutOfRange
  }

  ghost predicate AllPrintable(columns: seq<ColumnAst>) {
    forall i :: 0 <= i < |columns| ==> Canonical.Printable(columns[i])
  }

  lemma OneMoreColumn(c: ColumnAst, more: seq<ColumnAst>)
    ensures InRange([c] + more) ==> InRange(more) && (c.kind.TextType? ==> !c.kind.widthOutOfRange)
    ensures Canonical.Printable(c) && AllPrintable(more) ==> AllPrintable([c] + more)
  {
    assert ([c] + more)[0] == c;
    assert forall i :: 0 <= i < |more| ==> ([c] + more)[i + 1] == more[i];
  }

  lemma ColumnTreeWritable(t: ColumnTree)
    requires ColumnTreeFits(t) && AllSpelled(ColumnYield(t))
    requires t.kind.TextTree? ==> !t.kind.width.outOfRange
    ensures Canonical.Printable(ColumnMeaning(t))
  {
    assert ColumnYield(t)[0] == t.name;
    PlainNameIsName(t.name.text);
    if t.kind.TextTree? { assert ColumnYield(t)[3] == t.kind.width; }
  }

  lemma {:induction false} ColumnsTreeWritable(t: ColumnsTree)
    requires Sentences.ColumnsFit(t) && AllSpelled(ColumnsYield(t))
    requires InRange(ColumnsMeaning(t))
    ensures |ColumnsMeaning(t)| > 0 && AllPrintable(ColumnsMeaning(t))
  {
    match t
    case LastColumn(column) =>
      OneMoreColumn(ColumnMeaning(column), []);
      ColumnTreeWritable(column);
    case ColumnThenMore(column, comma, more) =>
      OneMoreColumn(ColumnMeaning(column), ColumnsMeaning(more));
      PartsSpelled(ColumnYield(column), [comma] + ColumnsYield(more));
      PartsSpelled([comma], ColumnsYield(more));
      ColumnTreeWritable(column);
      ColumnsTreeWritable(more);
  }

  lemma CreateTreeWritable(t: SentenceTree)
    requires t.CreateSentence? && SentenceFits(t) && AllSpelled(SentenceYield(t))
    requires WidthsKept(SentenceMeaning(t, false))
    ensures AstWritable(SentenceMeaning(t, false))
  {
    assert SentenceYield(t)[2] == t.name;
    PartsSpelled([t.create, t.tableWord, t.name, t.open], ColumnsYield(t.columns) + [t.close]);
    PartsSpelled(ColumnsYield(t.columns), [t.close]);
    ColumnsTreeWritable(t.columns);
  }

  lemma SentenceWritable(t: SentenceTree, explain: bool)
    requires SentenceFits(t) && AllSpelled(SentenceYield(t)) && WidthsKept(SentenceMeaning(t, explain))
    ensures AstWritable(SentenceMeaning(t, explain))
  {
    match t
    case EmptySentence =>
    case InsertSentence(_, _, _, _, _) => InsertTreeWritable(t);
    case SelectSentence(_, _, _) => SelectTreeWritable(t, explain);
    case DeleteSentence(_, _) => DeleteTreeWritable(t, explain);
    case CreateSentence(_, _, _, _, _, _) => CreateTreeWritable(t);
  }

  /** Whatever line held a statement, in whatever case and layout, the statement written out as SQL parses to itself:
      only a CREATE TABLE with a width past 64 bits, which is refused anyway, cannot be written out. */
  lemma LineRewritten(line: Text, ast: Ast)
    requires StatementOf(Tokenize(line)) == Some(ast) && WidthsKept(ast)
    ensures AstWritable(ast) && AstJoins(ast) && StatementOf(Tokenize(Sql(ast))) == Some(ast)
  {
    var ts := LineTokensSpelled(line);
    var t := LineSound(ts, ast);
    PartsSpelled(OneOrNone(t.explain), SentenceYield(t.sentence) + OneOrNone(t.semicolon));
    PartsSpelled(SentenceYield(t.sentence), OneOrNone(t.semicolon));
    SentenceWritable(t.sentence, t.explain.Some?);
    StatementReparses(ast);
  }
}
