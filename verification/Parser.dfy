/** The parser: one function per rule of the grammar, with one token of lookahead. */
module Parsing {
  import opened Pages
  import opened Tokens
  import opened Expressions

  // How deeply NOTs and parentheses may nest.
  const MAX_EXPRESSION_DEPTH: nat := 64

  datatype Literal = IntegerLiteral(text: Text, integer: int, outOfRange: bool) | StringLiteral(text: Text)

  datatype OperandAst = ColumnName(name: Text) | LiteralValue(literal: Literal)

  datatype ExprAst =
    | CompareAst(op: CompareOp, left: OperandAst, right: OperandAst)
    | AndAst(children: seq<ExprAst>)
    | OrAst(children: seq<ExprAst>)
    | NotAst(child: ExprAst)

  datatype ColumnTypeAst = IntType | TextType(width: int, widthOutOfRange: bool)

  datatype ColumnAst = ColumnAst(name: Text, kind: ColumnTypeAst, primaryKey: bool)

  datatype CreateTableAst = CreateTableAst(tableName: Text, columns: seq<ColumnAst>)

  datatype InsertAst = InsertAst(tableName: Text, columnNames: Option<seq<Text>>, values: seq<Literal>)

  // Without column names, a SELECT is of every column; without a WHERE, a statement is of every row.
  datatype SelectAst = SelectAst(tableName: Text, columnNames: Option<seq<Text>>, where: Option<ExprAst>)

  datatype DeleteAst = DeleteAst(tableName: Text, where: Option<ExprAst>)

  // One line's statement. A blank line, or a lone ';', is empty.
  datatype Ast =
    | EmptyTree
    | InsertTree(insert: InsertAst)
    | SelectTree(select: SelectAst, explain: bool)
    | CreateTree(create: CreateTableAst)
    | DeleteTree(delete: DeleteAst, explain: bool)

  // What a rule finds at the front of the tokens, and the tokens after it.
  datatype Parsed<+T> = Fail | Parsed(value: T, rest: seq<Token>)

  // ------------------------------------------------------------ what each rule reads

  function Kind(ts: seq<Token>): TokenKind {
    if |ts| == 0 then EndToken else ts[0].kind
  }

  // A string's content, its quotes removed and each doubled quote made one.
  function Unquoted(content: Text): Text {
    if |content| == 0 then []
    else if content[0] == '\'' then ['\''] + (if |content| == 1 then [] else Unquoted(content[2..]))
    else [content[0]] + Unquoted(content[1..])
  }

  function LiteralOf(negative: bool, t: Token): Literal
    requires t.kind == IntegerToken || (t.kind == StringToken && |t.text| >= 2)
  {
    if t.kind == IntegerToken then
      IntegerLiteral(if negative then ['-'] + t.text else t.text, if negative then -t.integer else t.integer,
                     t.outOfRange)
    else
      StringLiteral(Unquoted(t.text[1..|t.text| - 1]))
  }

  function LiteralAt(ts: seq<Token>): (r: Parsed<Literal>)
    ensures r.Parsed? ==> |r.rest| < |ts|
  {
    if Kind(ts) == MinusToken then
      if Kind(ts[1..]) == IntegerToken then Parsed(LiteralOf(true, ts[1]), ts[2..]) else Fail
    else if Kind(ts) == IntegerToken || (Kind(ts) == StringToken && |ts[0].text| >= 2) then
      Parsed(LiteralOf(false, ts[0]), ts[1..])
    else Fail
  }

  function OperandAt(ts: seq<Token>): (r: Parsed<OperandAst>)
    ensures r.Parsed? ==> |r.rest| < |ts|
  {
    if Kind(ts) == IdentifierToken then Parsed(ColumnName(ts[0].text), ts[1..])
    else match LiteralAt(ts)
      case Fail => Fail
      case Parsed(literal, rest) => Parsed(LiteralValue(literal), rest)
  }

  function CompareOpOf(kind: TokenKind): Option<CompareOp> {
    match kind
    case EqualToken => Some(Equal)
    case NotEqualToken => Some(NotEqual)
    case LessToken => Some(Less)
    case LessEqualToken => Some(LessEqual)
    case GreaterToken => Some(Greater)
    case GreaterEqualToken => Some(GreaterEqual)
    case _ => None
  }

  function ComparisonAt(ts: seq<Token>): (r: Parsed<ExprAst>)
    ensures r.Parsed? ==> |r.rest| < |ts|
  {
    match OperandAt(ts)
    case Fail => Fail
    case Parsed(left, afterLeft) =>
      match CompareOpOf(Kind(afterLeft))
      case None => Fail
      case Some(op) =>
        match OperandAt(afterLeft[1..])
        case Fail => Fail
        case Parsed(right, rest) => Parsed(CompareAst(op, left, right), rest)
  }

  function PrimaryAt(ts: seq<Token>, depth: nat): (r: Parsed<ExprAst>)
    ensures r.Parsed? ==> |r.rest| < |ts|
    decreases |ts|, 0
  {
    if Kind(ts) != LeftParenToken then ComparisonAt(ts)
    else if depth >= MAX_EXPRESSION_DEPTH then Fail
    else match OrAt(ts[1..], depth + 1)
      case Fail => Fail
      case Parsed(inner, rest) => if Kind(rest) == RightParenToken then Parsed(inner, rest[1..]) else Fail
  }

  function NotAt(ts: seq<Token>, depth: nat): (r: Parsed<ExprAst>)
    ensures r.Parsed? ==> |r.rest| < |ts|
    decreases |ts|, 1
  {
    if Kind(ts) != NotToken then PrimaryAt(ts, depth)
    else if depth >= MAX_EXPRESSION_DEPTH then Fail
    else match NotAt(ts[1..], depth + 1)
      case Fail => Fail
      case Parsed(inner, rest) => Parsed(NotAst(inner), rest)
  }

  // The operands of a chain of ANDs.
  function AndListAt(ts: seq<Token>, depth: nat): (r: Parsed<seq<ExprAst>>)
    ensures r.Parsed? ==> |r.rest| < |ts| && |r.value| > 0
    decreases |ts|, 2
  {
    match NotAt(ts, depth)
    case Fail => Fail
    case Parsed(first, rest) =>
      if Kind(rest) != AndToken then Parsed([first], rest)
      else match AndListAt(rest[1..], depth)
        case Fail => Fail
        case Parsed(more, rest') => Parsed([first] + more, rest')
  }

  function AndAt(ts: seq<Token>, depth: nat): (r: Parsed<ExprAst>)
    ensures r.Parsed? ==> |r.rest| < |ts|
    decreases |ts|, 3
  {
    match AndListAt(ts, depth)
    case Fail => Fail
    case Parsed(list, rest) => Parsed(AndOf(list), rest)
  }

  function OrListAt(ts: seq<Token>, depth: nat): (r: Parsed<seq<ExprAst>>)
    ensures r.Parsed? ==> |r.rest| < |ts| && |r.value| > 0
    decreases |ts|, 4
  {
    match AndAt(ts, depth)
    case Fail => Fail
    case Parsed(first, rest) =>
      if Kind(rest) != OrToken then Parsed([first], rest)
      else match OrListAt(rest[1..], depth)
        case Fail => Fail
        case Parsed(more, rest') => Parsed([first] + more, rest')
  }

  function OrAt(ts: seq<Token>, depth: nat): (r: Parsed<ExprAst>)
    ensures r.Parsed? ==> |r.rest| < |ts|
    decreases |ts|, 5
  {
    match OrListAt(ts, depth)
    case Fail => Fail
    case Parsed(list, rest) => Parsed(OrOf(list), rest)
  }

  // One operand stands for itself; more are gathered under one node.
  function AndOf(list: seq<ExprAst>): ExprAst
    requires |list| > 0
  {
    if |list| == 1 then list[0] else AndAst(list)
  }

  function OrOf(list: seq<ExprAst>): ExprAst
    requires |list| > 0
  {
    if |list| == 1 then list[0] else OrAst(list)
  }

  // One column: its name, its type, and whether it is the key.
  function ColumnAt(ts: seq<Token>): (r: Parsed<ColumnAst>)
    ensures r.Parsed? ==> |r.rest| < |ts|
  {
    if Kind(ts) != IdentifierToken then Fail
    else match TypeAt(ts[1..])
      case Fail => Fail
      case Parsed(kind, rest) =>
        if Kind(rest) != PrimaryToken then Parsed(ColumnAst(ts[0].text, kind, false), rest)
        else if Kind(rest[1..]) != KeyToken then Fail
        else Parsed(ColumnAst(ts[0].text, kind, true), rest[2..])
  }

  function TypeAt(ts: seq<Token>): (r: Parsed<ColumnTypeAst>)
    ensures r.Parsed? ==> |r.rest| < |ts|
  {
    if Kind(ts) == IntToken then Parsed(IntType, ts[1..])
    else if Kind(ts) != TextToken || Kind(ts[1..]) != LeftParenToken || Kind(ts[2..]) != IntegerToken
            || Kind(ts[3..]) != RightParenToken then Fail
    else Parsed(TextType(ts[2].integer, ts[2].outOfRange), ts[4..])
  }

  function ColumnListAt(ts: seq<Token>): (r: Parsed<seq<ColumnAst>>)
    ensures r.Parsed? ==> |r.rest| < |ts|
    decreases |ts|
  {
    match ColumnAt(ts)
    case Fail => Fail
    case Parsed(first, rest) =>
      if Kind(rest) != CommaToken then Parsed([first], rest)
      else match ColumnListAt(rest[1..])
        case Fail => Fail
        case Parsed(more, rest') => Parsed([first] + more, rest')
  }

  // A table's name and, in brackets, its columns.
  function CreateAt(ts: seq<Token>): Parsed<CreateTableAst> {
    if Kind(ts) != CreateToken || Kind(ts[1..]) != TableToken || Kind(ts[2..]) != IdentifierToken
       || Kind(ts[3..]) != LeftParenToken then Fail
    else match ColumnListAt(ts[4..])
      case Fail => Fail
      case Parsed(columns, rest) =>
        if Kind(rest) != RightParenToken then Fail else Parsed(CreateTableAst(ts[2].text, columns), rest[1..])
  }

  predicate AtEnd(ts: seq<Token>) {
    Kind(if Kind(ts) == SemicolonToken then ts[1..] else ts) == EndToken
  }

  // Names, each but the last with a comma after it.
  function NameListAt(ts: seq<Token>): (r: Parsed<seq<Text>>)
    ensures r.Parsed? ==> |r.rest| < |ts|
    decreases |ts|
  {
    if Kind(ts) != IdentifierToken then Fail
    else if Kind(ts[1..]) != CommaToken then Parsed([ts[0].text], ts[1..])
    else Prepended([ts[0].text], NameListAt(ts[2..]))
  }

  function LiteralListAt(ts: seq<Token>): (r: Parsed<seq<Literal>>)
    ensures r.Parsed? ==> |r.rest| < |ts|
    decreases |ts|
  {
    match LiteralAt(ts)
    case Fail => Fail
    case Parsed(first, rest) =>
      if Kind(rest) != CommaToken then Parsed([first], rest)
      else Prepended([first], LiteralListAt(rest[1..]))
  }

  // The bracketed column names of an INSERT, which may be left out.
  function ColumnNamesAt(ts: seq<Token>): Parsed<Option<seq<Text>>> {
    if Kind(ts) != LeftParenToken then Parsed(None, ts)
    else match NameListAt(ts[1..])
      case Fail => Fail
      case Parsed(names, rest) => if Kind(rest) == RightParenToken then Parsed(Some(names), rest[1..]) else Fail
  }

  function ValuesAt(ts: seq<Token>): Parsed<seq<Literal>> {
    if Kind(ts) != ValuesToken || Kind(ts[1..]) != LeftParenToken then Fail
    else match LiteralListAt(ts[2..])
      case Fail => Fail
      case Parsed(values, rest) => if Kind(rest) == RightParenToken then Parsed(values, rest[1..]) else Fail
  }

  function InsertIntoAt(ts: seq<Token>): Parsed<InsertAst> {
    if Kind(ts) != InsertToken || Kind(ts[1..]) != IntoToken || Kind(ts[2..]) != IdentifierToken then Fail
    else match ColumnNamesAt(ts[3..])
      case Fail => Fail
      case Parsed(names, rest) =>
        match ValuesAt(rest)
        case Fail => Fail
        case Parsed(values, rest') => Parsed(InsertAst(ts[2].text, names, values), rest')
  }

  // The columns of a SELECT: '*' for every one, or names.
  function SelectedAt(ts: seq<Token>): Parsed<Option<seq<Text>>> {
    if Kind(ts) == StarToken then Parsed(None, ts[1..])
    else match NameListAt(ts)
      case Fail => Fail
      case Parsed(names, rest) => Parsed(Some(names), rest)
  }

  // The table a SELECT or DELETE is from, and its WHERE if it has one.
  function FromAt(ts: seq<Token>): Parsed<(Text, Option<ExprAst>)> {
    if Kind(ts) != FromToken || Kind(ts[1..]) != IdentifierToken then Fail
    else if Kind(ts[2..]) != WhereToken then Parsed((ts[1].text, None), ts[2..])
    else match OrAt(ts[3..], 0)
      case Fail => Fail
      case Parsed(where, rest) => Parsed((ts[1].text, Some(where)), rest)
  }

  function SelectAt(ts: seq<Token>): Parsed<SelectAst> {
    if Kind(ts) != SelectToken then Fail
    else match SelectedAt(ts[1..])
      case Fail => Fail
      case Parsed(names, rest) =>
        match FromAt(rest)
        case Fail => Fail
        case Parsed(from, rest') => Parsed(SelectAst(from.0, names, from.1), rest')
  }

  function DeleteAt(ts: seq<Token>): Parsed<DeleteAst> {
    if Kind(ts) != DeleteToken then Fail
    else match FromAt(ts[1..])
      case Fail => Fail
      case Parsed(from, rest) => Parsed(DeleteAst(from.0, from.1), rest)
  }

  // The statement proper, told apart by its first token.
  function BodyAt(ts: seq<Token>, explain: bool): Parsed<Ast> {
    match Kind(ts)
    case InsertToken => (match InsertIntoAt(ts) case Fail => Fail case Parsed(t, rest) => Parsed(InsertTree(t), rest))
    case SelectToken =>
      (match SelectAt(ts) case Fail => Fail case Parsed(t, rest) => Parsed(SelectTree(t, explain), rest))
    case CreateToken => (match CreateAt(ts) case Fail => Fail case Parsed(t, rest) => Parsed(CreateTree(t), rest))
    case DeleteToken =>
      (match DeleteAt(ts) case Fail => Fail case Parsed(t, rest) => Parsed(DeleteTree(t, explain), rest))
    case SemicolonToken => Parsed(EmptyTree, ts)
    case EndToken => Parsed(EmptyTree, ts)
    case _ => Fail
  }

  // A line's one statement, after EXPLAIN if it is a SELECT or a DELETE, and before nothing but one ';'.
  function StatementOf(ts: seq<Token>): Option<Ast> {
    var explain := Kind(ts) == ExplainToken;
    var body := if explain then ts[1..] else ts;
    if explain && Kind(body) != SelectToken && Kind(body) != DeleteToken then None
    else match BodyAt(body, explain)
      case Fail => None
      case Parsed(ast, rest) => if AtEnd(rest) then Some(ast) else None
  }

  // The CREATE TABLE a line holds, if it holds one.
  function CreateStatement(ts: seq<Token>): Option<CreateTableAst> {
    match StatementOf(ts)
    case Some(CreateTree(create)) => Some(create)
    case _ => None
  }

  function UnquotedFrom(content: Text, i: nat): Text {
    if i <= |content| then Unquoted(content[i..]) else []
  }

  lemma UnquotedStep(content: Text, i: nat)
    requires i < |content|
    ensures UnquotedFrom(content, i) ==
      [content[i]] + UnquotedFrom(content, if content[i] == '\'' then i + 2 else i + 1)
  {
    assert content[i..][1..] == content[i + 1..];
    if i + 1 < |content| { assert content[i..][2..] == content[i + 2..]; }
  }

  lemma OneMore(done: Text, c: Byte, more: Text)
    ensures done + ([c] + more) == done + [c] + more
  {
  }

  /** Removes a string token's quotes; every quote inside is followed by its twin. */
  method UnescapeString(text: Text) returns (content: Text)
    requires |text| >= 2
    ensures content == Unquoted(text[1..|text| - 1])
  {
    var inside := text[1..|text| - 1];
    content := [];
    var i := 0;
    while i < |inside|
      invariant 0 <= i <= |inside| + 1
      invariant Unquoted(inside) == content + UnquotedFrom(inside, i)
    {
      UnquotedStep(inside, i);
      OneMore(content, inside[i], UnquotedFrom(inside, if inside[i] == '\'' then i + 2 else i + 1));
      content := content + [inside[i]];
      if inside[i] == '\'' {
        i := i + 1;
      }
      i := i + 1;
    }
  }

  // ------------------------------------------------------------ the parser

  // Names an input, so that what is known of the tokens in it can be asked for.
  ghost predicate Unread(s: Text) { true }

  class Parser {
    const tokenizer: Tokenizer
    var current: Token
    var failed: bool

    // The tokens not yet consumed, `current` first.
    ghost var ahead: seq<Token>

    constructor (sql: Text)
      ensures Valid() && !failed && ahead == Tokenize(sql) && fresh(tokenizer)
    {
      tokenizer := new Tokenizer(sql);
      current, failed, ahead := END, false, Tokenize(sql);
      new;
      current := tokenizer.Next();
    }

    ghost predicate Valid()
      reads this, tokenizer
    {
      && tokenizer.Valid()
      && |ahead| > 0 && ahead[0] == current
      && (current.kind == StringToken ==> |current.text| >= 2)
      && (forall s {:trigger Unread(s)} :: Unread(s) && s == tokenizer.Rest() ==>
            if current.kind == EndToken then ahead == [END] && s == [] else ahead == [current] + Tokenize(s))
    }

    // A rule's outcome is what its function finds in the tokens; only a failure sets the flag.
    ghost predicate Outcome<T>(r: Option<T>, found: Parsed<T>)
      reads this, tokenizer
    {
      && Valid()
      && match found
         case Fail => r.None? && failed
         case Parsed(value, rest) => r == Some(value) && !failed && |rest| > 0 && ahead == rest
    }

    method Advance()
      requires Valid() && current.kind != EndToken
      modifies this`current, this`ahead, tokenizer
      ensures Valid() && ahead == old(ahead)[1..]
    {
      assert Unread(tokenizer.Rest());
      ahead := ahead[1..];
      current := tokenizer.Next();
    }

    method Match(kind: TokenKind) returns (matched: bool)
      requires Valid() && kind != EndToken
      modifies this`current, this`ahead, tokenizer
      ensures Valid() && matched == (old(current.kind) == kind)
      ensures ahead == if matched then old(ahead)[1..] else old(ahead)
    {
      matched := current.kind == kind;
      if matched { Advance(); }
    }

    method FailExpected()
      modifies this`failed
      ensures failed
    {
      if failed { return; }
      failed := true;
    }

    method Expect(kind: TokenKind) returns (matched: bool)
      requires Valid() && !failed && kind != EndToken
      modifies this, tokenizer
      ensures Valid() && matched == (old(current.kind) == kind) && failed == !matched
      ensures matched ==> ahead == old(ahead)[1..]
    {
      matched := Match(kind);
      if !matched { FailExpected(); }
    }

    method ParseName() returns (name: Option<Text>)
      requires Valid() && !failed
      modifies this, tokenizer
      ensures Valid() && name.Some? == (old(current.kind) == IdentifierToken) && failed == name.None?
      ensures name.Some? ==> name.value == old(current.text) && ahead == old(ahead)[1..]
    {
      if current.kind != IdentifierToken {
        FailExpected();
        return None;
      }
      name := Some(current.text);
      Advance();
    }

    // The integer a literal is, its sign already read.
    method TakeInteger(negative: bool) returns (r: Literal)
      requires Valid() && !failed && current.kind == IntegerToken
      modifies this, tokenizer
      ensures Valid() && !failed && r == LiteralOf(negative, old(current)) && ahead == old(ahead)[1..]
    {
      r := IntegerLiteral(
        if negative then ['-'] + current.text else current.text,
        if negative then -current.integer else current.integer, current.outOfRange);
      Advance();
    }

    method TakeString() returns (r: Literal)
      requires Valid() && !failed && current.kind == StringToken
      modifies this, tokenizer
      ensures Valid() && !failed && r == LiteralOf(false, old(current)) && ahead == old(ahead)[1..]
    {
      var text := UnescapeString(current.text);
      r := StringLiteral(text);
      Advance();
    }

    method ParseLiteral() returns (r: Option<Literal>)
      requires Valid() && !failed
      modifies this, tokenizer
      ensures Outcome(r, LiteralAt(old(ahead)))
    {
      var negative := Match(MinusToken);
      if current.kind == IntegerToken {
        var integer := TakeInteger(negative);
        return Some(integer);
      }
      if !negative && current.kind == StringToken {
        var text := TakeString();
        return Some(text);
      }
      FailExpected();
      r := None;
    }

    method ParseOperand() returns (r: Option<OperandAst>)
      requires Valid() && !failed
      modifies this, tokenizer
      ensures Outcome(r, OperandAt(old(ahead)))
    {
      if current.kind == IdentifierToken {
        var name := ParseName();
        return Some(ColumnName(name.value));
      }
      if current.kind == IntegerToken || current.kind == MinusToken || current.kind == StringToken {
        var literal := ParseLiteral();
        return if literal.Some? then Some(LiteralValue(literal.value)) else None;
      }
      FailExpected();
      r := None;
    }

    method ParseCompareOp() returns (r: Option<CompareOp>)
      requires Valid() && !failed
      modifies this, tokenizer
      ensures Valid() && r == CompareOpOf(old(current.kind)) && failed == r.None?
      ensures r.Some? ==> ahead == old(ahead)[1..]
    {
      match current.kind {
        case EqualToken => r := Some(Equal);
        case NotEqualToken => r := Some(NotEqual);
        case LessToken => r := Some(Less);
        case LessEqualToken => r := Some(LessEqual);
        case GreaterToken => r := Some(Greater);
        case GreaterEqualToken => r := Some(GreaterEqual);
        case _ =>
          FailExpected();
          return None;
      }
      Advance();
    }

    method ParseComparison() returns (r: Option<ExprAst>)
      requires Valid() && !failed
      modifies this, tokenizer
      ensures Outcome(r, ComparisonAt(old(ahead)))
    {
      var left := ParseOperand();
      if left.None? { return None; }
      var op := ParseCompareOp();
      if op.None? { return None; }
      var right := ParseOperand();
      if right.None? { return None; }
      r := Some(CompareAst(op.value, left.value, right.value));
    }

    method ParsePrimary(depth: nat) returns (r: Option<ExprAst>)
      requires Valid() && !failed
      modifies this, tokenizer
      ensures Outcome(r, PrimaryAt(old(ahead), depth))
      decreases |ahead|, 0
    {
      if current.kind != LeftParenToken {
        r := ParseComparison();
        return;
      }
      if depth >= MAX_EXPRESSION_DEPTH {
        FailExpected();
        return None;
      }
      Advance();
      r := ParseOr(depth + 1);
      if r.None? { return; }
      var closed := Expect(RightParenToken);
      if !closed { r := None; }
    }

    method ParseNot(depth: nat) returns (r: Option<ExprAst>)
      requires Valid() && !failed
      modifies this, tokenizer
      ensures Outcome(r, NotAt(old(ahead), depth))
      decreases |ahead|, 1
    {
      if current.kind != NotToken {
        r := ParsePrimary(depth);
        return;
      }
      if depth >= MAX_EXPRESSION_DEPTH {
        FailExpected();
        return None;
      }
      Advance();
      var operand := ParseNot(depth + 1);
      r := if operand.Some? then Some(NotAst(operand.value)) else None;
    }

    method ParseAnd(depth: nat) returns (r: Option<ExprAst>)
      requires Valid() && !failed
      modifies this, tokenizer
      ensures Outcome(r, AndAt(old(ahead), depth))
      decreases |ahead|, 3
    {
      r := ParseNot(depth);
      if r.None? { return; }
      assert AndListAt(old(ahead), depth) == AndMore([r.value], ahead, depth);
      if current.kind != AndToken { return; }
      var children := [r.value];
      while current.kind == AndToken
        invariant Valid() && !failed && |children| > 0
        invariant |children| > 1 || current.kind == AndToken
        invariant |ahead| < |old(ahead)|
        invariant AndListAt(old(ahead), depth) == AndMore(children, ahead, depth)
        decreases |ahead|
      {
        Advance();
        var next := ParseNot(depth);
        if next.None? { return None; }
        AndMoreStep(children, next.value, ahead, depth);
        children := children + [next.value];
      }
      r := Some(AndAst(children));
    }

    method ParseOr(depth: nat) returns (r: Option<ExprAst>)
      requires Valid() && !failed
      modifies this, tokenizer
      ensures Outcome(r, OrAt(old(ahead), depth))
      decreases |ahead|, 5
    {
      r := ParseAnd(depth);
      if r.None? { return; }
      assert OrListAt(old(ahead), depth) == OrMore([r.value], ahead, depth);
      if current.kind != OrToken { return; }
      var children := [r.value];
      while current.kind == OrToken
        invariant Valid() && !failed && |children| > 0
        invariant |children| > 1 || current.kind == OrToken
        invariant |ahead| < |old(ahead)|
        invariant OrListAt(old(ahead), depth) == OrMore(children, ahead, depth)
        decreases |ahead|
      {
        Advance();
        var next := ParseAnd(depth);
        if next.None? { return None; }
        OrMoreStep(children, next.value, ahead, depth);
        children := children + [next.value];
      }
      r := Some(OrAst(children));
    }

    method ParseColumnDef() returns (r: Option<ColumnAst>)
      requires Valid() && !failed
      modifies this, tokenizer
      ensures Outcome(r, ColumnAt(old(ahead)))
    {
      var name := ParseName();
      if name.None? { return None; }
      var kind := ParseType();
      if kind.None? { return None; }
      var primaryKey := Match(PrimaryToken);
      if primaryKey {
        var matched := Expect(KeyToken);
        if !matched { return None; }
      }
      r := Some(ColumnAst(name.value, kind.value, primaryKey));
    }

    // The type of a column, with the declared width exactly as written.
    method ParseType() returns (r: Option<ColumnTypeAst>)
      requires Valid() && !failed
      modifies this, tokenizer
      ensures Outcome(r, TypeAt(old(ahead)))
    {
      ghost var ts := ahead;
      var matched := Match(IntToken);
      if matched { return Some(IntType); }
      matched := Match(TextToken);
      if !matched {
        FailExpected();
        return None;
      }
      matched := Expect(LeftParenToken);
      if !matched { return None; }
      assert ahead == ts[2..];
      if current.kind != IntegerToken {
        FailExpected();
        return None;
      }
      r := Some(TextType(current.integer, current.outOfRange));
      Advance();
      assert ahead == ts[3..];
      matched := Expect(RightParenToken);
      if !matched { r := None; }
      assert matched ==> ahead == ts[4..];
    }

    method ParseCreate() returns (r: Option<CreateTableAst>)
      requires Valid() && !failed && current.kind == CreateToken
      modifies this, tokenizer
      ensures Outcome(r, CreateAt(old(ahead)))
    {
      Advance();
      var matched := Expect(TableToken);
      if !matched { return None; }
      var name := ParseName();
      if name.None? { return None; }
      matched := Expect(LeftParenToken);
      if !matched { return None; }
      var columns := ParseColumns();
      if columns.None? { return None; }
      matched := Expect(RightParenToken);
      if !matched { return None; }
      r := Some(CreateTableAst(name.value, columns.value));
    }

    method ParseColumns() returns (r: Option<seq<ColumnAst>>)
      requires Valid() && !failed
      modifies this, tokenizer
      ensures Outcome(r, ColumnListAt(old(ahead)))
    {
      var columns := [];
      var more := true;
      PrependedNone(ColumnListAt(ahead));
      while more
        invariant Valid() && !failed
        invariant |ahead| > 0
        invariant ColumnListAt(old(ahead)) ==
          if more then Prepended(columns, ColumnListAt(ahead)) else Parsed(columns, ahead)
        decreases more, |ahead|
      {
        ghost var before := ahead;
        var column := ParseColumnDef();
        if column.None? { return None; }
        ColumnStep(columns, before, column.value, ahead);
        columns := columns + [column.value];
        more := Match(CommaToken);
      }
      r := Some(columns);
    }

    method ParseNames() returns (r: Option<seq<Text>>)
      requires Valid() && !failed
      modifies this, tokenizer
      ensures Outcome(r, NameListAt(old(ahead)))
    {
      var names := [];
      var more := true;
      PrependedNone(NameListAt(ahead));
      while more
        invariant Valid() && !failed
        invariant |ahead| > 0
        invariant NameListAt(old(ahead)) ==
          if more then Prepended(names, NameListAt(ahead)) else Parsed(names, ahead)
        decreases more, |ahead|
      {
        ghost var before := ahead;
        var name := ParseName();
        if name.None? { return None; }
        NameStep(names, before);
        names := names + [name.value];
        more := Match(CommaToken);
      }
      r := Some(names);
    }

    method ParseLiterals() returns (r: Option<seq<Literal>>)
      requires Valid() && !failed
      modifies this, tokenizer
      ensures Outcome(r, LiteralListAt(old(ahead)))
    {
      var literals := [];
      var more := true;
      PrependedNone(LiteralListAt(ahead));
      while more
        invariant Valid() && !failed
        invariant |ahead| > 0
        invariant LiteralListAt(old(ahead)) ==
          if more then Prepended(literals, LiteralListAt(ahead)) else Parsed(literals, ahead)
        decreases more, |ahead|
      {
        ghost var before := ahead;
        var literal := ParseLiteral();
        if literal.None? { return None; }
        LiteralStep(literals, before, literal.value, ahead);
        literals := literals + [literal.value];
        more := Match(CommaToken);
      }
      r := Some(literals);
    }

    method ParseColumnNames() returns (r: Option<Option<seq<Text>>>)
      requires Valid() && !failed
      modifies this, tokenizer
      ensures Outcome(r, ColumnNamesAt(old(ahead)))
    {
      var listed := Match(LeftParenToken);
      if !listed { return Some(None); }
      var names := ParseNames();
      if names.None? { return None; }
      var matched := Expect(RightParenToken);
      if !matched { return None; }
      r := Some(names);
    }

    method ParseValues() returns (r: Option<seq<Literal>>)
      requires Valid() && !failed
      modifies this, tokenizer
      ensures Outcome(r, ValuesAt(old(ahead)))
    {
      var matched := Expect(ValuesToken);
      if !matched { return None; }
      matched := Expect(LeftParenToken);
      if !matched { return None; }
      r := ParseLiterals();
      if r.None? { return; }
      matched := Expect(RightParenToken);
      if !matched { r := None; }
    }

    method ParseInsert() returns (r: Option<InsertAst>)
      requires Valid() && !failed && current.kind == InsertToken
      modifies this, tokenizer
      ensures Outcome(r, InsertIntoAt(old(ahead)))
    {
      Advance();
      var matched := Expect(IntoToken);
      if !matched { return None; }
      var name := ParseName();
      if name.None? { return None; }
      var columnNames := ParseColumnNames();
      if columnNames.None? { return None; }
      var values := ParseValues();
      if values.None? { return None; }
      r := Some(InsertAst(name.value, columnNames.value, values.value));
    }

    method ParseSelected() returns (r: Option<Option<seq<Text>>>)
      requires Valid() && !failed
      modifies this, tokenizer
      ensures Outcome(r, SelectedAt(old(ahead)))
    {
      var star := Match(StarToken);
      if star { return Some(None); }
      var names := ParseNames();
      r := if names.Some? then Some(names) else None;
    }

    method ParseFrom() returns (r: Option<(Text, Option<ExprAst>)>)
      requires Valid() && !failed
      modifies this, tokenizer
      ensures Outcome(r, FromAt(old(ahead)))
    {
      var matched := Expect(FromToken);
      if !matched { return None; }
      var name := ParseName();
      if name.None? { return None; }
      var filtered := Match(WhereToken);
      if !filtered { return Some((name.value, None)); }
      var where := ParseOr(0);
      r := if where.Some? then Some((name.value, where)) else None;
    }

    method ParseSelect() returns (r: Option<SelectAst>)
      requires Valid() && !failed && current.kind == SelectToken
      modifies this, tokenizer
      ensures Outcome(r, SelectAt(old(ahead)))
    {
      Advance();
      var names := ParseSelected();
      if names.None? { return None; }
      var from := ParseFrom();
      r := if from.Some? then Some(SelectAst(from.value.0, names.value, from.value.1)) else None;
    }

    method ParseDelete() returns (r: Option<DeleteAst>)
      requires Valid() && !failed && current.kind == DeleteToken
      modifies this, tokenizer
      ensures Outcome(r, DeleteAt(old(ahead)))
    {
      Advance();
      var from := ParseFrom();
      r := if from.Some? then Some(DeleteAst(from.value.0, from.value.1)) else None;
    }

    // The statement proper, told apart by its first token.
    method ParseBody(explain: bool) returns (r: Option<Ast>)
      requires Valid() && !failed
      modifies this, tokenizer
      ensures Outcome(r, BodyAt(old(ahead), explain))
    {
      if current.kind == InsertToken {
        var insert := ParseInsert();
        r := if insert.Some? then Some(InsertTree(insert.value)) else None;
      } else if current.kind == SelectToken {
        var select := ParseSelect();
        r := if select.Some? then Some(SelectTree(select.value, explain)) else None;
      } else if current.kind == CreateToken {
        var create := ParseCreate();
        r := if create.Some? then Some(CreateTree(create.value)) else None;
      } else if current.kind == DeleteToken {
        var delete := ParseDelete();
        r := if delete.Some? then Some(DeleteTree(delete.value, explain)) else None;
      } else if current.kind == SemicolonToken || current.kind == EndToken {
        r := Some(EmptyTree);
      } else {
        FailExpected();
        r := None;
      }
    }

    /** Parses one line: a statement, and nothing after it but one ';'. */
    method ParseStatement() returns (r: Option<Ast>)
      requires Valid() && !failed
      modifies this, tokenizer
      ensures r == StatementOf(old(ahead))
    {
      var explain := Match(ExplainToken);
      if explain && current.kind != SelectToken && current.kind != DeleteToken {
        FailExpected();
        return None;
      }
      r := ParseBody(explain);
      if r.None? { return; }
      var semicolon := Match(SemicolonToken);
      if current.kind != EndToken {
        FailExpected();
        r := None;
      }
    }
  }

  function Prepended<T>(list: seq<T>, found: Parsed<seq<T>>): (r: Parsed<seq<T>>)
    ensures r.Parsed? <==> found.Parsed?
    ensures r.Parsed? ==> r.rest == found.rest
  {
    match found
    case Fail => Fail
    case Parsed(more, rest) => Parsed(list + more, rest)
  }

  // A chain of which some operands have been read, the next token still to be looked at.
  ghost function AndMore(list: seq<ExprAst>, ts: seq<Token>, depth: nat): Parsed<seq<ExprAst>> {
    if Kind(ts) == AndToken then Prepended(list, AndListAt(ts[1..], depth)) else Parsed(list, ts)
  }

  ghost function OrMore(list: seq<ExprAst>, ts: seq<Token>, depth: nat): Parsed<seq<ExprAst>> {
    if Kind(ts) == OrToken then Prepended(list, OrListAt(ts[1..], depth)) else Parsed(list, ts)
  }

  lemma PrependedTwice<T>(list: seq<T>, x: T, found: Parsed<seq<T>>)
    ensures Prepended(list, Prepended([x], found)) == Prepended(list + [x], found)
  {
    if found.Parsed? {
      assert list + ([x] + found.value) == list + [x] + found.value;
    }
  }

  lemma PrependedNone<T>(found: Parsed<seq<T>>)
    ensures Prepended([], found) == found
  {
    if found.Parsed? { assert [] + found.value == found.value; }
  }

  lemma ColumnStep(list: seq<ColumnAst>, ts: seq<Token>, x: ColumnAst, rest: seq<Token>)
    requires ColumnAt(ts) == Parsed(x, rest)
    ensures Prepended(list, ColumnListAt(ts)) ==
      if Kind(rest) == CommaToken then Prepended(list + [x], ColumnListAt(rest[1..])) else Parsed(list + [x], rest)
  {
    if Kind(rest) == CommaToken { PrependedTwice(list, x, ColumnListAt(rest[1..])); }
  }

  lemma NameStep(list: seq<Text>, ts: seq<Token>)
    requires Kind(ts) == IdentifierToken
    ensures Prepended(list, NameListAt(ts)) ==
      if Kind(ts[1..]) == CommaToken then Prepended(list + [ts[0].text], NameListAt(ts[1..][1..]))
      else Parsed(list + [ts[0].text], ts[1..])
  {
    assert ts[1..] != [] ==> ts[1..][1..] == ts[2..];
    if Kind(ts[1..]) == CommaToken { PrependedTwice(list, ts[0].text, NameListAt(ts[2..])); }
  }

  lemma LiteralStep(list: seq<Literal>, ts: seq<Token>, x: Literal, rest: seq<Token>)
    requires LiteralAt(ts) == Parsed(x, rest)
    ensures Prepended(list, LiteralListAt(ts)) ==
      if Kind(rest) == CommaToken then Prepended(list + [x], LiteralListAt(rest[1..])) else Parsed(list + [x], rest)
  {
    if Kind(rest) == CommaToken { PrependedTwice(list, x, LiteralListAt(rest[1..])); }
  }

  lemma AndMoreStep(list: seq<ExprAst>, x: ExprAst, ts: seq<Token>, depth: nat)
    ensures Prepended(list, AndMore([x], ts, depth)) == AndMore(list + [x], ts, depth)
  {
    if Kind(ts) == AndToken { PrependedTwice(list, x, AndListAt(ts[1..], depth)); }
  }

  lemma OrMoreStep(list: seq<ExprAst>, x: ExprAst, ts: seq<Token>, depth: nat)
    ensures Prepended(list, OrMore([x], ts, depth)) == OrMore(list + [x], ts, depth)
  {
    if Kind(ts) == OrToken { PrependedTwice(list, x, OrListAt(ts[1..], depth)); }
  }
}
