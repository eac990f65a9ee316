/** A WHERE written out as SQL, and read back as the same WHERE. */
module Printing {
  import opened Pages
  import opened Tokens
  import opened Expressions
  import opened Parsing
  import opened Lexing
  import opened Spelling
  import opened Grammar

  // ------------------------------------------------------------ a WHERE as SQL

  function OpSql(op: CompareOp): Text {
    match op
    case Equal => "="
    case NotEqual => "!="
    case Less => "<"
    case LessEqual => "<="
    case Greater => ">"
    case GreaterEqual => ">="
  }

  function LiteralSql(l: Literal): Text {
    match l
    case IntegerLiteral(text, _, _) => text
    case StringLiteral(text) => Quoted(text)
  }

  function OperandSql(o: OperandAst): Text {
    match o
    case ColumnName(name) => name
    case LiteralValue(literal) => LiteralSql(literal)
  }

  // What stands under NOT or between ANDs: in brackets, if it joins others itself.
  function NotSql(e: ExprAst): Text
    requires Joins(e)
    decreases e, 0
  {
    match e
    case CompareAst(op, left, right) => OperandSql(left) + " " + OpSql(op) + " " + OperandSql(right)
    case NotAst(child) => "NOT " + NotSql(child)
    case AndAst(children) => "(" + AndChainSql(children) + ")"
    case OrAst(children) => "(" + OrChainSql(children) + ")"
  }

  function AndChainSql(es: seq<ExprAst>): Text
    requires |es| > 0 && forall e :: e in es ==> Joins(e)
    decreases es, 0
  {
    if |es| == 1 then NotSql(es[0]) else NotSql(es[0]) + " AND " + AndChainSql(es[1..])
  }

  // What stands between ORs: ANDs bind tighter, and need no brackets.
  function AndSql(e: ExprAst): Text
    requires Joins(e)
    decreases e, 1
  {
    if e.AndAst? then AndChainSql(e.children) else NotSql(e)
  }

  function OrChainSql(es: seq<ExprAst>): Text
    requires |es| > 0 && forall e :: e in es ==> Joins(e)
    decreases es, 1
  {
    if |es| == 1 then AndSql(es[0]) else AndSql(es[0]) + " OR " + OrChainSql(es[1..])
  }

  function WhereSql(e: ExprAst): Text
    requires Joins(e)
    decreases e, 2
  {
    if e.OrAst? then OrChainSql(e.children) else AndSql(e)
  }

  // An AND or an OR joins two conditions at least.
  predicate Joins(e: ExprAst) {
    match e
    case CompareAst(_, _, _) => true
    case NotAst(child) => Joins(child)
    case AndAst(children) => |children| >= 2 && forall c :: c in children ==> Joins(c)
    case OrAst(children) => |children| >= 2 && forall c :: c in children ==> Joins(c)
  }

  // ------------------------------------------------------------ what can be written

  // Digits with a sign or without, and the number they spell, flagged when it exceeds 64 signed bits.
  predicate SignedNumber(l: Literal)
    requires l.IntegerLiteral?
  {
    var digits := Unsigned(l.text);
    && |digits| > 0 && AllDigits(digits)
    && (l.outOfRange <==> Value(digits) > 9223372036854775807)
    && l.integer == Sign(l.text) * if l.outOfRange then Read(digits).0 else Value(digits)
  }

  predicate Negative(text: Text) { |text| > 0 && text[0] == '-' }

  function Unsigned(text: Text): Text {
    if Negative(text) then text[1..] else text
  }

  function Sign(text: Text): int { if Negative(text) then -1 else 1 }

  ghost predicate LiteralWritable(l: Literal) {
    l.IntegerLiteral? ==> SignedNumber(l)
  }

  ghost predicate OperandWritable(o: OperandAst) {
    match o
    case ColumnName(name) => IsPlainName(name)
    case LiteralValue(literal) => LiteralWritable(literal)
  }

  ghost predicate OperandsWritable(e: ExprAst) {
    match e
    case CompareAst(_, left, right) => OperandWritable(left) && OperandWritable(right)
    case NotAst(child) => OperandsWritable(child)
    case AndAst(children) => forall c :: c in children ==> OperandsWritable(c)
    case OrAst(children) => forall c :: c in children ==> OperandsWritable(c)
  }

  // How deeply NOTs and brackets nest where a condition stands under NOT or between ANDs.
  function NotDepth(e: ExprAst): nat
    decreases e, 0
  {
    match e
    case CompareAst(_, _, _) => 0
    case NotAst(child) => 1 + NotDepth(child)
    case AndAst(children) => 1 + AndChainDepth(children)
    case OrAst(children) => 1 + OrChainDepth(children)
  }

  function AndChainDepth(es: seq<ExprAst>): nat
    decreases es, 0
  {
    if |es| == 0 then 0 else Max(NotDepth(es[0]), AndChainDepth(es[1..]))
  }

  function AndDepth(e: ExprAst): nat
    decreases e, 1
  {
    if e.AndAst? then AndChainDepth(e.children) else NotDepth(e)
  }

  function OrChainDepth(es: seq<ExprAst>): nat
    decreases es, 1
  {
    if |es| == 0 then 0 else Max(AndDepth(es[0]), OrChainDepth(es[1..]))
  }

  // How deeply NOTs and brackets nest in a WHERE as it is written.
  function WhereDepth(e: ExprAst): nat
    decreases e, 2
  {
    if e.OrAst? then OrChainDepth(e.children) else AndDepth(e)
  }

  // A WHERE that SQL can say: names that are words, numbers that are their digits, chains of two or more,
  // and at most 64 NOTs and brackets inside each other.
  ghost predicate WhereWritable(e: ExprAst) {
    Joins(e) && OperandsWritable(e) && WhereDepth(e) <= 64
  }

  // ------------------------------------------------------------ its derivation

  const AND: Token := Plain(AndToken, "AND")
  const OR: Token := Plain(OrToken, "OR")
  const NOT: Token := Plain(NotToken, "NOT")
  const MINUS: Token := Plain(MinusToken, "-")

  function OpToken(op: CompareOp): Token {
    match op
    case Equal => Plain(EqualToken, "=")
    case NotEqual => Plain(NotEqualToken, "!=")
    case Less => Plain(LessToken, "<")
    case LessEqual => Plain(LessEqualToken, "<=")
    case Greater => Plain(GreaterToken, ">")
    case GreaterEqual => Plain(GreaterEqualToken, ">=")
  }

  function NumberOf(l: Literal): Token
    requires l.IntegerLiteral?
  {
    Token(IntegerToken, Unsigned(l.text), Sign(l.text) * l.integer, l.outOfRange)
  }

  function LiteralTree(l: Literal): OperandTree {
    match l
    case IntegerLiteral(text, _, _) => if Negative(text) then Signed(MINUS, NumberOf(l)) else Single(NumberOf(l))
    case StringLiteral(text) => Single(Plain(StringToken, Quoted(text)))
  }

  function OperandTreeOf(o: OperandAst): OperandTree {
    match o
    case ColumnName(name) => Single(Plain(IdentifierToken, name))
    case LiteralValue(literal) => LiteralTree(literal)
  }

  function NotTreeOf(e: ExprAst): NotTree
    requires Joins(e)
    decreases e, 0
  {
    match e
    case CompareAst(op, left, right) => Compared(OperandTreeOf(left), OpToken(op), OperandTreeOf(right))
    case NotAst(child) => Negated(NOT, NotTreeOf(child))
    case AndAst(children) => Nested(OPEN, LastAnd(AndChainTree(children)), CLOSE)
    case OrAst(children) => Nested(OPEN, OrChainTree(children), CLOSE)
  }

  function AndChainTree(es: seq<ExprAst>): AndTree
    requires |es| > 0 && forall e :: e in es ==> Joins(e)
    decreases es, 0
  {
    if |es| == 1 then LastNot(NotTreeOf(es[0])) else NotThenAnd(NotTreeOf(es[0]), AND, AndChainTree(es[1..]))
  }

  function AndTreeOf(e: ExprAst): AndTree
    requires Joins(e)
    decreases e, 1
  {
    if e.AndAst? then AndChainTree(e.children) else LastNot(NotTreeOf(e))
  }

  function OrChainTree(es: seq<ExprAst>): OrTree
    requires |es| > 0 && forall e :: e in es ==> Joins(e)
    decreases es, 1
  {
    if |es| == 1 then LastAnd(AndTreeOf(es[0])) else AndThenOr(AndTreeOf(es[0]), OR, OrChainTree(es[1..]))
  }

  function WhereTreeOf(e: ExprAst): OrTree
    requires Joins(e)
  {
    if e.OrAst? then OrChainTree(e.children) else LastAnd(AndTreeOf(e))
  }

  // ------------------------------------------------------------ the derivation means the WHERE

  lemma LiteralTreeMeans(l: Literal)
    requires LiteralWritable(l)
    ensures OperandFits(LiteralTree(l)) && OperandMeaning(LiteralTree(l)) == LiteralValue(l)
  {
    match l
    case IntegerLiteral(text, _, _) =>
      if Negative(text) { assert ['-'] + text[1..] == text; }
    case StringLiteral(text) => QuotedContent(text);
  }

  lemma OperandTreeMeans(o: OperandAst)
    requires OperandWritable(o)
    ensures OperandFits(OperandTreeOf(o)) && OperandMeaning(OperandTreeOf(o)) == o
  {
    if o.LiteralValue? { LiteralTreeMeans(o.literal); }
  }

  lemma OpTokenMeans(op: CompareOp)
    ensures CompareOpOf(OpToken(op).kind) == Some(op)
  {
  }

  lemma ComparedMeans(e: ExprAst)
    requires e.CompareAst? && OperandsWritable(e)
    ensures NotFits(NotTreeOf(e)) && NotMeaning(NotTreeOf(e)) == e && NotNesting(NotTreeOf(e)) == NotDepth(e)
  {
    OperandTreeMeans(e.left);
    OperandTreeMeans(e.right);
    OpTokenMeans(e.op);
  }

  lemma {:induction false} NotTreeMeans(e: ExprAst)
    requires Joins(e) && OperandsWritable(e)
    ensures NotFits(NotTreeOf(e)) && NotMeaning(NotTreeOf(e)) == e && NotNesting(NotTreeOf(e)) == NotDepth(e)
    decreases e, 0
  {
    match e
    case CompareAst(_, _, _) => ComparedMeans(e);
    case NotAst(child) => NotTreeMeans(child);
    case AndAst(children) =>
      AndChainMeans(children);
      AndInBrackets(AndChainTree(children));
    case OrAst(children) =>
      OrChainMeans(children);
      OrInBrackets(OrChainTree(children));
  }

  lemma AndInBrackets(t: AndTree)
    requires AndFits(t) && t.NotThenAnd?
    ensures var n := Nested(OPEN, LastAnd(t), CLOSE);
      NotFits(n) && NotMeaning(n) == AndAst(AndOperands(t)) && NotNesting(n) == 1 + AndNesting(t)
  {
    assert OrMeaning(LastAnd(t)) == AndMeaning(t);
  }

  lemma OrInBrackets(t: OrTree)
    requires OrFits(t) && t.AndThenOr?
    ensures var n := Nested(OPEN, t, CLOSE);
      NotFits(n) && NotMeaning(n) == OrAst(OrOperands(t)) && NotNesting(n) == 1 + OrNesting(t)
  {
  }

  lemma {:induction false} AndChainMeans(es: seq<ExprAst>)
    requires |es| > 0 && forall e :: e in es ==> Joins(e) && OperandsWritable(e)
    ensures AndFits(AndChainTree(es)) && AndOperands(AndChainTree(es)) == es
    ensures AndNesting(AndChainTree(es)) == AndChainDepth(es)
    decreases es, 0
  {
    NotTreeMeans(es[0]);
    if |es| > 1 { AndChainMeans(es[1..]); }
  }

  lemma {:induction false} AndTreeMeans(e: ExprAst)
    requires Joins(e) && OperandsWritable(e)
    ensures AndFits(AndTreeOf(e)) && AndMeaning(AndTreeOf(e)) == e && AndNesting(AndTreeOf(e)) == AndDepth(e)
    decreases e, 1
  {
    if e.AndAst? { AndChainMeans(e.children); } else { NotTreeMeans(e); }
  }

  lemma {:induction false} OrChainMeans(es: seq<ExprAst>)
    requires |es| > 0 && forall e :: e in es ==> Joins(e) && OperandsWritable(e)
    ensures OrFits(OrChainTree(es)) && OrOperands(OrChainTree(es)) == es
    ensures OrNesting(OrChainTree(es)) == OrChainDepth(es)
    decreases es, 1
  {
    AndTreeMeans(es[0]);
    if |es| > 1 { OrChainMeans(es[1..]); }
  }

  lemma WhereTreeMeans(e: ExprAst)
    requires Joins(e) && OperandsWritable(e)
    ensures OrFits(WhereTreeOf(e)) && OrMeaning(WhereTreeOf(e)) == e && OrNesting(WhereTreeOf(e)) == WhereDepth(e)
  {
    if e.OrAst? { OrChainMeans(e.children); } else { AndTreeMeans(e); }
  }

  // ------------------------------------------------------------ the text is read as the derivation's tokens

  // Text no token runs on into.
  predicate Ends(rest: Text) {
    |rest| > 0 ==> rest[0] in {' ', ')', ','}
  }

  lemma AndSpelled()
    ensures Spelled(AND)
  {
    KeywordIsSpelled(AND);
  }

  lemma OrSpelled()
    ensures Spelled(OR)
  {
    KeywordIsSpelled(OR);
  }

  lemma NotSpelled()
    ensures Spelled(NOT)
  {
    KeywordIsSpelled(NOT);
  }

  lemma MarksSpelled()
    ensures Spelled(OPEN) && Spelled(CLOSE) && Spelled(MINUS)
  {
    SymbolIsSpelled(OPEN);
    SymbolIsSpelled(CLOSE);
    SymbolIsSpelled(MINUS);
  }

  lemma OpSpelled(op: CompareOp)
    ensures Spelled(OpToken(op)) && OpToken(op).text == OpSql(op) && OpToken(op).kind != EndToken
    ensures Apart(OpToken(op).kind, [' '])
  {
    SymbolIsSpelled(OpToken(op));
  }

  // A token, a space, and what follows.
  lemma TokenSpace(t: Token, own: Text, ts: seq<Token>, rest: Text)
    requires Spelled(t) && t.kind != EndToken && Apart(t.kind, [' ']) && Reads(own, ts, rest)
    ensures Reads(t.text + ([' '] + own), [t] + ts, rest)
  {
    SpaceThen(own, ts, rest);
    TokenReads(t, [' '] + own);
    ReadsThen(t.text + ([' '] + own), [t], [' '] + own, ts, rest);
  }

  lemma NumberSpelled(l: Literal)
    requires l.IntegerLiteral? && SignedNumber(l)
    ensures Spelled(NumberOf(l))
  {
    var n := if l.outOfRange then Read(Unsigned(l.text)).0 else Value(Unsigned(l.text));
    assert Sign(l.text) * (Sign(l.text) * n) == n;
  }

  lemma LiteralReads(l: Literal, rest: Text)
    requires LiteralWritable(l) && Ends(rest)
    ensures Reads(LiteralSql(l) + rest, OperandYield(LiteralTree(l)), rest)
  {
    match l
    case IntegerLiteral(text, _, _) =>
      NumberSpelled(l);
      TokenReads(NumberOf(l), rest);
      if Negative(text) { MinusReads(l, rest); }
    case StringLiteral(text) => TokenReads(Plain(StringToken, Quoted(text)), rest);
  }

  lemma MinusReads(l: Literal, rest: Text)
    requires l.IntegerLiteral? && SignedNumber(l) && Negative(l.text)
    requires Reads(Unsigned(l.text) + rest, [NumberOf(l)], rest)
    ensures Reads(l.text + rest, [MINUS, NumberOf(l)], rest)
  {
    var own := Unsigned(l.text) + rest;
    MarksSpelled();
    assert own[0] == Unsigned(l.text)[0];
    TokenReads(MINUS, own);
    ReadsThen("-" + own, [MINUS], own, [NumberOf(l)], rest);
    assert l.text + rest == "-" + own;
  }

  lemma OperandReads(o: OperandAst, rest: Text)
    requires OperandWritable(o) && Ends(rest)
    ensures Reads(OperandSql(o) + rest, OperandYield(OperandTreeOf(o)), rest)
  {
    match o
    case ColumnName(name) => TokenReads(Plain(IdentifierToken, name), rest);
    case LiteralValue(literal) => LiteralReads(literal, rest);
  }

  lemma ComparedText(a: Text, op: Text, b: Text, rest: Text)
    ensures a + " " + op + " " + b + rest == a + ([' '] + (op + ([' '] + (b + rest))))
  {
  }

  lemma ComparedReads(e: ExprAst, rest: Text)
    requires e.CompareAst? && OperandsWritable(e) && Ends(rest)
    ensures Reads(NotSql(e) + rest, NotYield(NotTreeOf(e)), rest)
  {
    var a, b := OperandYield(OperandTreeOf(e.left)), OperandYield(OperandTreeOf(e.right));
    var right := OperandSql(e.right) + rest;
    var middle := OpSql(e.op) + ([' '] + right);
    OpSpelled(e.op);
    OperandReads(e.right, rest);
    TokenSpace(OpToken(e.op), right, b, rest);
    SpaceThen(middle, [OpToken(e.op)] + b, rest);
    OperandReads(e.left, [' '] + middle);
    ReadsThen(OperandSql(e.left) + ([' '] + middle), a, [' '] + middle, [OpToken(e.op)] + b, rest);
    ComparedText(OperandSql(e.left), OpSql(e.op), OperandSql(e.right), rest);
    Grouped(a, [OpToken(e.op)], b);
  }

  lemma NotText(child: Text, rest: Text)
    ensures "NOT " + child + rest == "NOT" + ([' '] + (child + rest))
  {
  }

  lemma BracketText(inner: Text, rest: Text)
    ensures "(" + inner + ")" + rest == "(" + (inner + (")" + rest))
  {
  }

  // A condition in brackets.
  lemma BracketReads(inner: Text, ts: seq<Token>, rest: Text)
    requires Reads(inner + (")" + rest), ts, ")" + rest)
    ensures Reads("(" + inner + ")" + rest, [OPEN] + ts + [CLOSE], rest)
  {
    MarksSpelled();
    TokenReads(CLOSE, rest);
    ReadsThen(inner + (")" + rest), ts, ")" + rest, [CLOSE], rest);
    TokenReads(OPEN, inner + (")" + rest));
    ReadsThen("(" + (inner + (")" + rest)), [OPEN], inner + (")" + rest), ts + [CLOSE], rest);
    BracketText(inner, rest);
    Grouped([OPEN], ts, [CLOSE]);
  }

  lemma {:induction false} NotReads(e: ExprAst, rest: Text)
    requires Joins(e) && OperandsWritable(e) && Ends(rest)
    ensures Reads(NotSql(e) + rest, NotYield(NotTreeOf(e)), rest)
    decreases e, 0
  {
    match e
    case CompareAst(_, _, _) => ComparedReads(e, rest);
    case NotAst(child) =>
      NotReads(child, rest);
      NotSpelled();
      TokenSpace(NOT, NotSql(child) + rest, NotYield(NotTreeOf(child)), rest);
      NotText(NotSql(child), rest);
    case AndAst(children) =>
      AndChainReads(children, ")" + rest);
      BracketReads(AndChainSql(children), AndYield(AndChainTree(children)), rest);
    case OrAst(children) =>
      OrChainReads(children, ")" + rest);
      BracketReads(OrChainSql(children), OrYield(OrChainTree(children)), rest);
  }

  // Two conditions with a word between them.
  lemma WordBetween(first: Text, a: seq<Token>, word: Token, more: Text, b: seq<Token>, rest: Text)
    requires word == AND || word == OR
    requires Reads(more + rest, b, rest)
    requires Reads(first + ([' '] + (word.text + ([' '] + (more + rest)))), a,
                   [' '] + (word.text + ([' '] + (more + rest))))
    ensures Reads(first + ([' '] + word.text + [' ']) + more + rest, a + [word] + b, rest)
  {
    if word == AND { AndSpelled(); } else { OrSpelled(); }
    var own := more + rest;
    TokenSpace(word, own, b, rest);
    SpaceThen(word.text + ([' '] + own), [word] + b, rest);
    var tail := [' '] + (word.text + ([' '] + own));
    ReadsThen(first + tail, a, tail, [word] + b, rest);
    BetweenText(first, word.text, more, rest);
    Grouped(a, [word], b);
  }

  lemma BetweenText(first: Text, word: Text, more: Text, rest: Text)
    ensures first + ([' '] + word + [' ']) + more + rest == first + ([' '] + (word + ([' '] + (more + rest))))
  {
  }

  lemma {:induction false} AndChainReads(es: seq<ExprAst>, rest: Text)
    requires |es| > 0 && (forall e :: e in es ==> Joins(e) && OperandsWritable(e)) && Ends(rest)
    ensures Reads(AndChainSql(es) + rest, AndYield(AndChainTree(es)), rest)
    decreases es, 0
  {
    if |es| == 1 {
      NotReads(es[0], rest);
    } else {
      var more := AndChainSql(es[1..]);
      AndChainReads(es[1..], rest);
      NotReads(es[0], [' '] + (AND.text + ([' '] + (more + rest))));
      WordBetween(NotSql(es[0]), NotYield(NotTreeOf(es[0])), AND, more, AndYield(AndChainTree(es[1..])), rest);
      assert " AND " == [' '] + AND.text + [' '];
    }
  }

  lemma {:induction false} AndReads(e: ExprAst, rest: Text)
    requires Joins(e) && OperandsWritable(e) && Ends(rest)
    ensures Reads(AndSql(e) + rest, AndYield(AndTreeOf(e)), rest)
    decreases e, 1
  {
    if e.AndAst? { AndChainReads(e.children, rest); } else { NotReads(e, rest); }
  }

  lemma {:induction false} OrChainReads(es: seq<ExprAst>, rest: Text)
    requires |es| > 0 && (forall e :: e in es ==> Joins(e) && OperandsWritable(e)) && Ends(rest)
    ensures Reads(OrChainSql(es) + rest, OrYield(OrChainTree(es)), rest)
    decreases es, 1
  {
    if |es| == 1 {
      AndReads(es[0], rest);
    } else {
      var more := OrChainSql(es[1..]);
      OrChainReads(es[1..], rest);
      AndReads(es[0], [' '] + (OR.text + ([' '] + (more + rest))));
      WordBetween(AndSql(es[0]), AndYield(AndTreeOf(es[0])), OR, more, OrYield(OrChainTree(es[1..])), rest);
      assert " OR " == [' '] + OR.text + [' '];
    }
  }

  lemma WhereReads(e: ExprAst, rest: Text)
    requires Joins(e) && OperandsWritable(e) && Ends(rest)
    ensures Reads(WhereSql(e) + rest, OrYield(WhereTreeOf(e)), rest)
  {
    if e.OrAst? { OrChainReads(e.children, rest); } else { AndReads(e, rest); }
  }

  /** A WHERE written out as SQL is read back as that WHERE. */
  lemma WhereReparses(e: ExprAst)
    requires WhereWritable(e)
    ensures OrAt(Tokenize(WhereSql(e)), 0) == Parsed(e, [END])
  {
    WhereReads(e, []);
    WhereTreeMeans(e);
    assert WhereSql(e) + [] == WhereSql(e);
    EndOfText(WhereSql(e), OrYield(WhereTreeOf(e)));
    OrComplete(WhereTreeOf(e), [END], 0);
  }
}
