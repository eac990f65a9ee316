/** The grammar of a WHERE, as derivation trees, and the parser's agreement with it. */
module Grammar {
  import opened Tokens
  import opened Parsing

  // An expression: one chain of ANDs, or several with an OR between any two.
  datatype OrTree = LastAnd(last: AndTree) | AndThenOr(first: AndTree, or: Token, more: OrTree)

  // A chain of ANDs: what stands between them binds tighter.
  datatype AndTree = LastNot(last: NotTree) | NotThenAnd(first: NotTree, and: Token, more: AndTree)

  // What an AND joins: a negation, a whole expression in brackets, or two operands compared.
  datatype NotTree =
    | Negated(not: Token, inner: NotTree)
    | Nested(open: Token, expr: OrTree, close: Token)
    | Compared(left: OperandTree, op: Token, right: OperandTree)

  // A column's name, a string, or a number that may have a sign.
  datatype OperandTree = Single(token: Token) | Signed(minus: Token, integer: Token)

  // ------------------------------------------------------------ the grammar's tokens, in the right places

  predicate OperandFits(t: OperandTree) {
    match t
    case Single(token) =>
      token.kind == IdentifierToken || token.kind == IntegerToken || (token.kind == StringToken && |token.text| >= 2)
    case Signed(minus, integer) => minus.kind == MinusToken && integer.kind == IntegerToken
  }

  predicate NotFits(t: NotTree) {
    match t
    case Negated(not, inner) => not.kind == NotToken && NotFits(inner)
    case Nested(open, expr, close) => open.kind == LeftParenToken && OrFits(expr) && close.kind == RightParenToken
    case Compared(left, op, right) => OperandFits(left) && CompareOpOf(op.kind).Some? && OperandFits(right)
  }

  predicate AndFits(t: AndTree) {
    match t
    case LastNot(last) => NotFits(last)
    case NotThenAnd(first, and, more) => NotFits(first) && and.kind == AndToken && AndFits(more)
  }

  predicate OrFits(t: OrTree) {
    match t
    case LastAnd(last) => AndFits(last)
    case AndThenOr(first, or, more) => AndFits(first) && or.kind == OrToken && OrFits(more)
  }

  // ------------------------------------------------------------ the tokens a tree derives

  function OperandYield(t: OperandTree): seq<Token> {
    match t
    case Single(token) => [token]
    case Signed(minus, integer) => [minus, integer]
  }

  function NotYield(t: NotTree): seq<Token> {
    match t
    case Negated(not, inner) => [not] + NotYield(inner)
    case Nested(open, expr, close) => [open] + OrYield(expr) + [close]
    case Compared(left, op, right) => OperandYield(left) + [op] + OperandYield(right)
  }

  function AndYield(t: AndTree): seq<Token> {
    match t
    case LastNot(last) => NotYield(last)
    case NotThenAnd(first, and, more) => NotYield(first) + [and] + AndYield(more)
  }

  function OrYield(t: OrTree): seq<Token> {
    match t
    case LastAnd(last) => AndYield(last)
    case AndThenOr(first, or, more) => AndYield(first) + [or] + OrYield(more)
  }

  // ------------------------------------------------------------ what a tree means

  function OperandMeaning(t: OperandTree): OperandAst
    requires OperandFits(t)
  {
    match t
    case Single(token) =>
      if token.kind == IdentifierToken then ColumnName(token.text) else LiteralValue(LiteralOf(false, token))
    case Signed(_, integer) => LiteralValue(LiteralOf(true, integer))
  }

  function NotMeaning(t: NotTree): ExprAst
    requires NotFits(t)
    decreases t, 0
  {
    match t
    case Negated(_, inner) => NotAst(NotMeaning(inner))
    case Nested(_, expr, _) => OrMeaning(expr)
    case Compared(left, op, right) => CompareAst(CompareOpOf(op.kind).value, OperandMeaning(left),
                                                 OperandMeaning(right))
  }

  function AndOperands(t: AndTree): (list: seq<ExprAst>)
    requires AndFits(t)
    ensures |list| > 0
    decreases t, 0
  {
    match t
    case LastNot(last) => [NotMeaning(last)]
    case NotThenAnd(first, _, more) => [NotMeaning(first)] + AndOperands(more)
  }

  function AndMeaning(t: AndTree): ExprAst
    requires AndFits(t)
    decreases t, 1
  {
    match t
    case LastNot(last) => NotMeaning(last)
    case NotThenAnd(_, _, _) => AndAst(AndOperands(t))
  }

  function OrOperands(t: OrTree): (list: seq<ExprAst>)
    requires OrFits(t)
    ensures |list| > 0
    decreases t, 0
  {
    match t
    case LastAnd(last) => [AndMeaning(last)]
    case AndThenOr(first, _, more) => [AndMeaning(first)] + OrOperands(more)
  }

  function OrMeaning(t: OrTree): ExprAst
    requires OrFits(t)
    decreases t, 1
  {
    match t
    case LastAnd(last) => AndMeaning(last)
    case AndThenOr(_, _, _) => OrAst(OrOperands(t))
  }

  // How deeply NOTs and parentheses nest.
  function NotNesting(t: NotTree): nat {
    match t
    case Negated(_, inner) => 1 + NotNesting(inner)
    case Nested(_, expr, _) => 1 + OrNesting(expr)
    case Compared(_, _, _) => 0
  }

  function Max(a: nat, b: nat): nat { if a > b then a else b }

  function AndNesting(t: AndTree): nat {
    match t
    case LastNot(last) => NotNesting(last)
    case NotThenAnd(first, _, more) => Max(NotNesting(first), AndNesting(more))
  }

  function OrNesting(t: OrTree): nat {
    match t
    case LastAnd(last) => AndNesting(last)
    case AndThenOr(first, _, more) => Max(AndNesting(first), OrNesting(more))
  }

  // ------------------------------------------------------------ every derivable sequence is parsed

  lemma OperandComplete(t: OperandTree, rest: seq<Token>)
    requires OperandFits(t)
    ensures OperandAt(OperandYield(t) + rest) == Parsed(OperandMeaning(t), rest)
  {
    var ts := OperandYield(t) + rest;
    match t
    case Single(_) => assert ts[1..] == rest;
    case Signed(_, _) => assert ts[2..] == rest;
  }

  lemma ComparisonFrom(ts: seq<Token>, left: OperandAst, op: Token, mid: seq<Token>, right: OperandAst,
                       rest: seq<Token>)
    requires OperandAt(ts) == Parsed(left, [op] + mid) && CompareOpOf(op.kind).Some?
    requires OperandAt(mid) == Parsed(right, rest)
    ensures ComparisonAt(ts) == Parsed(CompareAst(CompareOpOf(op.kind).value, left, right), rest)
  {
    assert ([op] + mid)[1..] == mid;
  }

  lemma OperandFirst(t: OperandTree, more: seq<Token>)
    requires OperandFits(t)
    ensures Kind(OperandYield(t) + more) !in {NotToken, LeftParenToken}
  {
  }

  lemma ComparisonComplete(t: NotTree, rest: seq<Token>)
    requires t.Compared? && NotFits(t)
    ensures ComparisonAt(NotYield(t) + rest) == Parsed(NotMeaning(t), rest)
    ensures Kind(NotYield(t) + rest) !in {NotToken, LeftParenToken}
  {
    var mid := OperandYield(t.right) + rest;
    Regroup(OperandYield(t.left), t.op, OperandYield(t.right), rest);
    OperandComplete(t.left, [t.op] + mid);
    OperandComplete(t.right, rest);
    OperandFirst(t.left, [t.op] + mid);
    ComparisonFrom(NotYield(t) + rest, OperandMeaning(t.left), t.op, mid, OperandMeaning(t.right), rest);
  }

  // How each rule goes on from what the rule inside it finds.
  lemma NegatedAt(not: Token, ts: seq<Token>, e: ExprAst, rest: seq<Token>, depth: nat)
    requires not.kind == NotToken && depth < MAX_EXPRESSION_DEPTH && NotAt(ts, depth + 1) == Parsed(e, rest)
    ensures NotAt([not] + ts, depth) == Parsed(NotAst(e), rest)
  {
    assert ([not] + ts)[1..] == ts;
  }

  lemma NestedAt(open: Token, ts: seq<Token>, e: ExprAst, close: Token, rest: seq<Token>, depth: nat)
    requires open.kind == LeftParenToken && close.kind == RightParenToken && depth < MAX_EXPRESSION_DEPTH
    requires OrAt(ts, depth + 1) == Parsed(e, [close] + rest)
    ensures NotAt([open] + ts, depth) == Parsed(e, rest)
  {
    assert ([open] + ts)[1..] == ts && ([close] + rest)[1..] == rest;
  }

  lemma ComparedAt(ts: seq<Token>, depth: nat)
    requires Kind(ts) !in {NotToken, LeftParenToken}
    ensures NotAt(ts, depth) == ComparisonAt(ts)
  {
  }

  lemma Bracketed(open: Token, a: seq<Token>, close: Token, rest: seq<Token>)
    ensures [open] + a + [close] + rest == [open] + (a + ([close] + rest))
  {
  }

  lemma AndChain(ts: seq<Token>, e: ExprAst, and: Token, more: seq<Token>, depth: nat)
    requires and.kind == AndToken && NotAt(ts, depth) == Parsed(e, [and] + more)
    ensures AndListAt(ts, depth) == Prepended([e], AndListAt(more, depth))
  {
    assert ([and] + more)[1..] == more;
  }

  lemma OrChain(ts: seq<Token>, e: ExprAst, or: Token, more: seq<Token>, depth: nat)
    requires or.kind == OrToken && AndAt(ts, depth) == Parsed(e, [or] + more)
    ensures OrListAt(ts, depth) == Prepended([e], OrListAt(more, depth))
  {
    assert ([or] + more)[1..] == more;
  }

  lemma Regroup(a: seq<Token>, x: Token, b: seq<Token>, c: seq<Token>)
    ensures a + [x] + b + c == a + ([x] + (b + c))
    ensures [x] + b + c == [x] + (b + c)
  {
  }

  lemma {:induction false} NestedComplete(open: Token, expr: OrTree, close: Token, rest: seq<Token>, depth: nat)
    requires NotFits(Nested(open, expr, close)) && 1 + OrNesting(expr) + depth <= MAX_EXPRESSION_DEPTH
    ensures NotAt(NotYield(Nested(open, expr, close)) + rest, depth) == Parsed(OrMeaning(expr), rest)
    decreases expr, 1
  {
    OrComplete(expr, [close] + rest, depth + 1);
    NestedAt(open, OrYield(expr) + ([close] + rest), OrMeaning(expr), close, rest, depth);
    Bracketed(open, OrYield(expr), close, rest);
  }

  lemma {:induction false} NotComplete(t: NotTree, rest: seq<Token>, depth: nat)
    requires NotFits(t) && NotNesting(t) + depth <= MAX_EXPRESSION_DEPTH
    ensures NotAt(NotYield(t) + rest, depth) == Parsed(NotMeaning(t), rest)
    decreases t, 0
  {
    match t
    case Negated(not, inner) =>
      NotComplete(inner, rest, depth + 1);
      NegatedAt(not, NotYield(inner) + rest, NotMeaning(inner), rest, depth);
      Regroup([], not, NotYield(inner), rest);
    case Nested(open, expr, close) =>
      NestedComplete(open, expr, close, rest, depth);
    case Compared(_, _, _) =>
      ComparisonComplete(t, rest);
      ComparedAt(NotYield(t) + rest, depth);
  }

  lemma {:induction false} AndComplete(t: AndTree, rest: seq<Token>, depth: nat)
    requires AndFits(t) && AndNesting(t) + depth <= MAX_EXPRESSION_DEPTH && Kind(rest) != AndToken
    ensures AndListAt(AndYield(t) + rest, depth) == Parsed(AndOperands(t), rest)
    decreases t, 0
  {
    match t
    case LastNot(last) => NotComplete(last, rest, depth);
    case NotThenAnd(first, and, more) =>
      NotComplete(first, [and] + (AndYield(more) + rest), depth);
      AndComplete(more, rest, depth);
      Regroup(NotYield(first), and, AndYield(more), rest);
      AndChain(AndYield(t) + rest, NotMeaning(first), and, AndYield(more) + rest, depth);
  }

  lemma {:induction false} OrComplete(t: OrTree, rest: seq<Token>, depth: nat)
    requires OrFits(t) && OrNesting(t) + depth <= MAX_EXPRESSION_DEPTH && Kind(rest) !in {AndToken, OrToken}
    ensures OrListAt(OrYield(t) + rest, depth) == Parsed(OrOperands(t), rest)
    ensures OrAt(OrYield(t) + rest, depth) == Parsed(OrMeaning(t), rest)
    decreases t, 0
  {
    match t
    case LastAnd(last) => AndComplete(last, rest, depth);
    case AndThenOr(first, or, more) =>
      AndComplete(first, [or] + (OrYield(more) + rest), depth);
      OrComplete(more, rest, depth);
      Regroup(AndYield(first), or, OrYield(more), rest);
      AndMeaningOf(first);
      OrChain(OrYield(t) + rest, AndMeaning(first), or, OrYield(more) + rest, depth);
  }

  // ------------------------------------------------------------ everything parsed is derivable

  ghost predicate OrDerives(t: OrTree, ts: seq<Token>, e: ExprAst, rest: seq<Token>, depth: nat) {
    OrFits(t) && OrYield(t) + rest == ts && OrMeaning(t) == e && OrNesting(t) + depth <= MAX_EXPRESSION_DEPTH
  }

  ghost predicate AndDerives(t: AndTree, ts: seq<Token>, list: seq<ExprAst>, rest: seq<Token>, depth: nat) {
    AndFits(t) && AndYield(t) + rest == ts && AndOperands(t) == list && AndNesting(t) + depth <= MAX_EXPRESSION_DEPTH
  }

  ghost predicate NotDerives(t: NotTree, ts: seq<Token>, e: ExprAst, rest: seq<Token>, depth: nat) {
    NotFits(t) && NotYield(t) + rest == ts && NotMeaning(t) == e && NotNesting(t) + depth <= MAX_EXPRESSION_DEPTH
  }

  lemma OperandSound(ts: seq<Token>) returns (t: OperandTree)
    requires OperandAt(ts).Parsed?
    ensures OperandFits(t) && OperandMeaning(t) == OperandAt(ts).value && OperandYield(t) + OperandAt(ts).rest == ts
  {
    t := if ts[0].kind == MinusToken then Signed(ts[0], ts[1]) else Single(ts[0]);
  }

  // What stands before and after a separating token, put together.
  lemma Around(a: seq<Token>, tail: seq<Token>, b: seq<Token>, rest: seq<Token>, ts: seq<Token>)
    requires a + tail == ts && |tail| > 0 && b + rest == tail[1..]
    ensures a + [tail[0]] + b + rest == ts
  {
    assert tail == [tail[0]] + tail[1..];
    Regroup(a, tail[0], b, rest);
  }

  lemma ComparisonSound(ts: seq<Token>) returns (t: NotTree)
    requires ComparisonAt(ts).Parsed?
    ensures t.Compared? && NotFits(t) && NotMeaning(t) == ComparisonAt(ts).value
    ensures NotYield(t) + ComparisonAt(ts).rest == ts
  {
    var left := OperandSound(ts);
    var tail := OperandAt(ts).rest;
    var right := OperandSound(tail[1..]);
    t := Compared(left, tail[0], right);
    Around(OperandYield(left), tail, OperandYield(right), OperandAt(tail[1..]).rest, ts);
  }

  lemma NegatedDerives(ts: seq<Token>, inner: NotTree, e: ExprAst, rest: seq<Token>, depth: nat)
    requires Kind(ts) == NotToken && NotDerives(inner, ts[1..], e, rest, depth + 1)
    ensures NotDerives(Negated(ts[0], inner), ts, NotAst(e), rest, depth)
  {
    Regroup([], ts[0], NotYield(inner), rest);
    assert ts == [ts[0]] + ts[1..];
  }

  lemma NestedDerives(ts: seq<Token>, expr: OrTree, e: ExprAst, rest: seq<Token>, depth: nat)
    requires Kind(ts) == LeftParenToken && Kind(rest) == RightParenToken && OrDerives(expr, ts[1..], e, rest, depth + 1)
    ensures NotDerives(Nested(ts[0], expr, rest[0]), ts, e, rest[1..], depth)
  {
    Regroup([], ts[0], OrYield(expr), rest);
    assert ts == [ts[0]] + ts[1..] && rest == [rest[0]] + rest[1..];
  }

  lemma {:induction false} NestedSound(ts: seq<Token>, depth: nat) returns (t: NotTree)
    requires NotAt(ts, depth).Parsed? && depth <= MAX_EXPRESSION_DEPTH && Kind(ts) == LeftParenToken
    ensures NotDerives(t, ts, NotAt(ts, depth).value, NotAt(ts, depth).rest, depth)
    decreases |ts|, 0
  {
    var found := OrAt(ts[1..], depth + 1);
    var expr := OrSound(ts[1..], depth + 1);
    t := Nested(ts[0], expr, found.rest[0]);
    NestedDerives(ts, expr, found.value, found.rest, depth);
  }

  lemma {:induction false} NotSound(ts: seq<Token>, depth: nat) returns (t: NotTree)
    requires NotAt(ts, depth).Parsed? && depth <= MAX_EXPRESSION_DEPTH
    ensures NotDerives(t, ts, NotAt(ts, depth).value, NotAt(ts, depth).rest, depth)
    decreases |ts|, 1
  {
    if Kind(ts) == NotToken {
      var inner := NotSound(ts[1..], depth + 1);
      t := Negated(ts[0], inner);
      NegatedDerives(ts, inner, NotAt(ts[1..], depth + 1).value, NotAt(ts, depth).rest, depth);
    } else if Kind(ts) == LeftParenToken {
      t := NestedSound(ts, depth);
    } else {
      ComparedAt(ts, depth);
      t := ComparisonSound(ts);
    }
  }

  lemma AndChainDerives(ts: seq<Token>, first: NotTree, e: ExprAst, tail: seq<Token>, more: AndTree, list: seq<ExprAst>,
                        rest: seq<Token>, depth: nat)
    requires NotDerives(first, ts, e, tail, depth) && Kind(tail) == AndToken
    requires AndDerives(more, tail[1..], list, rest, depth)
    ensures AndDerives(NotThenAnd(first, tail[0], more), ts, [e] + list, rest, depth)
  {
    Around(NotYield(first), tail, AndYield(more), rest, ts);
  }

  lemma OrChainDerives(ts: seq<Token>, first: AndTree, list: seq<ExprAst>, tail: seq<Token>, more: OrTree, e: ExprAst,
                       rest: seq<Token>, depth: nat)
    requires AndDerives(first, ts, list, tail, depth) && Kind(tail) == OrToken
    requires OrDerives(more, tail[1..], e, rest, depth)
    ensures OrDerives(AndThenOr(first, tail[0], more), ts, OrAst([AndMeaning(first)] + OrOperands(more)), rest, depth)
  {
    Around(AndYield(first), tail, OrYield(more), rest, ts);
  }

  lemma {:induction false} AndSound(ts: seq<Token>, depth: nat) returns (t: AndTree)
    requires AndListAt(ts, depth).Parsed? && depth <= MAX_EXPRESSION_DEPTH
    ensures AndDerives(t, ts, AndListAt(ts, depth).value, AndListAt(ts, depth).rest, depth)
    ensures Kind(AndListAt(ts, depth).rest) != AndToken
    decreases |ts|, 2
  {
    var first := NotSound(ts, depth);
    var rest := NotAt(ts, depth).rest;
    if Kind(rest) != AndToken {
      t := LastNot(first);
    } else {
      var more := AndSound(rest[1..], depth);
      t := NotThenAnd(first, rest[0], more);
      var found := AndListAt(rest[1..], depth);
      AndChainDerives(ts, first, NotAt(ts, depth).value, rest, more, found.value, found.rest, depth);
    }
  }

  lemma {:induction false} OrSound(ts: seq<Token>, depth: nat) returns (t: OrTree)
    requires OrAt(ts, depth).Parsed? && depth <= MAX_EXPRESSION_DEPTH
    ensures OrDerives(t, ts, OrAt(ts, depth).value, OrAt(ts, depth).rest, depth)
    ensures OrOperands(t) == OrListAt(ts, depth).value
    ensures Kind(OrAt(ts, depth).rest) !in {AndToken, OrToken}
    decreases |ts|, 4
  {
    assert AndAt(ts, depth).Parsed?;
    var first := AndSound(ts, depth);
    var rest := AndAt(ts, depth).rest;
    AndMeaningOf(first);
    if Kind(rest) != OrToken {
      t := LastAnd(first);
    } else {
      assert OrAt(rest[1..], depth).Parsed?;
      var more := OrSound(rest[1..], depth);
      t := AndThenOr(first, rest[0], more);
      var found := OrAt(rest[1..], depth);
      OrChainDerives(ts, first, AndListAt(ts, depth).value, rest, more, found.value, found.rest, depth);
    }
  }

  lemma AndMeaningOf(t: AndTree)
    requires AndFits(t)
    ensures AndMeaning(t) == AndOf(AndOperands(t))
  {
  }

  /** The parser finds an expression exactly where the grammar derives one, nested at most
      64 deep, from the longest run of tokens that could be one; and it finds that one. */
  lemma WhereParsedExactly(ts: seq<Token>, e: ExprAst, rest: seq<Token>)
    ensures OrAt(ts, 0) == Parsed(e, rest) <==>
      (Kind(rest) !in {AndToken, OrToken} && exists t :: OrDerives(t, ts, e, rest, 0))
  {
    if OrAt(ts, 0) == Parsed(e, rest) {
      var t := OrSound(ts, 0);
    }
    if t :| Kind(rest) !in {AndToken, OrToken} && OrDerives(t, ts, e, rest, 0) {
      OrComplete(t, rest, 0);
    }
  }

  // ------------------------------------------------------------ how deep the result can be

  function LevelsOfAll(list: seq<ExprAst>): (n: nat)
    ensures forall i :: 0 <= i < |list| ==> Levels(list[i]) <= n
    decreases list, 0
  {
    if |list| == 0 then 0 else Max(Levels(list[0]), LevelsOfAll(list[1..]))
  }

  function Levels(e: ExprAst): nat
    decreases e, 1
  {
    match e
    case CompareAst(_, _, _) => 1
    case NotAst(child) => 1 + Levels(child)
    case AndAst(children) => 1 + LevelsOfAll(children)
    case OrAst(children) => 1 + LevelsOfAll(children)
  }

  lemma {:induction false} NotShallow(t: NotTree, depth: nat)
    requires NotFits(t) && NotNesting(t) + depth <= MAX_EXPRESSION_DEPTH
    ensures Levels(NotMeaning(t)) <= 2 * (MAX_EXPRESSION_DEPTH - depth) + 1
    decreases t
  {
    match t
    case Negated(_, inner) => NotShallow(inner, depth + 1);
    case Nested(_, expr, _) => OrShallow(expr, depth + 1);
    case Compared(_, _, _) =>
  }

  lemma {:induction false} AndShallow(t: AndTree, depth: nat)
    requires AndFits(t) && AndNesting(t) + depth <= MAX_EXPRESSION_DEPTH
    ensures LevelsOfAll(AndOperands(t)) <= 2 * (MAX_EXPRESSION_DEPTH - depth) + 1
    ensures Levels(AndMeaning(t)) <= 2 * (MAX_EXPRESSION_DEPTH - depth) + 2
    decreases t
  {
    match t
    case LastNot(last) => NotShallow(last, depth);
    case NotThenAnd(first, _, more) =>
      NotShallow(first, depth);
      AndShallow(more, depth);
      assert AndOperands(t)[1..] == AndOperands(more);
  }

  lemma {:induction false} OrShallow(t: OrTree, depth: nat)
    requires OrFits(t) && OrNesting(t) + depth <= MAX_EXPRESSION_DEPTH
    ensures LevelsOfAll(OrOperands(t)) <= 2 * (MAX_EXPRESSION_DEPTH - depth) + 2
    ensures Levels(OrMeaning(t)) <= 2 * (MAX_EXPRESSION_DEPTH - depth) + 3
    decreases t
  {
    match t
    case LastAnd(last) => AndShallow(last, depth);
    case AndThenOr(first, _, more) =>
      AndShallow(first, depth);
      OrShallow(more, depth);
      assert OrOperands(t)[1..] == OrOperands(more);
  }

  /** However long its AND and OR chains, a parsed WHERE has at most 2 * 64 + 3 levels. */
  lemma WhereShallow(ts: seq<Token>)
    requires OrAt(ts, 0).Parsed?
    ensures Levels(OrAt(ts, 0).value) <= 2 * MAX_EXPRESSION_DEPTH + 3
  {
    var t := OrSound(ts, 0);
    OrShallow(t, 0);
  }
}
