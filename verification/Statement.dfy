/** The binder: checking a WHERE and an INSERT against a table's schema. */
module Statements {
  import opened Pages
  import opened Records
  import opened Expressions
  import opened Parsing

  // ------------------------------------------------------------ columns by name

  // The first column with a name, from the i-th on.
  function FirstNamed(s: Schema, name: Text, i: nat): (r: Option<nat>)
    requires i <= |s.columns|
    ensures r.Some? ==> i <= r.value < |s.columns| && Named(s, name, r.value)
    ensures forall j :: i <= j < (if r.Some? then r.value else |s.columns|) ==> !Named(s, name, j)
    decreases |s.columns| - i
  {
    if i == |s.columns| then None
    else if Named(s, name, i) then Some(i)
    else FirstNamed(s, name, i + 1)
  }

  method ResolveColumn(s: Schema, name: Text) returns (index: Option<nat>)
    requires NulFree(name) && NamesNulFree(s)
    ensures index == FirstNamed(s, name, 0)
  {
    var i := FindColumnByName(s, name);
    index := if i < 0 then None else Some(i);
  }

  // ------------------------------------------------------------ binding a WHERE

  predicate NamesUsable(e: ExprAst) {
    match e
    case CompareAst(_, left, right) => OperandUsable(left) && OperandUsable(right)
    case AndAst(children) => forall c :: c in children ==> NamesUsable(c)
    case OrAst(children) => forall c :: c in children ==> NamesUsable(c)
    case NotAst(child) => NamesUsable(child)
  }

  predicate OperandUsable(o: OperandAst) {
    o.ColumnName? ==> NulFree(o.name)
  }

  function BoundOperand(o: OperandAst, s: Schema): Option<Operand> {
    match o
    case ColumnName(name) =>
      (match FirstNamed(s, name, 0)
       case None => None
       case Some(i) => Some(ColumnRef(s.columns[i].kind, s.columns[i].id, s.columns[i].size)))
    case LiteralValue(IntegerLiteral(_, integer, _)) => Some(IntConst(integer))
    case LiteralValue(StringLiteral(text)) => Some(TextConst(text))
  }

  predicate TooLong(o: OperandAst) {
    o.LiteralValue? && o.literal.IntegerLiteral? && o.literal.outOfRange
  }

  function BoundComparison(e: ExprAst, s: Schema): Option<Expr>
    requires e.CompareAst?
  {
    var left, right := BoundOperand(e.left, s), BoundOperand(e.right, s);
    if left.None? || right.None? || TypeOf(left.value) != TypeOf(right.value) then None
    else if TooLong(e.left) || TooLong(e.right) then None
    else Some(Comparison(e.op, left.value, right.value))
  }

  // The bound expression, shaped exactly like the parsed one; None if any part of it is refused.
  function BoundExpr(e: ExprAst, s: Schema): Option<Expr>
    decreases e, 0
  {
    match e
    case CompareAst(_, _, _) => BoundComparison(e, s)
    case AndAst(children) => (match BoundAll(children, s) case None => None case Some(list) => Some(And(list)))
    case OrAst(children) => (match BoundAll(children, s) case None => None case Some(list) => Some(Or(list)))
    case NotAst(child) => (match BoundExpr(child, s) case None => None case Some(c) => Some(Not(c)))
  }

  function BoundAll(es: seq<ExprAst>, s: Schema): Option<seq<Expr>>
    decreases es, 1
  {
    if |es| == 0 then Some([])
    else match BoundExpr(es[0], s)
      case None => None
      case Some(first) => Prefixed([first], BoundAll(es[1..], s))
  }

  function Prefixed(list: seq<Expr>, more: Option<seq<Expr>>): Option<seq<Expr>> {
    match more case None => None case Some(rest) => Some(list + rest)
  }

  method BindOperand(o: OperandAst, s: Schema) returns (bound: Option<Operand>)
    requires OperandUsable(o) && NamesNulFree(s)
    ensures bound == BoundOperand(o, s)
  {
    match o
    case ColumnName(name) =>
      var index := ResolveColumn(s, name);
      if index.None? { return None; }
      var column := s.columns[index.value];
      bound := Some(ColumnRef(column.kind, column.id, column.size));
    case LiteralValue(IntegerLiteral(_, integer, _)) => bound := Some(IntConst(integer));
    case LiteralValue(StringLiteral(text)) => bound := Some(TextConst(text));
  }

  method BindComparison(e: ExprAst, s: Schema) returns (bound: Option<Expr>)
    requires e.CompareAst? && NamesUsable(e) && NamesNulFree(s)
    ensures bound == BoundComparison(e, s)
  {
    var left := BindOperand(e.left, s);
    if left.None? { return None; }
    var right := BindOperand(e.right, s);
    if right.None? { return None; }
    if TypeOf(left.value) != TypeOf(right.value) { return None; }
    for side := 0 to 2
      invariant side > 0 ==> !TooLong(e.left)
      invariant side > 1 ==> !TooLong(e.right)
    {
      var operand := if side == 0 then e.left else e.right;
      if TooLong(operand) { return None; }
    }
    bound := Some(Comparison(e.op, left.value, right.value));
  }

  /** Binds a whole expression, node for node. */
  method ExpressionBind(e: ExprAst, s: Schema) returns (bound: Option<Expr>)
    requires NamesUsable(e) && NamesNulFree(s)
    ensures bound == BoundExpr(e, s)
    decreases e, 0
  {
    match e
    case CompareAst(_, _, _) => bound := BindComparison(e, s);
    case AndAst(children) =>
      var list := BindChildren(e, children, s);
      bound := if list.Some? then Some(And(list.value)) else None;
    case OrAst(children) =>
      var list := BindChildren(e, children, s);
      bound := if list.Some? then Some(Or(list.value)) else None;
    case NotAst(child) =>
      var c := ExpressionBind(child, s);
      bound := if c.Some? then Some(Not(c.value)) else None;
  }

  method BindChildren(ghost e: ExprAst, children: seq<ExprAst>, s: Schema) returns (list: Option<seq<Expr>>)
    requires e == AndAst(children) || e == OrAst(children)
    requires (forall c :: c in children ==> NamesUsable(c)) && NamesNulFree(s)
    ensures list == BoundAll(children, s)
    decreases children, 1
  {
    var bound: seq<Expr> := [];
    PrefixedNone(BoundAll(children, s));
    assert children[0..] == children;
    for i := 0 to |children|
      invariant BoundAll(children, s) == Prefixed(bound, BoundAll(children[i..], s))
    {
      var child := ExpressionBind(children[i], s);
      assert children[i..][1..] == children[i + 1..];
      if child.None? { return None; }
      PrefixedTwice(bound, child.value, BoundAll(children[i + 1..], s));
      bound := bound + [child.value];
    }
    assert bound + [] == bound;
    list := Some(bound);
  }

  lemma PrefixedNone(more: Option<seq<Expr>>)
    ensures Prefixed([], more) == more
  {
    if more.Some? { assert [] + more.value == more.value; }
  }

  lemma PrefixedTwice(list: seq<Expr>, x: Expr, more: Option<seq<Expr>>)
    ensures Prefixed(list, Prefixed([x], more)) == Prefixed(list + [x], more)
  {
    if more.Some? { assert list + ([x] + more.value) == list + [x] + more.value; }
  }

  // ------------------------------------------------------------ what binding accepts

  function TypeIn(o: OperandAst, s: Schema): Option<ColumnType> {
    match o
    case ColumnName(name) => (match FirstNamed(s, name, 0) case None => None case Some(i) => Some(s.columns[i].kind))
    case LiteralValue(literal) => Some(if literal.IntegerLiteral? then IntColumn else TextColumn)
  }

  // Every column exists, no comparison mixes types, and no integer is too long to compare.
  predicate WellTyped(e: ExprAst, s: Schema) {
    match e
    case CompareAst(_, left, right) =>
      && TypeIn(left, s).Some? && TypeIn(left, s) == TypeIn(right, s) && !TooLong(left) && !TooLong(right)
    case AndAst(children) => forall c :: c in children ==> WellTyped(c, s)
    case OrAst(children) => forall c :: c in children ==> WellTyped(c, s)
    case NotAst(child) => WellTyped(child, s)
  }

  /** Binding accepts exactly the well-typed expressions, and what it builds can always be evaluated. */
  lemma {:induction false} BindsExactly(e: ExprAst, s: Schema)
    requires Laid(s)
    ensures BoundExpr(e, s).Some? <==> WellTyped(e, s)
    ensures BoundExpr(e, s).Some? ==> Bound(BoundExpr(e, s).value, s)
    decreases e, 0
  {
    match e
    case CompareAst(_, left, right) =>
      OperandBinds(left, s);
      OperandBinds(right, s);
    case AndAst(children) => AllBindExactly(children, s);
    case OrAst(children) => AllBindExactly(children, s);
    case NotAst(child) => BindsExactly(child, s);
  }

  lemma {:induction false} AllBindExactly(es: seq<ExprAst>, s: Schema)
    requires Laid(s)
    ensures BoundAll(es, s).Some? <==> forall c :: c in es ==> WellTyped(c, s)
    ensures BoundAll(es, s).Some? ==> forall b :: b in BoundAll(es, s).value ==> Bound(b, s)
    decreases es, 1
  {
    if |es| > 0 {
      BindsExactly(es[0], s);
      AllBindExactly(es[1..], s);
      assert es == [es[0]] + es[1..];
    }
  }

  lemma OperandBinds(o: OperandAst, s: Schema)
    requires Laid(s)
    ensures BoundOperand(o, s).Some? <==> TypeIn(o, s).Some?
    ensures BoundOperand(o, s).Some? ==>
      OperandBound(BoundOperand(o, s).value, s) && TypeOf(BoundOperand(o, s).value) == TypeIn(o, s).value
  {
  }

  // c is a comparison somewhere in e.
  ghost predicate Within(c: ExprAst, e: ExprAst)
    decreases e
  {
    match e
    case CompareAst(_, _, _) => c == e
    case AndAst(children) => exists d :: d in children && Within(c, d)
    case OrAst(children) => exists d :: d in children && Within(c, d)
    case NotAst(child) => Within(c, child)
  }

  // An operand of a type: a literal of it, or the name of a column, the first of that name, that has it.
  ghost predicate IntOperand(o: OperandAst, s: Schema) {
    match o
    case ColumnName(name) => exists i :: 0 <= i < |s.columns| && FirstOf(s, name, i) && s.columns[i].kind == IntColumn
    case LiteralValue(literal) => literal.IntegerLiteral? && !literal.outOfRange
  }

  ghost predicate TextOperand(o: OperandAst, s: Schema) {
    match o
    case ColumnName(name) => exists i :: 0 <= i < |s.columns| && FirstOf(s, name, i) && s.columns[i].kind == TextColumn
    case LiteralValue(literal) => literal.StringLiteral?
  }

  ghost predicate FirstOf(s: Schema, name: Text, i: nat)
    requires i < |s.columns|
  {
    Named(s, name, i) && forall j :: 0 <= j < i ==> !Named(s, name, j)
  }

  ghost predicate OneType(c: ExprAst, s: Schema)
    requires c.CompareAst?
  {
    (IntOperand(c.left, s) && IntOperand(c.right, s)) || (TextOperand(c.left, s) && TextOperand(c.right, s))
  }

  lemma OneTypeTyped(c: ExprAst, s: Schema)
    requires c.CompareAst?
    ensures WellTyped(c, s) <==> OneType(c, s)
  {
    OperandTyped(c.left, s);
    OperandTyped(c.right, s);
  }

  lemma OperandTyped(o: OperandAst, s: Schema)
    ensures IntOperand(o, s) <==> TypeIn(o, s) == Some(IntColumn) && !TooLong(o)
    ensures TextOperand(o, s) <==> TypeIn(o, s) == Some(TextColumn) && !TooLong(o)
  {
    if o.ColumnName? && FirstNamed(s, o.name, 0).Some? { assert FirstOf(s, o.name, FirstNamed(s, o.name, 0).value); }
  }

  /** A WHERE is accepted exactly when each comparison in it, however deep, is of two integers or of two texts. */
  lemma {:induction false} WhereAccepted(e: ExprAst, s: Schema)
    ensures WellTyped(e, s) <==> forall c :: Within(c, e) ==> c.CompareAst? && OneType(c, s)
    decreases e
  {
    match e
    case CompareAst(_, _, _) =>
      OneTypeTyped(e, s);
      assert Within(e, e);
    case AndAst(children) => AllAccepted(e, children, s);
    case OrAst(children) => AllAccepted(e, children, s);
    case NotAst(child) => WhereAccepted(child, s);
  }

  lemma {:induction false} AllAccepted(e: ExprAst, children: seq<ExprAst>, s: Schema)
    requires e == AndAst(children) || e == OrAst(children)
    ensures WellTyped(e, s) <==> forall c :: Within(c, e) ==> c.CompareAst? && OneType(c, s)
    decreases e, 0
  {
    forall d | d in children
      ensures WellTyped(d, s) <==> forall c :: Within(c, d) ==> c.CompareAst? && OneType(c, s)
    {
      WhereAccepted(d, s);
    }
    if forall c :: Within(c, e) ==> c.CompareAst? && OneType(c, s) {
      forall d, c | d in children && Within(c, d) ensures c.CompareAst? && OneType(c, s) { assert Within(c, e); }
    }
  }

  // ------------------------------------------------------------ what a WHERE means

  // A value as the language has them.
  datatype Value = IntValueOf(integer: int) | TextValueOf(text: Text)

  // An operand's value in a row: the column it names, or the literal itself.
  function ValueIn(o: OperandAst, row: Row, s: Schema): Value
    requires Laid(s) && |row| == s.rowSize && TypeIn(o, s).Some?
  {
    match o
    case ColumnName(name) =>
      var i := FirstNamed(s, name, 0).value;
      var field := ColumnField(row, s, i + 1);
      if s.columns[i].kind.IntColumn? then IntValueOf(DecodeInt(field)) else TextValueOf(Stored(field))
    case LiteralValue(IntegerLiteral(_, integer, _)) => IntValueOf(integer)
    case LiteralValue(StringLiteral(text)) => TextValueOf(text)
  }

  ghost predicate Compares(op: CompareOp, left: Value, right: Value) {
    match (left, right)
    case (IntValueOf(a), IntValueOf(b)) =>
      (match op
       case Equal => a == b
       case NotEqual => a != b
       case Less => a < b
       case LessEqual => a <= b
       case Greater => a > b
       case GreaterEqual => a >= b)
    case (TextValueOf(a), TextValueOf(b)) =>
      (match op
       case Equal => a == b
       case NotEqual => a != b
       case Less => Before(a, b)
       case LessEqual => a == b || Before(a, b)
       case Greater => Before(b, a)
       case GreaterEqual => a == b || Before(b, a))
    case _ => false
  }

  // Whether a row satisfies a WHERE, read off the text of the WHERE and the names of the columns.
  ghost predicate True(e: ExprAst, row: Row, s: Schema)
    requires Laid(s) && |row| == s.rowSize && WellTyped(e, s)
  {
    match e
    case CompareAst(op, left, right) => Compares(op, ValueIn(left, row, s), ValueIn(right, row, s))
    case AndAst(children) => forall c :: c in children ==> True(c, row, s)
    case OrAst(children) => exists c :: c in children && True(c, row, s)
    case NotAst(child) => !True(child, row, s)
  }

  /** Binding preserves meaning: the bound expression holds of exactly the rows the WHERE is true of. */
  lemma {:induction false} BindingMeans(e: ExprAst, row: Row, s: Schema)
    requires Laid(s) && |row| == s.rowSize && WellTyped(e, s)
    ensures BoundExpr(e, s).Some? && Bound(BoundExpr(e, s).value, s)
    ensures Holds(BoundExpr(e, s).value, row, s) <==> True(e, row, s)
    decreases e, 0
  {
    BindsExactly(e, s);
    match e
    case CompareAst(op, left, right) =>
      OperandMeans(left, row, s);
      OperandMeans(right, row, s);
      ComparingMeans(op, BoundExpr(e, s).value.left, BoundExpr(e, s).value.right, row, s);
    case AndAst(children) => AllMean(children, row, s);
    case OrAst(children) => AllMean(children, row, s);
    case NotAst(child) => BindingMeans(child, row, s);
  }

  ghost function ValueOf(b: Operand, row: Row, s: Schema): Value
    requires Laid(s) && |row| == s.rowSize && OperandBound(b, s)
  {
    if TypeOf(b).IntColumn? then IntValueOf(IntValue(b, row, s)) else TextValueOf(TextValue(b, row, s))
  }

  lemma ComparingMeans(op: CompareOp, left: Operand, right: Operand, row: Row, s: Schema)
    requires Laid(s) && |row| == s.rowSize && OperandBound(left, s) && OperandBound(right, s)
    requires TypeOf(left) == TypeOf(right)
    ensures OpHolds(op, CompareOperands(left, right, row, s)) <==>
      Compares(op, ValueOf(left, row, s), ValueOf(right, row, s))
  {
    if TypeOf(left).TextColumn? {
      var a, b := TextValue(left, row, s), TextValue(right, row, s);
      CompareTextEqual(a, b);
      CompareTextBefore(a, b);
      CompareTextBefore(b, a);
    }
  }

  lemma OperandMeans(o: OperandAst, row: Row, s: Schema)
    requires Laid(s) && |row| == s.rowSize && TypeIn(o, s).Some?
    ensures BoundOperand(o, s).Some? && OperandBound(BoundOperand(o, s).value, s)
    ensures ValueIn(o, row, s) == ValueOf(BoundOperand(o, s).value, row, s)
  {
    OperandBinds(o, s);
  }

  // The i-th expression of a list and the i-th bound one mean the same.
  lemma {:induction false} AllMean(es: seq<ExprAst>, row: Row, s: Schema)
    requires Laid(s) && |row| == s.rowSize && forall c :: c in es ==> WellTyped(c, s)
    ensures BoundAll(es, s).Some?
    ensures var bs := BoundAll(es, s).value;
      |bs| == |es| && forall i :: 0 <= i < |es| ==> Bound(bs[i], s) && (Holds(bs[i], row, s) <==> True(es[i], row, s))
    decreases es, 1
  {
    AllBindExactly(es, s);
    if |es| > 0 {
      BindingMeans(es[0], row, s);
      AllMean(es[1..], row, s);
      assert forall i :: 0 < i < |es| ==> es[i] == es[1..][i - 1];
    }
  }
}
