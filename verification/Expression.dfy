/** A WHERE expression bound to a table, and whether a row satisfies it. */
module Expressions {
  import opened Pages
  import opened Records

  datatype CompareOp = Equal | NotEqual | Less | LessEqual | Greater | GreaterEqual

  // One side of a comparison: a column of the row, or a constant.
  datatype Operand =
    | ColumnRef(kind: ColumnType, id: nat, width: nat)
    | IntConst(integer: int)
    | TextConst(text: Text)

  datatype Expr =
    | Comparison(op: CompareOp, left: Operand, right: Operand)
    | And(children: seq<Expr>)
    | Or(children: seq<Expr>)
    | Not(child: Expr)

  function TypeOf(o: Operand): ColumnType {
    match o
    case ColumnRef(kind, _, _) => kind
    case IntConst(_) => IntColumn
    case TextConst(_) => TextColumn
  }

  // What binding establishes: the column exists, with this type and width.
  predicate OperandBound(o: Operand, s: Schema) {
    o.ColumnRef? ==>
      1 <= o.id <= |s.columns| && s.columns[o.id - 1].kind == o.kind && s.columns[o.id - 1].size == o.width
  }

  predicate Bound(e: Expr, s: Schema) {
    match e
    case Comparison(_, left, right) => OperandBound(left, s) && OperandBound(right, s) && TypeOf(left) == TypeOf(right)
    case And(children) => forall c :: c in children ==> Bound(c, s)
    case Or(children) => forall c :: c in children ==> Bound(c, s)
    case Not(child) => Bound(child, s)
  }

  function ColumnField(row: Row, s: Schema, id: nat): (f: seq<Byte>)
    requires Laid(s) && |row| == s.rowSize && 1 <= id <= |s.columns|
    ensures |f| == s.columns[id - 1].size
  {
    FieldsApart(s, id - 1, |s.columns|);
    Field(row, s.columns[id - 1])
  }

  // An INT column's value in a row.
  function ColumnInt(row: Row, s: Schema, id: nat): int
    requires Laid(s) && |row| == s.rowSize && 1 <= id <= |s.columns| && s.columns[id - 1].kind.IntColumn?
  {
    DecodeInt(ColumnField(row, s, id))
  }

  function IntValue(o: Operand, row: Row, s: Schema): int
    requires Laid(s) && |row| == s.rowSize && OperandBound(o, s) && TypeOf(o).IntColumn?
  {
    if o.ColumnRef? then ColumnInt(row, s, o.id) else o.integer
  }

  function TextValue(o: Operand, row: Row, s: Schema): Text
    requires Laid(s) && |row| == s.rowSize && OperandBound(o, s) && TypeOf(o).TextColumn?
  {
    if o.ColumnRef? then Stored(ColumnField(row, s, o.id)) else o.text
  }

  // Byte by byte; when one text runs out first, the shorter comes first.
  function CompareText(a: Text, b: Text): int {
    if |a| == 0 || |b| == 0 then (if |a| > 0 then 1 else if |b| > 0 then -1 else 0)
    else if a[0] != b[0] then (if a[0] > b[0] then 1 else -1)
    else CompareText(a[1..], b[1..])
  }

  function Sign(d: int): int {
    if d > 0 then 1 else if d < 0 then -1 else 0
  }

  function CompareOperands(left: Operand, right: Operand, row: Row, s: Schema): int
    requires Laid(s) && |row| == s.rowSize && OperandBound(left, s) && OperandBound(right, s)
    requires TypeOf(left) == TypeOf(right)
  {
    if TypeOf(left).IntColumn? then Sign(IntValue(left, row, s) - IntValue(right, row, s))
    else CompareText(TextValue(left, row, s), TextValue(right, row, s))
  }

  predicate OpHolds(op: CompareOp, order: int) {
    match op
    case Equal => order == 0
    case NotEqual => order != 0
    case Less => order < 0
    case LessEqual => order <= 0
    case Greater => order > 0
    case GreaterEqual => order >= 0
  }

  // Whether the row satisfies the expression.
  predicate Holds(e: Expr, row: Row, s: Schema)
    requires Laid(s) && |row| == s.rowSize && Bound(e, s)
  {
    match e
    case Comparison(op, left, right) => OpHolds(op, CompareOperands(left, right, row, s))
    case And(children) => forall c :: c in children ==> Holds(c, row, s)
    case Or(children) => exists c :: c in children && Holds(c, row, s)
    case Not(child) => !Holds(child, row, s)
  }

  /** Looks no further than the child that settles an AND or an OR. */
  method ExpressionEvaluate(e: Expr, row: Row, s: Schema) returns (holds: bool)
    requires Laid(s) && |row| == s.rowSize && Bound(e, s)
    ensures holds == Holds(e, row, s)
    decreases e
  {
    match e
    case Comparison(op, left, right) =>
      holds := OpHolds(op, CompareOperands(left, right, row, s));
    case And(children) =>
      for i := 0 to |children|
        invariant forall j :: 0 <= j < i ==> Holds(children[j], row, s)
      {
        var h := ExpressionEvaluate(children[i], row, s);
        if !h { return false; }
      }
      holds := true;
    case Or(children) =>
      for i := 0 to |children|
        invariant forall j :: 0 <= j < i ==> !Holds(children[j], row, s)
      {
        var h := ExpressionEvaluate(children[i], row, s);
        if h { return true; }
      }
      holds := false;
    case Not(child) =>
      var h := ExpressionEvaluate(child, row, s);
      holds := !h;
  }

  // Text comparison is a total order whose equality is equality of bytes.
  lemma {:induction false} CompareTextEqual(a: Text, b: Text)
    ensures CompareText(a, b) == 0 <==> a == b
    ensures CompareText(a, b) == -CompareText(b, a)
  {
    if |a| > 0 && |b| > 0 && a[0] == b[0] {
      CompareTextEqual(a[1..], b[1..]);
      assert a == [a[0]] + a[1..] && b == [b[0]] + b[1..];
    }
  }

  lemma {:induction false} CompareTextTransitive(a: Text, b: Text, c: Text)
    requires CompareText(a, b) <= 0 && CompareText(b, c) <= 0
    ensures CompareText(a, c) <= 0
  {
    if |a| > 0 && |b| > 0 && |c| > 0 && a[0] == b[0] == c[0] {
      CompareTextTransitive(a[1..], b[1..], c[1..]);
    }
  }

  // The first byte that differs decides; a text that runs out first comes first.
  lemma {:induction false} CompareTextDecides(common: Text, x: Byte, a: Text, y: Byte, b: Text)
    requires x < y
    ensures CompareText(common + [x] + a, common + [y] + b) < 0
    ensures CompareText(common, common + [x] + a) < 0
  {
    if |common| > 0 {
      CompareTextDecides(common[1..], x, a, y, b);
      assert (common + [x] + a)[1..] == common[1..] + [x] + a;
      assert (common + [y] + b)[1..] == common[1..] + [y] + b;
    }
  }

  // The order of texts: the first byte that differs decides, and a text that runs out first comes first.
  ghost predicate Before(a: Text, b: Text) {
    exists k :: 0 <= k <= |a| && k < |b| && BeforeAt(a, b, k)
  }

  predicate BeforeAt(a: Text, b: Text, k: nat)
    requires k <= |a| && k < |b|
  {
    a[..k] == b[..k] && (k == |a| || a[k] < b[k])
  }

  lemma SameFirst(a: Text, b: Text, k: nat)
    requires 0 < |a| && k <= |a| && k < |b| && a[..k] == b[..k]
    ensures k > 0 ==> a[0] == b[0]
  {
    if k > 0 { assert a[..k][0] == b[..k][0]; }
  }

  /** Comparing byte by byte finds that order. */
  lemma {:induction false} CompareTextBefore(a: Text, b: Text)
    ensures CompareText(a, b) < 0 <==> Before(a, b)
  {
    if |a| == 0 || |b| == 0 || a[0] != b[0] {
      if |b| > 0 && (|a| == 0 || a[0] < b[0]) { assert BeforeAt(a, b, 0); }
      if Before(a, b) && |a| > 0 {
        var k :| 0 <= k <= |a| && k < |b| && BeforeAt(a, b, k);
        SameFirst(a, b, k);
      }
    } else {
      CompareTextBefore(a[1..], b[1..]);
      if Before(a[1..], b[1..]) {
        var k :| 0 <= k <= |a[1..]| && k < |b[1..]| && BeforeAt(a[1..], b[1..], k);
        assert a[..k + 1] == [a[0]] + a[1..][..k] && b[..k + 1] == [b[0]] + b[1..][..k];
        assert BeforeAt(a, b, k + 1);
      }
      if Before(a, b) {
        var k :| 0 <= k <= |a| && k < |b| && BeforeAt(a, b, k);
        assert a[1..][..k - 1] == a[..k][1..] && b[1..][..k - 1] == b[..k][1..];
        assert BeforeAt(a[1..], b[1..], k - 1);
      }
    }
  }
}
