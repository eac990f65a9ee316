/** What a plan reads, told by the WHERE as it was written. */
module WherePlans {
  import opened Pages
  import opened Records
  import opened Expressions
  import opened Parsing
  import opened Statements
  import opened Planner

  // c is one of the conditions e joins by AND, at whatever depth, and is no AND itself.
  ghost predicate Joined(c: ExprAst, e: ExprAst)
    decreases e
  {
    if e.AndAst? then exists d :: d in e.children && Joined(c, d) else c == e
  }

  predicate IsKey(o: OperandAst, s: Schema, keyId: nat) {
    o.ColumnName? && keyId > 0 && FirstNamed(s, o.name, 0) == Some(keyId - 1)
  }

  predicate IsInteger(o: OperandAst) {
    o.LiteralValue? && o.literal.IntegerLiteral?
  }

  // The key compared with an integer, either way round, by any operator but !=.
  predicate ComparesKey(c: ExprAst, s: Schema, keyId: nat) {
    && c.CompareAst? && c.op != NotEqual
    && ((IsKey(c.left, s, keyId) && IsInteger(c.right)) || (IsInteger(c.left) && IsKey(c.right, s, keyId)))
  }

  // Every condition of a WHERE that compares the key with an integer is true of the row.
  ghost predicate KeyConditionsTrue(e: ExprAst, keyId: nat, row: Row, s: Schema)
    requires Laid(s) && |row| == s.rowSize
  {
    forall c :: Joined(c, e) && ComparesKey(c, s, keyId) ==> WellTyped(c, s) && True(c, row, s)
  }

  lemma ComparisonDemands(e: ExprAst, keyId: nat, row: Row, s: Schema)
    requires e.CompareAst? && KeyedRow(row, s, keyId) && WellTyped(e, s)
    ensures BoundExpr(e, s).Some?
    ensures Demands(BoundExpr(e, s).value, keyId, ColumnInt(row, s, keyId)) <==>
      (ComparesKey(e, s, keyId) ==> True(e, row, s))
  {
    BindingMeans(e, row, s);
    var b := BoundExpr(e, s).value;
    OperandBinds(e.left, s);
    OperandBinds(e.right, s);
    assert TestsKey(b, keyId) <==> ComparesKey(e, s, keyId);
  }

  lemma {:induction false} ChildBinds(es: seq<ExprAst>, s: Schema, i: nat)
    requires i < |es| && BoundAll(es, s).Some?
    ensures |BoundAll(es, s).value| == |es| && BoundExpr(es[i], s) == Some(BoundAll(es, s).value[i])
    decreases es
  {
    assert BoundAll(es, s) == Prefixed([BoundExpr(es[0], s).value], BoundAll(es[1..], s));
    if |es| > 1 { ChildBinds(es[1..], s, if i > 0 then i - 1 else 0); }
  }

  lemma {:induction false} DemandsAsWritten(e: ExprAst, keyId: nat, row: Row, s: Schema)
    requires KeyedRow(row, s, keyId) && WellTyped(e, s)
    ensures BoundExpr(e, s).Some?
    ensures Demands(BoundExpr(e, s).value, keyId, ColumnInt(row, s, keyId)) <==> KeyConditionsTrue(e, keyId, row, s)
    decreases e
  {
    BindsExactly(e, s);
    if e.AndAst? {
      AndDemands(e, keyId, row, s);
    } else {
      assert Joined(e, e);
      if e.CompareAst? { ComparisonDemands(e, keyId, row, s); }
    }
  }

  lemma {:induction false} AndDemands(e: ExprAst, keyId: nat, row: Row, s: Schema)
    requires e.AndAst? && KeyedRow(row, s, keyId) && WellTyped(e, s) && BoundExpr(e, s).Some?
    ensures Demands(BoundExpr(e, s).value, keyId, ColumnInt(row, s, keyId)) <==> KeyConditionsTrue(e, keyId, row, s)
    decreases e, 0
  {
    var es, key := e.children, ColumnInt(row, s, keyId);
    var bs := BoundAll(es, s).value;
    forall i | 0 <= i < |es|
      ensures |bs| == |es| && (Demands(bs[i], keyId, key) <==> KeyConditionsTrue(es[i], keyId, row, s))
    {
      ChildBinds(es, s, i);
      DemandsAsWritten(es[i], keyId, row, s);
    }
    if |es| > 0 { ChildBinds(es, s, 0); }
    JoinedParts(e, keyId, row, s);
    assert forall b :: b in bs ==> exists i :: 0 <= i < |bs| && bs[i] == b;
  }

  lemma JoinedParts(e: ExprAst, keyId: nat, row: Row, s: Schema)
    requires e.AndAst? && Laid(s) && |row| == s.rowSize
    ensures KeyConditionsTrue(e, keyId, row, s) <==>
      forall i :: 0 <= i < |e.children| ==> KeyConditionsTrue(e.children[i], keyId, row, s)
  {
    if KeyConditionsTrue(e, keyId, row, s) {
      forall i, c | 0 <= i < |e.children| && Joined(c, e.children[i]) && ComparesKey(c, s, keyId)
        ensures WellTyped(c, s) && True(c, row, s)
      {
        assert Joined(c, e);
      }
    }
  }

  /** A plan made for a WHERE reads a row exactly if each condition the WHERE joins by AND that compares the key with
      an integer, != aside, is true of the row. */
  lemma PlanReadsAsWritten(plan: Plan, e: ExprAst, keyId: nat, row: Row, s: Schema)
    requires KeyedRow(row, s, keyId) && WellTyped(e, s) && PlanOf(plan, BoundExpr(e, s), keyId)
    ensures Reads(plan, ColumnInt(row, s, keyId)) <==> KeyConditionsTrue(e, keyId, row, s)
  {
    DemandsAsWritten(e, keyId, row, s);
  }
}
