/** Choosing the range of keys a statement has to read. */
module Planner {
  import opened Pages
  import opened Records
  import opened Expressions

  const KEY_MAX: int := INT32_MAX

  datatype Plan = Scan | Point(low: int, high: int) | Range(low: int, high: int) | Empty

  predicate InRange(k: int, low: int, high: int) {
    low <= k <= high
  }

  function ClampConstant(value: int): int {
    if value < -2 then -2 else if value > KEY_MAX + 2 then KEY_MAX + 2 else value
  }

  // The operator seen from the other side.
  function Flip(op: CompareOp): CompareOp {
    match op
    case Less => Greater
    case LessEqual => GreaterEqual
    case Greater => Less
    case GreaterEqual => LessEqual
    case other => other
  }

  // What a WHERE demands of the key by itself: every comparison of the key with
  // a constant, either way round, that the whole expression implies, != aside.
  predicate Demands(e: Expr, keyId: nat, key: int) {
    match e
    case Comparison(op, left, right) =>
      if left.ColumnRef? && left.id == keyId && right.IntConst? then op.NotEqual? || OpHolds(op, key - right.integer)
      else if right.ColumnRef? && right.id == keyId && left.IntConst? then
        op.NotEqual? || OpHolds(op, left.integer - key)
      else true
    case And(children) => forall c :: c in children ==> Demands(c, keyId, key)
    case Or(_) => true
    case Not(_) => true
  }

  method NarrowByComparison(e: Expr, keyId: nat, low: int, high: int) returns (low': int, high': int)
    requires e.Comparison?
    ensures forall k :: 0 <= k <= KEY_MAX ==>
      (InRange(k, low', high') <==> InRange(k, low, high) && Demands(e, keyId, k))
    ensures low <= low' && high' <= high
  {
    low', high' := low, high;
    var op, value;
    if e.left.ColumnRef? && e.left.id == keyId && e.right.IntConst? {
      op, value := e.op, ClampConstant(e.right.integer);
    } else if e.right.ColumnRef? && e.right.id == keyId && e.left.IntConst? {
      op, value := Flip(e.op), ClampConstant(e.left.integer);
    } else {
      return;
    }
    match op {
      case Equal =>
        if value > low' { low' := value; }
        if value < high' { high' := value; }
      case Greater =>
        if value + 1 > low' { low' := value + 1; }
      case GreaterEqual =>
        if value > low' { low' := value; }
      case Less =>
        if value - 1 < high' { high' := value - 1; }
      case LessEqual =>
        if value < high' { high' := value; }
      case NotEqual =>
    }
  }

  predicate FirstDemand(children: seq<Expr>, n: nat, keyId: nat, key: int)
    requires n <= |children|
  {
    forall j :: 0 <= j < n ==> Demands(children[j], keyId, key)
  }

  method Narrow(e: Expr, keyId: nat, low: int, high: int) returns (low': int, high': int)
    ensures forall k :: 0 <= k <= KEY_MAX ==>
      (InRange(k, low', high') <==> InRange(k, low, high) && Demands(e, keyId, k))
    ensures low <= low' && high' <= high
    decreases e
  {
    low', high' := low, high;
    if e.Comparison? {
      low', high' := NarrowByComparison(e, keyId, low, high);
    } else if e.And? {
      for i := 0 to |e.children|
        invariant low <= low' && high' <= high
        invariant forall k :: 0 <= k <= KEY_MAX ==>
          (InRange(k, low', high') <==> InRange(k, low, high) && FirstDemand(e.children, i, keyId, k))
      {
        ghost var l, h := low', high';
        low', high' := Narrow(e.children[i], keyId, low', high');
        forall k | 0 <= k <= KEY_MAX
          ensures InRange(k, low', high') <==> InRange(k, low, high) && FirstDemand(e.children, i + 1, keyId, k)
        {
          assert InRange(k, l, h) <==> InRange(k, low, high) && FirstDemand(e.children, i, keyId, k);
          assert InRange(k, low', high') <==> InRange(k, l, h) && Demands(e.children[i], keyId, k);
        }
      }
      forall k | 0 <= k <= KEY_MAX ensures FirstDemand(e.children, |e.children|, keyId, k) <==> Demands(e, keyId, k) {
        assert forall j :: 0 <= j < |e.children| ==> e.children[j] in e.children;
      }
    }
  }

  // The keys a plan reads.
  predicate Reads(plan: Plan, key: int) {
    match plan
    case Scan => true
    case Point(low, high) => InRange(key, low, high)
    case Range(low, high) => InRange(key, low, high)
    case Empty => false
  }

  predicate WhereDemands(where: Option<Expr>, keyId: nat, key: int) {
    where.Some? ==> Demands(where.value, keyId, key)
  }

  // A plan that reads exactly the keys that meet every demand the WHERE makes of the key.
  ghost predicate PlanOf(plan: Plan, where: Option<Expr>, keyId: nat) {
    forall k :: 0 <= k <= KEY_MAX ==> (Reads(plan, k) <==> WhereDemands(where, keyId, k))
  }

  // One key is a point, all keys a scan, and what is in between a range.
  predicate Classified(plan: Plan) {
    match plan
    case Point(low, high) => 0 <= low == high <= KEY_MAX
    case Range(low, high) => 0 <= low < high <= KEY_MAX && (low > 0 || high < KEY_MAX)
    case _ => true
  }

  // The plan reads exactly the keys that meet every demand the WHERE makes of the key.
  method PlanSelect(where: Option<Expr>, keyId: nat) returns (plan: Plan)
    ensures PlanOf(plan, where, keyId) && Classified(plan)
  {
    var low, high := 0, KEY_MAX;
    if where.Some? {
      low, high := Narrow(where.value, keyId, low, high);
    }
    if low > high {
      plan := Empty;
    } else if low == high {
      plan := Point(low, high);
    } else if low > 0 || high < KEY_MAX {
      plan := Range(low, high);
    } else {
      plan := Scan;
    }
  }

  // A row that satisfies the WHERE has a key the WHERE's demands allow.
  lemma {:induction false} HoldsDemands(e: Expr, keyId: nat, row: Row, s: Schema)
    requires Laid(s) && |row| == s.rowSize && Bound(e, s)
    requires 1 <= keyId <= |s.columns| && s.columns[keyId - 1].kind.IntColumn?
    requires Holds(e, row, s)
    ensures Demands(e, keyId, ColumnInt(row, s, keyId))
    decreases e
  {
    match e
    case Comparison(op, left, right) =>
    case And(children) =>
      forall c | c in children ensures Demands(c, keyId, ColumnInt(row, s, keyId)) {
        HoldsDemands(c, keyId, row, s);
      }
    case Or(_) =>
    case Not(_) =>
  }

  // ------------------------------------------------------------ what a plan reads, told by the WHERE

  // c is one of the conditions e joins by AND, at whatever depth, and is no AND itself.
  ghost predicate Conjunct(c: Expr, e: Expr)
    decreases e
  {
    if e.And? then exists d :: d in e.children && Conjunct(c, d) else c == e
  }

  // A comparison of the key with an integer constant, either way round, by any operator but !=.
  predicate TestsKey(c: Expr, keyId: nat) {
    && c.Comparison? && c.op != NotEqual
    && ((c.left.ColumnRef? && c.left.id == keyId && c.right.IntConst?)
        || (c.left.IntConst? && c.right.ColumnRef? && c.right.id == keyId))
  }

  // A row of a table whose key is the INT column `keyId`.
  ghost predicate KeyedRow(row: Row, s: Schema, keyId: nat) {
    && Laid(s) && |row| == s.rowSize && 1 <= keyId <= |s.columns| && s.columns[keyId - 1].kind.IntColumn?
    && 0 <= ColumnInt(row, s, keyId)
  }

  // Every condition of the WHERE that tests the key holds of the row.
  ghost predicate KeyTestsHold(e: Expr, keyId: nat, row: Row, s: Schema)
    requires Laid(s) && |row| == s.rowSize
  {
    forall c :: Conjunct(c, e) && TestsKey(c, keyId) ==> Bound(c, s) && Holds(c, row, s)
  }

  lemma {:induction false} ConjunctBound(c: Expr, e: Expr, s: Schema)
    requires Conjunct(c, e) && Bound(e, s)
    ensures Bound(c, s)
    decreases e
  {
    if e.And? {
      var d :| d in e.children && Conjunct(c, d);
      ConjunctBound(c, d, s);
    }
  }

  lemma {:induction false} DemandsAreKeyTests(e: Expr, keyId: nat, row: Row, s: Schema)
    requires KeyedRow(row, s, keyId) && Bound(e, s)
    ensures Demands(e, keyId, ColumnInt(row, s, keyId)) <==> KeyTestsHold(e, keyId, row, s)
    decreases e
  {
    if e.And? {
      forall d | d in e.children
        ensures Demands(d, keyId, ColumnInt(row, s, keyId)) <==> KeyTestsHold(d, keyId, row, s)
      {
        DemandsAreKeyTests(d, keyId, row, s);
      }
      if KeyTestsHold(e, keyId, row, s) {
        forall d, c | d in e.children && Conjunct(c, d) && TestsKey(c, keyId) ensures Bound(c, s) && Holds(c, row, s) {
          assert Conjunct(c, e);
        }
      }
    } else {
      assert Conjunct(e, e);
    }
  }

  /** A plan reads a row exactly if every condition the WHERE joins by AND that compares the key with a constant,
      != aside, holds of the row; whatever else the WHERE says narrows nothing. */
  lemma PlanReadsExactly(plan: Plan, e: Expr, keyId: nat, row: Row, s: Schema)
    requires PlanOf(plan, Some(e), keyId) && KeyedRow(row, s, keyId) && Bound(e, s)
    ensures Reads(plan, ColumnInt(row, s, keyId)) <==> KeyTestsHold(e, keyId, row, s)
  {
    DemandsAreKeyTests(e, keyId, row, s);
  }

  ghost predicate ConjunctsHold(e: Expr, row: Row, s: Schema)
    requires Laid(s) && |row| == s.rowSize
  {
    forall c :: Conjunct(c, e) ==> Bound(c, s) && Holds(c, row, s)
  }

  lemma {:induction false} HoldsByConjuncts(e: Expr, row: Row, s: Schema)
    requires Laid(s) && |row| == s.rowSize && Bound(e, s)
    ensures Holds(e, row, s) <==> ConjunctsHold(e, row, s)
    decreases e
  {
    if e.And? {
      forall d | d in e.children ensures Holds(d, row, s) <==> ConjunctsHold(d, row, s) {
        HoldsByConjuncts(d, row, s);
      }
      if ConjunctsHold(e, row, s) {
        forall d, c | d in e.children && Conjunct(c, d) ensures Bound(c, s) && Holds(c, row, s) {
          assert Conjunct(c, e);
        }
        assert forall d :: d in e.children ==> ConjunctsHold(d, row, s);
      }
    } else {
      assert Conjunct(e, e);
    }
  }

  /** The plan of a WHERE that only tests the key, by one comparison or several joined by AND,
      reads exactly the rows the WHERE accepts. */
  lemma KeyWhereDecidesPlan(plan: Plan, e: Expr, keyId: nat, row: Row, s: Schema)
    requires PlanOf(plan, Some(e), keyId) && KeyedRow(row, s, keyId) && Bound(e, s)
    requires forall c :: Conjunct(c, e) ==> TestsKey(c, keyId)
    ensures Reads(plan, ColumnInt(row, s, keyId)) <==> Holds(e, row, s)
  {
    PlanReadsExactly(plan, e, keyId, row, s);
    HoldsByConjuncts(e, row, s);
    assert KeyTestsHold(e, keyId, row, s) <==> ConjunctsHold(e, row, s);
  }

  /** An AND is planned to read what the plans of all its parts read. */
  lemma AndPlan(plan: Plan, parts: seq<Expr>, plans: seq<Plan>, keyId: nat, key: int)
    requires PlanOf(plan, Some(And(parts)), keyId) && |plans| == |parts| && 0 <= key <= 0x7FFF_FFFF
    requires forall i :: 0 <= i < |parts| ==> PlanOf(plans[i], Some(parts[i]), keyId)
    ensures Reads(plan, key) <==> forall i :: 0 <= i < |plans| ==> Reads(plans[i], key)
  {
    assert Reads(plan, key) <==> forall c :: c in parts ==> Demands(c, keyId, key);
    forall i | 0 <= i < |plans| ensures Reads(plans[i], key) <==> Demands(parts[i], keyId, key) {
      assert PlanOf(plans[i], Some(parts[i]), keyId);
    }
  }
}
