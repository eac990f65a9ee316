/** Running SELECT and DELETE: reading the rows a plan covers, and deleting those chosen. */
module Executor {
  import opened Pages
  import opened Fill
  import opened Expressions
  import opened Planner
  import opened Cursors
  import opened Tables
  import opened InOrder

  // Whether a row passes the WHERE; a missing WHERE passes every row.
  ghost predicate Passes(table: Table, where: Option<Expr>, c: Cell)
    requires table.Keyed() && (where.Some? ==> Bound(where.value, table.schema))
  {
    |c.row| == table.schema.rowSize && (where.Some? ==> Holds(where.value, c.row, table.schema))
  }

  // The rows of a table that a plain scan with the WHERE would keep.
  ghost function Matching(table: Table, where: Option<Expr>): set<Cell>
    requires table.Keyed() && (where.Some? ==> Bound(where.value, table.schema))
    reads table.pager
  {
    set c | c in table.Contents() && Passes(table, where, c)
  }

  ghost predicate Runnable(table: Table, where: Option<Expr>)
    reads table.pager
  {
    table.Ok() && (where.Some? ==> Bound(where.value, table.schema))
  }

  function FirstKey(plan: Plan): int {
    if plan.Point? || plan.Range? then plan.low else 0
  }

  function LastKey(plan: Plan): int {
    if plan.Point? || plan.Range? then plan.high else KEY_MAX
  }

  method PassesWhere(table: Table, where: Option<Expr>, cell: Cell) returns (keep: bool)
    requires Runnable(table, where) && cell in table.Contents()
    ensures keep == Passes(table, where, cell)
  {
    keep := true;
    if where.Some? { keep := ExpressionEvaluate(where.value, cell.row, table.schema); }
  }

  // The rows with keys from `low` up to, but not including, `next`.
  ghost function Span(rows: set<Cell>, low: int, next: int): set<Cell> {
    set c | c in rows && low <= c.key < next
  }

  // `visited` is what the WHERE keeps of the rows read so far, none of which is past `high`.
  ghost predicate Visited(table: Table, where: Option<Expr>, rows: set<Cell>, low: int, next: int, high: int,
                          visited: seq<Cell>)
    requires table.Keyed() && (where.Some? ==> Bound(where.value, table.schema))
  {
    && Ascending(visited)
    && (forall c :: c in visited <==> c in Span(rows, low, next) && Passes(table, where, c))
    && (forall c :: c in Span(rows, low, next) ==> c.key <= high)
  }

  // Reading the next row adds exactly that row to those read.
  lemma NextRow(rows: set<Cell>, low: int, next: int, cell: Cell)
    requires cell in rows && low <= next <= cell.key
    requires forall c :: c in rows && next <= c.key ==> cell.key <= c.key
    requires forall c :: c in rows && c.key == cell.key ==> c == cell
    ensures Span(rows, low, cell.key + 1) == Span(rows, low, next) + {cell}
    ensures cell !in Span(rows, low, next)
  {
  }

  lemma VisitNext(table: Table, where: Option<Expr>, rows: set<Cell>, low: int, next: int, high: int,
                  visited: seq<Cell>, cell: Cell)
    requires table.Keyed() && (where.Some? ==> Bound(where.value, table.schema))
    requires Visited(table, where, rows, low, next, high, visited)
    requires cell in rows && low <= next <= cell.key <= high
    requires Span(rows, low, cell.key + 1) == Span(rows, low, next) + {cell}
    ensures Visited(table, where, rows, low, cell.key + 1, high,
                    if Passes(table, where, cell) then visited + [cell] else visited)
  {
    var v := if Passes(table, where, cell) then visited + [cell] else visited;
    assert forall c :: c in visited ==> c.key < cell.key;
    assert forall k :: 0 <= k < |visited| ==> visited[k] in visited;
    assert Ascending(v);
  }

  ghost function Between(rows: set<Cell>, low: int, high: int): set<Cell> {
    set c | c in rows && InRange(c.key, low, high)
  }

  // `kept` is those of the rows read that pass the WHERE, once each, in order.
  ghost predicate Kept(table: Table, where: Option<Expr>, read: set<Cell>, kept: seq<Cell>)
    requires table.Keyed() && (where.Some? ==> Bound(where.value, table.schema))
  {
    Ascending(kept) && forall c :: c in kept <==> c in read && Passes(table, where, c)
  }

  // A walk that has read the last row up to `high` has read exactly the rows in its range.
  lemma WalkedBetween(table: Table, where: Option<Expr>, low: int, next: int, high: int, visited: seq<Cell>,
                      examined: nat)
    requires Walked(table, where, low, next, high, visited, examined) && PastHigh(table.Contents(), next, high)
    ensures Kept(table, where, Between(table.Contents(), low, high), visited)
    ensures examined == |Between(table.Contents(), low, high)|
  {
    forall c ensures c in Span(table.Contents(), low, next) <==> c in Between(table.Contents(), low, high) { }
    assert Span(table.Contents(), low, next) == Between(table.Contents(), low, high);
  }

  lemma KeptAll(table: Table, where: Option<Expr>, plan: Plan, visited: seq<Cell>)
    requires Runnable(table, where) && !plan.Empty?
    requires PlanOf(plan, where, table.keyId)
    requires Kept(table, where, Between(table.Contents(), FirstKey(plan), LastKey(plan)), visited)
    ensures forall c :: c in visited <==> c in Matching(table, where)
    ensures Between(table.Contents(), FirstKey(plan), LastKey(plan)) ==
      set c | c in table.Contents() && Reads(plan, c.key)
  {
    var rows := table.Contents();
    forall c | c in rows && Passes(table, where, c) ensures Reads(plan, c.key) { PassesReads(table, where, c); }
    forall c | c in rows ensures c in Between(rows, FirstKey(plan), LastKey(plan)) <==> Reads(plan, c.key) { }
  }

  /**
   Reads the rows the plan covers and keeps those the WHERE accepts: exactly the
   rows a scan of the whole table would keep, once each and in key order. As many
   rows are read as the table has keys in the plan's range.
   */
  method VisitMatchingRows(table: Table, where: Option<Expr>, plan: Plan) returns (visited: seq<Cell>, examined: nat)
    requires Runnable(table, where)
    requires PlanOf(plan, where, table.keyId) && Classified(plan)
    ensures Ascending(visited)
    ensures forall c :: c in visited <==> c in Matching(table, where)
    ensures examined == |set c | c in table.Contents() && Reads(plan, c.key)|
  {
    visited, examined := [], 0;
    ghost var rows := table.Contents();
    if plan.Empty? {
      forall c | c in rows
        ensures !Passes(table, where, c)
      {
        if Passes(table, where, c) { PassesReads(table, where, c); }
      }
      assert (set c | c in rows && Reads(plan, c.key)) == {};
      return;
    }
    visited, examined := WalkRows(table, where, !plan.Scan?, FirstKey(plan), LastKey(plan));
    KeptAll(table, where, plan, visited);
  }

  // Every row from `next` on has a key past `high`.
  ghost predicate PastHigh(rows: set<Cell>, next: int, high: int) {
    forall c :: c in rows && next <= c.key ==> high < c.key
  }

  // How far a walk has come: the rows below `next` have been read and those that pass kept.
  ghost predicate Walked(table: Table, where: Option<Expr>, low: int, next: int, high: int, visited: seq<Cell>,
                         examined: nat)
    reads table.pager
  {
    && Runnable(table, where)
    && low <= next <= KEY_MAX + 1
    && Visited(table, where, table.Contents(), low, next, high, visited)
    && examined == |Span(table.Contents(), low, next)|
  }

  // Walks the rows from key `low` on, stopping past `high` if the walk is bounded.
  method WalkRows(table: Table, where: Option<Expr>, bounded: bool, low: int, high: int)
    returns (visited: seq<Cell>, examined: nat)
    requires Runnable(table, where)
    requires 0 <= low <= high <= KEY_MAX && (bounded || high == KEY_MAX)
    ensures Kept(table, where, Between(table.Contents(), low, high), visited)
    ensures examined == |Between(table.Contents(), low, high)|
  {
    visited, examined := [], 0;
    ghost var next := low;
    var cursor := new Cursor.Find(table.pager, table.root, low);
    StartWalk(table, where, low, high);
    var stop := cursor.endOfTable;
    while !stop
      invariant cursor.pager == table.pager && cursor.root == table.root && cursor.At(next)
      invariant Walked(table, where, low, next, high, visited, examined)
      invariant stop ==> PastHigh(table.Contents(), next, high)
      invariant !stop ==> !cursor.endOfTable
      decreases !stop, KEY_MAX + 1 - next
    {
      visited, examined, next, stop := VisitOne(table, where, cursor, bounded, low, high, visited, examined, next);
    }
    WalkedBetween(table, where, low, next, high, visited, examined);
  }

  lemma StartWalk(table: Table, where: Option<Expr>, low: int, high: int)
    requires Runnable(table, where) && 0 <= low <= high <= KEY_MAX
    ensures Walked(table, where, low, low, high, [], 0)
  {
    assert Span(table.Contents(), low, low) == {};
  }

  // Stops at a row whose key is past `high`, or visits it.
  method VisitOne(table: Table, where: Option<Expr>, cursor: Cursor, bounded: bool, ghost low: int, high: int,
                  visited: seq<Cell>, examined: nat, ghost next: int)
    returns (visited': seq<Cell>, examined': nat, ghost next': int, stop: bool)
    requires cursor.pager == table.pager && cursor.root == table.root && cursor.At(next) && !cursor.endOfTable
    requires Walked(table, where, low, next, high, visited, examined) && (bounded || high == KEY_MAX)
    modifies cursor
    ensures cursor.At(next') && Walked(table, where, low, next', high, visited', examined')
    ensures stop ==> PastHigh(table.Contents(), next', high)
    ensures !stop ==> next < next' && !cursor.endOfTable
  {
    CursorRow(table, cursor, next);
    var cell := table.pager.pages[cursor.page].cells[cursor.cell];
    if bounded && cell.key > high { return visited, examined, next, true; }
    visited', examined', stop := VisitRow(table, where, cursor, cell, low, high, visited, examined, next);
    next' := cell.key + 1;
  }

  // Reads the row under the cursor and moves on.
  method VisitRow(table: Table, where: Option<Expr>, cursor: Cursor, cell: Cell, ghost low: int, ghost high: int,
                  visited: seq<Cell>, examined: nat, ghost next: int)
    returns (visited': seq<Cell>, examined': nat, stop: bool)
    requires cursor.pager == table.pager && cursor.root == table.root && cursor.At(next) && !cursor.endOfTable
    requires cell == table.pager.pages[cursor.page].cells[cursor.cell] && cell.key <= high
    requires Walked(table, where, low, next, high, visited, examined)
    modifies cursor
    ensures cursor.At(cell.key + 1) && stop == cursor.endOfTable && next <= cell.key
    ensures Walked(table, where, low, cell.key + 1, high, visited', examined')
    ensures stop ==> PastHigh(table.Contents(), cell.key + 1, high)
  {
    CursorRow(table, cursor, next);
    visited', examined' := KeepRow(table, where, cell, low, next, high, visited, examined);
    stop := MoveOn(table, cursor, cell, next, high);
  }

  // Moves the cursor past the row it is on; at the end, there is no row left to be past.
  method MoveOn(table: Table, cursor: Cursor, ghost cell: Cell, ghost next: int, ghost high: int) returns (stop: bool)
    requires cursor.pager == table.pager && cursor.root == table.root && cursor.At(next) && !cursor.endOfTable
    requires cell == table.pager.pages[cursor.page].cells[cursor.cell]
    modifies cursor
    ensures cursor.At(cell.key + 1) && stop == cursor.endOfTable
    ensures stop ==> PastHigh(table.Contents(), cell.key + 1, high)
  {
    cursor.Advance(next);
    stop := cursor.endOfTable;
    if stop { PastEnd(table, cursor, cell.key + 1, high); }
  }

  lemma PastEnd(table: Table, cursor: Cursor, next: int, high: int)
    requires cursor.pager == table.pager && cursor.root == table.root && cursor.At(next) && cursor.endOfTable
    ensures PastHigh(table.Contents(), next, high)
  {
  }

  // Counts a row as read, and keeps it if it passes the WHERE.
  method KeepRow(table: Table, where: Option<Expr>, cell: Cell, ghost low: int, ghost next: int, ghost high: int,
                 visited: seq<Cell>, examined: nat)
    returns (visited': seq<Cell>, examined': nat)
    requires Walked(table, where, low, next, high, visited, examined)
    requires cell in table.Contents() && next <= cell.key <= high
    requires forall c :: c in table.Contents() && next <= c.key ==> cell.key <= c.key
    ensures Walked(table, where, low, cell.key + 1, high, visited', examined')
  {
    ReadRow(table, where, low, next, high, visited, examined, cell);
    var keep := PassesWhere(table, where, cell);
    examined' := examined + 1;
    visited' := if keep then visited + [cell] else visited;
  }

  lemma ReadRow(table: Table, where: Option<Expr>, low: int, next: int, high: int, visited: seq<Cell>, examined: nat,
                cell: Cell)
    requires Walked(table, where, low, next, high, visited, examined)
    requires cell in table.Contents() && next <= cell.key <= high
    requires forall c :: c in table.Contents() && next <= c.key ==> cell.key <= c.key
    ensures Walked(table, where, low, cell.key + 1, high,
                   if Passes(table, where, cell) then visited + [cell] else visited, examined + 1)
  {
    var rows := table.Contents();
    ContentsUnique(table);
    NextRow(rows, low, next, cell);
    VisitNext(table, where, rows, low, next, high, visited, cell);
    AddOne(Span(rows, low, next), cell);
  }

  lemma AddOne(read: set<Cell>, cell: Cell)
    requires cell !in read
    ensures |read + {cell}| == |read| + 1
  {
  }

  // The row under a cursor is the first one from there on.
  lemma CursorRow(table: Table, cursor: Cursor, next: int)
    requires table.Ok() && cursor.pager == table.pager && cursor.root == table.root && cursor.At(next)
    requires !cursor.endOfTable
    ensures var leaf := table.pager.pages[cursor.page];
      && leaf.Leaf? && cursor.cell < |leaf.cells| && leaf.cells[cursor.cell] in table.Contents()
      && next <= leaf.cells[cursor.cell].key <= KEY_MAX
      && forall c :: c in table.Contents() && next <= c.key ==> leaf.cells[cursor.cell].key <= c.key
  {
  }

  lemma PassesReads(table: Table, where: Option<Expr>, c: Cell)
    requires Runnable(table, where) && c in table.Contents() && Passes(table, where, c)
    ensures WhereDemands(where, table.keyId, c.key)
  {
    if where.Some? { HoldsDemands(where.value, table.keyId, c.row, table.schema); }
  }

  // The rows of which every condition of the WHERE that tests the key holds, whatever else the WHERE says.
  ghost function Tested(table: Table, where: Option<Expr>): set<Cell>
    requires table.Keyed()
    reads table.pager
  {
    set c | c in table.Contents() && |c.row| == table.schema.rowSize
         && (where.Some? ==> KeyTestsHold(where.value, table.keyId, c.row, table.schema))
  }

  lemma ReadIsTested(table: Table, where: Option<Expr>, plan: Plan)
    requires Runnable(table, where) && PlanOf(plan, where, table.keyId)
    ensures Tested(table, where) == set c | c in table.Contents() && Reads(plan, c.key)
  {
    forall c | c in table.Contents() ensures c in Tested(table, where) <==> Reads(plan, c.key) {
      if where.Some? { DemandsAreKeyTests(where.value, table.keyId, c.row, table.schema); }
    }
  }

  /** SELECT: the rows a plain filter would print, in key order, whatever the plan. */
  method ExecuteSelect(table: Table, where: Option<Expr>) returns (result: seq<Cell>, examined: nat)
    requires Runnable(table, where)
    ensures Ascending(result) && forall c :: c in result <==> c in Matching(table, where)
    ensures examined == |Tested(table, where)|
  {
    var plan := PlanSelect(where, table.keyId);
    result, examined := VisitMatchingRows(table, where, plan);
    ReadIsTested(table, where, plan);
  }

  // What is left once the first n chosen keys have been deleted.
  ghost function Remaining(rows: set<Cell>, chosen: seq<Cell>, n: nat): set<Cell>
    requires n <= |chosen|
  {
    set c | c in rows && forall j :: 0 <= j < n ==> c.key != chosen[j].key
  }

  lemma RemainingNext(rows: set<Cell>, chosen: seq<Cell>, n: nat)
    requires n < |chosen| && Ascending(chosen) && chosen[n] in rows
    ensures chosen[n] in Remaining(rows, chosen, n)
    ensures Remaining(rows, chosen, n + 1) == set c | c in Remaining(rows, chosen, n) && c.key != chosen[n].key
  {
  }

  lemma RemainingAll(rows: set<Cell>, chosen: seq<Cell>, gone: set<Cell>)
    requires forall c :: c in chosen <==> c in gone
    requires gone <= rows
    requires forall c, d :: c in rows && d in rows && c.key == d.key ==> c == d
    ensures Remaining(rows, chosen, |chosen|) == rows - gone
  {
    forall c ensures c in Remaining(rows, chosen, |chosen|) <==> c in rows - gone {
      if c in rows && c in gone {
        var j :| 0 <= j < |chosen| && chosen[j] == c;
      }
      if c in rows && c !in Remaining(rows, chosen, |chosen|) {
        var j :| 0 <= j < |chosen| && c.key == chosen[j].key;
        assert chosen[j] in chosen;
      }
    }
  }

  /**
   DELETE: chooses the keys first, then deletes them one by one. Every chosen key
   is still there when its turn comes, although the tree has been reshaped since.
   */
  method ExecuteDelete(table: Table, where: Option<Expr>) returns (examined: nat, ghost deleted: nat)
    requires Runnable(table, where)
    modifies table.pager
    ensures table.Ok()
    ensures table.Contents() == old(table.Contents()) - old(Matching(table, where))
    ensures Elsewhere(old(table.pager.pages), old(table.pager.nodes), table.pager.pages, table.pager.nodes, table.root)
    ensures table.pager.caps == old(table.pager.caps)
    ensures examined == |old(Tested(table, where))|
    ensures deleted == |old(Matching(table, where))|
  {
    var plan := PlanSelect(where, table.keyId);
    var chosen;
    chosen, examined := VisitMatchingRows(table, where, plan);
    ReadIsTested(table, where, plan);
    ghost var rows, pg, nf, gone := table.Contents(), table.pager.pages, table.pager.nodes, Matching(table, where);
    ContentsUnique(table);
    ChosenCount(chosen, gone);
    deleted := DeleteChosen(table, chosen);
    RemainingAll(rows, chosen, gone);
  }

  // Rows chosen in key order are as many as the set of them.
  lemma ChosenCount(chosen: seq<Cell>, gone: set<Cell>)
    requires Ascending(chosen) && forall c :: c in chosen <==> c in gone
    ensures |chosen| == |gone|
  {
    AscendingCount(chosen);
    assert gone == set c | c in chosen;
  }

  lemma ContentsUnique(table: Table)
    requires table.Ok()
    ensures forall c, d :: c in table.Contents() && d in table.Contents() && c.key == d.key ==> c == d
  {
    forall c, d | c in table.Contents() && d in table.Contents() && c.key == d.key ensures c == d {
      KeyUnique(table.pager.pages, table.pager.nodes, table.root, c, d);
    }
  }

  // Deletes rows by their keys, counting those found.
  method DeleteChosen(table: Table, chosen: seq<Cell>) returns (ghost deleted: nat)
    requires table.Ok() && Ascending(chosen) && forall c :: c in chosen ==> c in table.Contents()
    modifies table.pager
    ensures table.Ok() && table.pager.caps == old(table.pager.caps)
    ensures table.Contents() == Remaining(old(table.Contents()), chosen, |chosen|)
    ensures Elsewhere(old(table.pager.pages), old(table.pager.nodes), table.pager.pages, table.pager.nodes, table.root)
    ensures deleted == |chosen|
  {
    ghost var rows, pg, nf := table.Contents(), table.pager.pages, table.pager.nodes;
    ElsewhereSame(pg, nf, table.root);
    assert rows == Remaining(rows, chosen, 0);
    deleted := 0;
    for i := 0 to |chosen|
      invariant deleted == i
      invariant table.Ok() && table.pager.caps == old(table.pager.caps)
      invariant table.Contents() == Remaining(rows, chosen, i)
      invariant Elsewhere(pg, nf, table.pager.pages, table.pager.nodes, table.root)
    {
      assert chosen[i] in chosen;
      RemainingNext(rows, chosen, i);
      ghost var midPages, midNodes := table.pager.pages, table.pager.nodes;
      var found := table.Delete(chosen[i].key);
      deleted := deleted + if found then 1 else 0;
      ElsewhereTrans(pg, nf, midPages, midNodes, table.pager.pages, table.pager.nodes, table.root);
    }
  }
}
