/** Binding an INSERT: which column each value goes into, and the row they make. */
module Insertion {
  import opened Pages
  import opened Records
  import opened Expressions
  import opened Parsing
  import opened Statements
  import opened LineNames

  ghost predicate AllDifferent(targets: seq<nat>) {
    forall i, j :: 0 <= i < j < |targets| ==> targets[i] != targets[j]
  }

  ghost predicate AllBelow(targets: seq<nat>, n: nat) {
    forall i :: 0 <= i < |targets| ==> targets[i] < n
  }

  // The column each listed name is for.
  ghost predicate Targeted(s: Schema, names: seq<Text>, targets: seq<nat>) {
    |targets| <= |names| && forall i :: 0 <= i < |targets| ==> FirstNamed(s, names[i], 0) == Some(targets[i])
  }

  // What an INSERT's column list, or the lack of one, makes of its values.
  ghost predicate TargetsOf(s: Schema, insert: InsertAst, targets: seq<nat>) {
    && |targets| == |s.columns| == |insert.values| && AllDifferent(targets) && AllBelow(targets, |s.columns|)
    && match insert.columnNames
       case None => forall i :: 0 <= i < |targets| ==> targets[i] == i
       case Some(names) => |names| == |targets| && Targeted(s, names, targets)
  }

  // ------------------------------------------------------------ counting columns

  ghost function Members(targets: seq<nat>): set<nat> {
    set i | 0 <= i < |targets| :: targets[i]
  }

  ghost function Range(n: nat): set<nat> {
    if n == 0 then {} else Range(n - 1) + {n - 1}
  }

  lemma {:induction false} RangeSize(n: nat)
    ensures |Range(n)| == n && forall i: nat :: i in Range(n) <==> i < n
  {
    if n > 0 { RangeSize(n - 1); }
  }

  lemma {:induction false} MembersSize(targets: seq<nat>)
    requires AllDifferent(targets)
    ensures |Members(targets)| == |targets|
  {
    if |targets| > 0 {
      var n := |targets| - 1;
      MembersSize(targets[..n]);
      assert Members(targets) == Members(targets[..n]) + {targets[n]};
    } else {
      assert Members(targets) == {};
    }
  }

  lemma SubsetSize(a: set<nat>, b: set<nat>)
    requires a <= b
    ensures |a| <= |b| && (|a| == |b| ==> a == b)
  {
    assert b == a + (b - a);
    assert |b| == |a| + |b - a|;
  }

  /** Different columns of n are at most n, and n of them are all of them. */
  lemma Pigeonhole(targets: seq<nat>, n: nat)
    requires AllDifferent(targets) && AllBelow(targets, n)
    ensures |targets| <= n
    ensures |targets| == n ==> forall c :: 0 <= c < n ==> c in targets
  {
    MembersSize(targets);
    RangeSize(n);
    assert Members(targets) <= Range(n);
    SubsetSize(Members(targets), Range(n));
    if |targets| == n {
      forall c | 0 <= c < n ensures c in targets { assert c in Range(n); }
    }
  }

  // ------------------------------------------------------------ finding the targets

  /**
   The column each value goes into: all of them in order, or the ones listed, each
   exactly once. However long the list, no write goes past the last column.
   */
  method BindTargets(s: Schema, insert: InsertAst) returns (found: bool, targets: array<nat>)
    requires NamesOk(insert.columnNames) && NamesNulFree(s)
    ensures fresh(targets) && targets.Length == |s.columns|
    ensures found ==> TargetsOf(s, insert, targets[..])
    ensures found <==> exists t :: TargetsOf(s, insert, t)
  {
    var n := |s.columns|;
    targets := new nat[n](_ => 0);
    if insert.columnNames.None? {
      for i := 0 to n
        invariant forall j :: 0 <= j < i ==> targets[j] == j
      {
        targets[i] := i;
      }
      found := |insert.values| == n;
      if found { assert TargetsOf(s, insert, targets[..]); }
      return;
    }
    found := ListTargets(s, insert, targets);
  }

  method ListTargets(s: Schema, insert: InsertAst, targets: array<nat>) returns (found: bool)
    requires NamesOk(insert.columnNames) && NamesNulFree(s) && insert.columnNames.Some? && targets.Length == |s.columns|
    modifies targets
    ensures found ==> TargetsOf(s, insert, targets[..])
    ensures found <==> exists t :: TargetsOf(s, insert, t)
  {
    var names, n := insert.columnNames.value, |s.columns|;
    var listed := new bool[n](_ => false);
    for i := 0 to |names|
      invariant i <= n && fresh(listed)
      invariant Targeted(s, names, targets[..i]) && AllDifferent(targets[..i]) && AllBelow(targets[..i], n)
      invariant forall c :: 0 <= c < n ==> (listed[c] <==> c in targets[..i])
    {
      var index := ResolveColumn(s, names[i]);
      if index.None? {
        UnknownColumn(s, insert, i);
        return false;
      }
      if listed[index.value] {
        ListedTwice(s, insert, targets[..i], index.value);
        return false;
      }
      NextTarget(s, names, targets[..i], index.value);
      Pigeonhole(targets[..i] + [index.value], n);
      targets[i], listed[index.value] := index.value, true;
      assert targets[..i + 1] == targets[..i] + [index.value];
    }
    if |insert.values| != |names| { return false; }
    for c := 0 to n
      invariant forall d :: 0 <= d < c ==> listed[d]
    {
      if !listed[c] {
        MissingColumn(s, insert, targets[..|names|], c);
        return false;
      }
    }
    AllListed(targets[..|names|], n);
    assert targets[..|names|] == targets[..];
    assert TargetsOf(s, insert, targets[..]);
    return true;
  }

  lemma NextTarget(s: Schema, names: seq<Text>, targets: seq<nat>, t: nat)
    requires Targeted(s, names, targets) && AllDifferent(targets) && AllBelow(targets, |s.columns|)
    requires |targets| < |names| && FirstNamed(s, names[|targets|], 0) == Some(t) && t !in targets
    ensures Targeted(s, names, targets + [t]) && AllDifferent(targets + [t]) && AllBelow(targets + [t], |s.columns|)
  {
  }

  lemma UnknownColumn(s: Schema, insert: InsertAst, i: nat)
    requires insert.columnNames.Some? && i < |insert.columnNames.value|
    requires FirstNamed(s, insert.columnNames.value[i], 0).None?
    ensures forall u :: !TargetsOf(s, insert, u)
  {
    forall u ensures !TargetsOf(s, insert, u) {
      assert |u| == |insert.columnNames.value| ==> FirstNamed(s, insert.columnNames.value[i], 0) != Some(u[i]);
    }
  }

  // A column listed twice leaves no way to place the values.
  lemma ListedTwice(s: Schema, insert: InsertAst, targets: seq<nat>, t: nat)
    requires insert.columnNames.Some? && Targeted(s, insert.columnNames.value, targets) && t in targets
    requires |targets| < |insert.columnNames.value| && FirstNamed(s, insert.columnNames.value[|targets|], 0) == Some(t)
    ensures forall u :: !TargetsOf(s, insert, u)
  {
    var j :| 0 <= j < |targets| && targets[j] == t;
    forall u ensures !TargetsOf(s, insert, u) {
      assert |u| == |insert.columnNames.value| ==> FirstNamed(s, insert.columnNames.value[j], 0) == Some(t);
    }
  }

  // Nor does a column not listed.
  lemma MissingColumn(s: Schema, insert: InsertAst, targets: seq<nat>, c: nat)
    requires insert.columnNames.Some? && |targets| == |insert.columnNames.value| && c < |s.columns| && c !in targets
    requires AllDifferent(targets) && AllBelow(targets, |s.columns|)
    ensures forall u :: !TargetsOf(s, insert, u)
  {
    Pigeonhole(targets, |s.columns|);
  }

  lemma AllListed(targets: seq<nat>, n: nat)
    requires AllDifferent(targets) && AllBelow(targets, n) && forall c :: 0 <= c < n ==> c in targets
    ensures |targets| == n
  {
    MembersSize(targets);
    RangeSize(n);
    forall c | c in Range(n) ensures c in Members(targets) {
      assert c in targets;
      var i :| 0 <= i < |targets| && targets[i] == c;
    }
    assert Members(targets) == Range(n);
  }

  // ------------------------------------------------------------ checking and storing the values

  /** INT takes any integer of 32 bits, the key none below zero; TEXT takes a string no wider than it is. */
  predicate ValueFits(v: Literal, c: Column, isKey: bool) {
    match c.kind
    case IntColumn => v.IntegerLiteral? && !v.outOfRange && INT32_MIN <= v.integer <= INT32_MAX &&
      (isKey ==> 0 <= v.integer)
    case TextColumn => v.StringLiteral? && |v.text| <= c.size
  }

  method BindValue(v: Literal, c: Column, isKey: bool) returns (fits: bool)
    ensures fits == ValueFits(v, c, isKey)
  {
    if c.kind.IntColumn? {
      if !v.IntegerLiteral? { return false; }
      if v.outOfRange || v.integer < INT32_MIN || v.integer > INT32_MAX { return false; }
      if isKey && v.integer < 0 { return false; }
      return true;
    }
    if !v.StringLiteral? { return false; }
    return |v.text| <= c.size;
  }

  // Each of the first n values fits the column it goes into.
  ghost predicate ValuesFit(s: Schema, keyId: nat, values: seq<Literal>, targets: seq<nat>, n: nat)
    requires n <= |values| && n <= |targets| && AllBelow(targets, |s.columns|)
  {
    forall i :: 0 <= i < n ==> ValueFits(values[i], s.columns[targets[i]], s.columns[targets[i]].id == keyId)
  }

  method CheckValues(s: Schema, keyId: nat, values: seq<Literal>, targets: array<nat>) returns (fit: bool)
    requires |values| == targets.Length && AllBelow(targets[..], |s.columns|)
    ensures fit == ValuesFit(s, keyId, values, targets[..], |values|)
  {
    for i := 0 to |values|
      invariant ValuesFit(s, keyId, values, targets[..], i)
    {
      var column := s.columns[targets[..][i]];
      var fits := BindValue(values[i], column, column.id == keyId);
      if !fits { return false; }
    }
    return true;
  }

  function Encoded(v: Literal, c: Column): (b: seq<Byte>)
    requires ValueFits(v, c, false) && (c.kind.IntColumn? ==> c.size == INT_SIZE)
    ensures |b| == c.size
  {
    if v.IntegerLiteral? then EncodeInt(v.integer) else EncodeText(v.text, c.size)
  }

  // The columns of the first n values hold those values.
  ghost predicate Holding(s: Schema, row: Row, values: seq<Literal>, targets: seq<nat>, n: nat)
    requires Laid(s) && |row| == s.rowSize && n <= |values| && n <= |targets| && AllBelow(targets, |s.columns|)
  {
    forall i :: 0 <= i < n ==> HoldsValue(s, row, values[i], targets[i])
  }

  ghost predicate HoldsValue(s: Schema, row: Row, v: Literal, t: nat)
    requires Laid(s) && |row| == s.rowSize && t < |s.columns|
  {
    ValueFits(v, s.columns[t], false) && ColumnField(row, s, t + 1) == Encoded(v, s.columns[t])
  }

  // Writing one value puts it in its own column and disturbs none of the others.
  lemma ValueStored(s: Schema, row: Row, values: seq<Literal>, targets: seq<nat>, n: nat)
    requires Laid(s) && |row| == s.rowSize && n < |values| && n < |targets| && AllBelow(targets, |s.columns|)
    requires AllDifferent(targets)
    requires Holding(s, row, values, targets, n) && ValueFits(values[n], s.columns[targets[n]], false)
    ensures var c := s.columns[targets[n]];
      c.offset + c.size <= |row| && Holding(s, PutField(row, c.offset, Encoded(values[n], c)), values, targets, n + 1)
  {
    var c := s.columns[targets[n]];
    var b := Encoded(values[n], c);
    PutElsewhere(s, row, targets[n], targets[n], b);
    forall i | 0 <= i < n + 1 ensures HoldsValue(s, PutField(row, c.offset, b), values[i], targets[i]) {
      if i < n { assert HoldsValue(s, row, values[i], targets[i]); }
      HeldAfter(s, row, targets[n], b, values[i], targets[i]);
    }
  }

  // A column written to holds what was written; any other holds what it held.
  lemma HeldAfter(s: Schema, row: Row, t: nat, b: seq<Byte>, v: Literal, u: nat)
    requires Laid(s) && |row| == s.rowSize && t < |s.columns| && u < |s.columns| && |b| == s.columns[t].size
    requires if t == u then ValueFits(v, s.columns[u], false) && b == Encoded(v, s.columns[u])
             else HoldsValue(s, row, v, u)
    ensures s.columns[t].offset + |b| <= |row| && HoldsValue(s, PutField(row, s.columns[t].offset, b), v, u)
  {
    PutElsewhere(s, row, t, u, b);
  }

  /** Builds the row: a zeroed payload with each value written to its column. */
  method BuildRow(s: Schema, keyId: nat, values: seq<Literal>, targets: array<nat>) returns (row: Row)
    requires Laid(s) && |values| == targets.Length && AllBelow(targets[..], |s.columns|) && AllDifferent(targets[..])
    requires ValuesFit(s, keyId, values, targets[..], |values|)
    ensures |row| == s.rowSize && Holding(s, row, values, targets[..], |values|)
  {
    var payload := new Byte[s.rowSize](_ => '\0');
    ghost var ts := targets[..];
    for i := 0 to |values|
      invariant targets[..] == ts && Holding(s, payload[..], values, ts, i)
    {
      var column := s.columns[targets[i]];
      assert ValueFits(values[i], s.columns[ts[i]], s.columns[ts[i]].id == keyId);
      ValueStored(s, payload[..], values, ts, i);
      if column.kind.IntColumn? {
        RecordSetInt(payload, column, values[i].integer);
      } else {
        RecordSetText(payload, column, values[i].text);
      }
    }
    row := payload[..];
  }

  // An INSERT that binds: its columns are found and every value fits its own.
  ghost predicate Binds(s: Schema, keyId: nat, insert: InsertAst, targets: seq<nat>) {
    TargetsOf(s, insert, targets) && ValuesFit(s, keyId, insert.values, targets, |insert.values|)
  }

  // The targets of an INSERT are settled by its column list.
  lemma OneTargets(s: Schema, insert: InsertAst, t: seq<nat>, u: seq<nat>)
    requires TargetsOf(s, insert, t) && TargetsOf(s, insert, u)
    ensures t == u
  {
    forall i | 0 <= i < |t| ensures t[i] == u[i] {
      if insert.columnNames.Some? { assert FirstNamed(s, insert.columnNames.value[i], 0) == Some(t[i]); }
    }
  }

  /** Every column of a bound row reads back the value supplied for it, and the key is not negative. */
  lemma RowReadsBack(s: Schema, keyId: nat, insert: InsertAst, targets: seq<nat>, row: Row, i: nat)
    requires Laid(s) && |row| == s.rowSize && Binds(s, keyId, insert, targets) && i < |targets|
    requires Holding(s, row, insert.values, targets, |insert.values|)
    ensures var v, c := insert.values[i], s.columns[targets[i]];
      && (v.IntegerLiteral? ==> c.kind.IntColumn? && ColumnInt(row, s, c.id) == v.integer)
      && (v.StringLiteral? && NulFree(v.text) ==> c.kind.TextColumn? && Stored(ColumnField(row, s, c.id)) == v.text)
    ensures forall c :: 0 <= c < |s.columns| ==> c in targets
    ensures 1 <= keyId <= |s.columns| && s.columns[keyId - 1].kind.IntColumn? ==> 0 <= ColumnInt(row, s, keyId)
  {
    ValueReadsBack(s, row, insert.values[i], targets[i]);
    Pigeonhole(targets, |s.columns|);
    if 1 <= keyId <= |s.columns| && s.columns[keyId - 1].kind.IntColumn? {
      KeyNotNegative(s, keyId, insert, targets, row);
    }
  }

  lemma KeyNotNegative(s: Schema, keyId: nat, insert: InsertAst, targets: seq<nat>, row: Row)
    requires Laid(s) && |row| == s.rowSize && Binds(s, keyId, insert, targets)
    requires Holding(s, row, insert.values, targets, |insert.values|)
    requires 1 <= keyId <= |s.columns| && s.columns[keyId - 1].kind.IntColumn?
    ensures 0 <= ColumnInt(row, s, keyId)
  {
    Pigeonhole(targets, |s.columns|);
    assert keyId - 1 in targets;
    var k :| 0 <= k < |targets| && targets[k] == keyId - 1;
    KeyValueReadsBack(s, keyId, insert.values, targets, row, k);
  }

  lemma KeyValueReadsBack(s: Schema, keyId: nat, values: seq<Literal>, targets: seq<nat>, row: Row, k: nat)
    requires Laid(s) && |row| == s.rowSize && AllBelow(targets, |s.columns|) && |values| == |targets|
    requires ValuesFit(s, keyId, values, targets, |values|) && Holding(s, row, values, targets, |values|)
    requires k < |targets| && keyId == targets[k] + 1 && s.columns[keyId - 1].kind.IntColumn?
    ensures 0 <= ColumnInt(row, s, keyId)
  {
    assert ValueFits(values[k], s.columns[targets[k]], s.columns[targets[k]].id == keyId);
    assert HoldsValue(s, row, values[k], targets[k]);
    ValueReadsBack(s, row, values[k], targets[k]);
  }

  lemma ValueReadsBack(s: Schema, row: Row, v: Literal, t: nat)
    requires Laid(s) && |row| == s.rowSize && t < |s.columns| && HoldsValue(s, row, v, t)
    ensures v.IntegerLiteral? ==> s.columns[t].kind.IntColumn? && ColumnInt(row, s, t + 1) == v.integer
    ensures v.StringLiteral? && NulFree(v.text) ==>
      s.columns[t].kind.TextColumn? && Stored(ColumnField(row, s, t + 1)) == v.text
  {
    if v.IntegerLiteral? {
      IntRoundTrip(v.integer); } else if NulFree(v.text) { TextRoundTrip(v.text, s.columns[t].size);
    }
  }

  // ------------------------------------------------------------ what an INSERT accepts, and the row it makes

  // Where the values go: each column gets one, in order or as the column list names them.
  ghost predicate Places(s: Schema, insert: InsertAst, order: seq<nat>) {
    && |order| == |s.columns| == |insert.values| && AllDifferent(order) && AllBelow(order, |s.columns|)
    && match insert.columnNames
       case None => forall i :: 0 <= i < |order| ==> order[i] == i
       case Some(names) => |names| == |order| && forall i :: 0 <= i < |order| ==> FirstOf(s, names[i], order[i])
  }

  lemma PlacesAreTargets(s: Schema, insert: InsertAst, order: seq<nat>)
    ensures Places(s, insert, order) <==> TargetsOf(s, insert, order)
  {
    var names := if insert.columnNames.Some? then insert.columnNames.value else [];
    if |names| == |order| == |s.columns| && AllBelow(order, |s.columns|) {
      forall i | 0 <= i < |order|
        ensures FirstOf(s, names[i], order[i]) <==> FirstNamed(s, names[i], 0) == Some(order[i])
      {
      }
    }
  }

  // Column c of the row holds the value: the number, or the text and then NULs to the end of the column.
  ghost predicate Written(s: Schema, row: Row, v: Literal, c: nat)
    requires Laid(s) && |row| == s.rowSize && c < |s.columns|
  {
    match v
    case IntegerLiteral(_, integer, outOfRange) =>
      s.columns[c].kind == IntColumn && !outOfRange && ColumnInt(row, s, c + 1) == integer
    case StringLiteral(text) =>
      && s.columns[c].kind == TextColumn
      && var field := ColumnField(row, s, c + 1);
         text <= field && forall k :: |text| <= k < |field| ==> field[k] == '\0'
  }

  ghost predicate KeyedBy(s: Schema, keyId: nat) {
    Laid(s) && 1 <= keyId <= |s.columns| && s.columns[keyId - 1].kind.IntColumn?
  }

  /** The row an INSERT makes: each column holds the one value meant for it, and the key is not negative. */
  ghost predicate RowFor(s: Schema, keyId: nat, insert: InsertAst, row: Row)
    requires KeyedBy(s, keyId)
  {
    && |row| == s.rowSize && 0 <= ColumnInt(row, s, keyId)
    && exists order :: Places(s, insert, order) && AllWritten(s, row, insert.values, order)
  }

  ghost predicate AllWritten(s: Schema, row: Row, values: seq<Literal>, order: seq<nat>)
    requires Laid(s) && |row| == s.rowSize && |order| == |values| && AllBelow(order, |s.columns|)
  {
    forall i :: 0 <= i < |values| ==> Written(s, row, values[i], order[i])
  }

  lemma HeldIsWritten(s: Schema, row: Row, v: Literal, c: nat)
    requires Laid(s) && |row| == s.rowSize && c < |s.columns|
    ensures HoldsValue(s, row, v, c) <==> Written(s, row, v, c)
  {
    FieldsApart(s, c, |s.columns|);
    var field := ColumnField(row, s, c + 1);
    if v.IntegerLiteral? {
      if ValueFits(v, s.columns[c], false) { IntRoundTrip(v.integer); }
      if s.columns[c].kind.IntColumn? { BytesRoundTrip(field); }
    } else {
      TextWritten(v.text, field);
    }
  }

  lemma TextWritten(text: Text, field: seq<Byte>)
    ensures |text| <= |field| && field == EncodeText(text, |field|) <==>
      text <= field && forall k :: |text| <= k < |field| ==> field[k] == '\0'
  {
    if text <= field && forall k :: |text| <= k < |field| ==> field[k] == '\0' {
      assert field == text + Zeros(|field| - |text|);
    }
  }

  // A row that holds every value has a key that may be stored exactly if the key's value may be.
  lemma WrittenFits(s: Schema, keyId: nat, values: seq<Literal>, order: seq<nat>, row: Row)
    requires KeyedBy(s, keyId) && |row| == s.rowSize && |order| == |values| == |s.columns|
    requires AllDifferent(order) && AllBelow(order, |s.columns|) && AllWritten(s, row, values, order)
    ensures 0 <= ColumnInt(row, s, keyId) <==> ValuesFit(s, keyId, values, order, |values|)
  {
    Pigeonhole(order, |s.columns|);
    assert keyId - 1 in order;
    var k :| 0 <= k < |order| && order[k] == keyId - 1;
    forall i | 0 <= i < |values|
      ensures ValueFits(values[i], s.columns[order[i]], false) && (i == k || order[i] != keyId - 1)
    {
      HeldIsWritten(s, row, values[i], order[i]);
    }
    assert Written(s, row, values[k], order[k]);
  }

  lemma MadeIsRowFor(s: Schema, keyId: nat, insert: InsertAst, order: seq<nat>, row: Row)
    requires KeyedBy(s, keyId) && |row| == s.rowSize && Places(s, insert, order)
    ensures AllWritten(s, row, insert.values, order) && 0 <= ColumnInt(row, s, keyId) <==>
      Binds(s, keyId, insert, order) && Holding(s, row, insert.values, order, |insert.values|)
  {
    PlacesAreTargets(s, insert, order);
    forall i | 0 <= i < |insert.values|
      ensures HoldsValue(s, row, insert.values[i], order[i]) <==> Written(s, row, insert.values[i], order[i])
    {
      HeldIsWritten(s, row, insert.values[i], order[i]);
    }
    if AllWritten(s, row, insert.values, order) { WrittenFits(s, keyId, insert.values, order, row); }
  }

  // Values that fit have a row to hold them.
  lemma {:induction false} RowExists(s: Schema, keyId: nat, values: seq<Literal>, targets: seq<nat>, n: nat)
    returns (row: Row)
    requires Laid(s) && AllBelow(targets, |s.columns|) && AllDifferent(targets) && n <= |values| == |targets|
    requires ValuesFit(s, keyId, values, targets, |values|)
    ensures |row| == s.rowSize && Holding(s, row, values, targets, n)
  {
    if n == 0 {
      row := Zeros(s.rowSize);
    } else {
      var before := RowExists(s, keyId, values, targets, n - 1);
      var c := s.columns[targets[n - 1]];
      assert ValueFits(values[n - 1], c, c.id == keyId);
      ValueStored(s, before, values, targets, n - 1);
      row := PutField(before, c.offset, Encoded(values[n - 1], c));
    }
  }

  lemma BindsIsRowFor(s: Schema, keyId: nat, insert: InsertAst)
    requires KeyedBy(s, keyId)
    ensures (exists t :: Binds(s, keyId, insert, t)) <==> exists row :: RowFor(s, keyId, insert, row)
  {
    if t :| Binds(s, keyId, insert, t) {
      PlacesAreTargets(s, insert, t);
      var row := RowExists(s, keyId, insert.values, t, |insert.values|);
      MadeIsRowFor(s, keyId, insert, t, row);
      assert RowFor(s, keyId, insert, row);
    }
    if row :| RowFor(s, keyId, insert, row) {
      var order :| Places(s, insert, order) && AllWritten(s, row, insert.values, order);
      MadeIsRowFor(s, keyId, insert, order, row);
    }
  }

  /** Binds an INSERT: refused exactly when no row could hold what it says, and otherwise made into such a row. */
  method BindInsert(s: Schema, keyId: nat, insert: InsertAst) returns (row: Option<Row>)
    requires KeyedBy(s, keyId) && NamesNulFree(s) && NamesOk(insert.columnNames)
    ensures row.Some? ==> RowFor(s, keyId, insert, row.value)
    ensures row.None? ==> forall r :: !RowFor(s, keyId, insert, r)
  {
    BindsIsRowFor(s, keyId, insert);
    var found, ts := BindTargets(s, insert);
    ghost var targets := ts[..];
    if !found { return None; }
    var fit := CheckValues(s, keyId, insert.values, ts);
    if !fit {
      forall t | TargetsOf(s, insert, t) ensures t == targets { OneTargets(s, insert, t, targets); }
      return None;
    }
    assert Binds(s, keyId, insert, targets);
    var built := BuildRow(s, keyId, insert.values, ts);
    row := Some(built);
    PlacesAreTargets(s, insert, targets);
    MadeIsRowFor(s, keyId, insert, targets, built);
  }

  // Column c of the row reads back as the value.
  ghost predicate ReadsBack(s: Schema, row: Row, v: Literal, c: nat)
    requires Laid(s) && |row| == s.rowSize && c < |s.columns|
  {
    match v
    case IntegerLiteral(_, integer, outOfRange) =>
      s.columns[c].kind == IntColumn && !outOfRange && ColumnInt(row, s, c + 1) == integer
    case StringLiteral(text) => s.columns[c].kind == TextColumn && Stored(ColumnField(row, s, c + 1)) == text
  }

  ghost predicate AllReadBack(s: Schema, row: Row, values: seq<Literal>, order: seq<nat>)
    requires Laid(s) && |row| == s.rowSize && |order| == |values| && AllBelow(order, |s.columns|)
  {
    forall i :: 0 <= i < |values| ==> ReadsBack(s, row, values[i], order[i])
  }

  ghost predicate RowReadingBack(s: Schema, keyId: nat, insert: InsertAst, row: Row, order: seq<nat>)
    requires KeyedBy(s, keyId)
  {
    && |row| == s.rowSize && 0 <= ColumnInt(row, s, keyId)
    && Places(s, insert, order) && AllReadBack(s, row, insert.values, order)
  }

  lemma ReadBackFits(s: Schema, row: Row, v: Literal, c: nat)
    requires Laid(s) && |row| == s.rowSize && c < |s.columns| && (v.StringLiteral? ==> NulFree(v.text))
    ensures Written(s, row, v, c) ==> ReadsBack(s, row, v, c)
    ensures ReadsBack(s, row, v, c) ==> ValueFits(v, s.columns[c], false)
  {
    FieldsApart(s, c, |s.columns|);
    if Written(s, row, v, c) && v.StringLiteral? {
      var field := ColumnField(row, s, c + 1);
      TextWritten(v.text, field);
      TextRoundTrip(v.text, |field|);
    }
  }

  /** An INSERT is accepted exactly when some row of its table reads back every value from the column meant for it,
      under a key that is not negative; and the row it makes is such a row. */
  lemma InsertAccepted(s: Schema, keyId: nat, insert: InsertAst)
    requires KeyedBy(s, keyId) && forall i :: 0 <= i < |insert.values| && insert.values[i].StringLiteral? ==>
      NulFree(insert.values[i].text)
    ensures (exists row :: RowFor(s, keyId, insert, row)) <==>
      (exists row, order :: RowReadingBack(s, keyId, insert, row, order))
    ensures forall row :: RowFor(s, keyId, insert, row) ==> exists order :: RowReadingBack(s, keyId, insert, row, order)
  {
    forall row | RowFor(s, keyId, insert, row)
      ensures exists order :: RowReadingBack(s, keyId, insert, row, order)
    {
      var order :| Places(s, insert, order) && AllWritten(s, row, insert.values, order);
      forall i | 0 <= i < |insert.values| ensures ReadsBack(s, row, insert.values[i], order[i]) {
        assert Written(s, row, insert.values[i], order[i]);
        ReadBackFits(s, row, insert.values[i], order[i]);
      }
      assert RowReadingBack(s, keyId, insert, row, order);
    }
    if row, order :| RowReadingBack(s, keyId, insert, row, order) {
      ReadBackBinds(s, keyId, insert, order, row);
      BindsIsRowFor(s, keyId, insert);
    }
  }

  lemma ReadBackBinds(s: Schema, keyId: nat, insert: InsertAst, order: seq<nat>, row: Row)
    requires KeyedBy(s, keyId) && forall i :: 0 <= i < |insert.values| && insert.values[i].StringLiteral? ==>
      NulFree(insert.values[i].text)
    requires RowReadingBack(s, keyId, insert, row, order)
    ensures Binds(s, keyId, insert, order)
  {
    PlacesAreTargets(s, insert, order);
    forall i | 0 <= i < |insert.values|
      ensures ValueFits(insert.values[i], s.columns[order[i]], s.columns[order[i]].id == keyId)
    {
      assert ReadsBack(s, row, insert.values[i], order[i]);
      ReadBackFits(s, row, insert.values[i], order[i]);
    }
  }
}
