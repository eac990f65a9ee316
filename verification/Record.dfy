/** Schemas, and the fixed-width fields of a serialized row. */
module Records {
  import opened Pages
  import Tokens

  const INT_SIZE: nat := 4
  const INT32_MIN: int := -0x8000_0000
  const INT32_MAX: int := 0x7FFF_FFFF

  datatype ColumnType = IntColumn | TextColumn

  // A column's `id` is 1-based; its bytes are row[offset..offset + size].
  datatype Column = Column(id: nat, name: Text, kind: ColumnType, size: nat, offset: nat)

  datatype Schema = Schema(columns: seq<Column>, rowSize: nat)

  // The columns are numbered from 1 in order and laid end to end.
  ghost predicate Laid(s: Schema) {
    && (forall i :: 0 <= i < |s.columns| ==>
          && s.columns[i].id == i + 1
          && s.columns[i].offset == (if i == 0 then 0 else s.columns[i - 1].offset + s.columns[i - 1].size)
          && (s.columns[i].kind.IntColumn? ==> s.columns[i].size == INT_SIZE))
    && s.rowSize ==
      (if |s.columns| == 0 then 0 else s.columns[|s.columns| - 1].offset + s.columns[|s.columns| - 1].size)
  }

  // What the caller declares of a column: all but its place in the row.
  datatype Declared = Declared(name: Text, kind: ColumnType, size: nat)

  /** Numbers the columns and gives each its place, keeping a running offset. */
  method SchemaCreate(columns: seq<Declared>) returns (schema: Schema)
    requires forall i :: 0 <= i < |columns| ==> columns[i].kind.IntColumn? ==> columns[i].size == INT_SIZE
    ensures Laid(schema) && |schema.columns| == |columns|
    ensures forall i :: 0 <= i < |columns| ==>
      Declared(schema.columns[i].name, schema.columns[i].kind, schema.columns[i].size) == columns[i]
  {
    var result: seq<Column> := [];
    var offset: nat := 0;
    for i := 0 to |columns|
      invariant |result| == i && Laid(Schema(result, offset))
      invariant forall j :: 0 <= j < i ==> Declared(result[j].name, result[j].kind, result[j].size) == columns[j]
    {
      result := result + [Column(i + 1, columns[i].name, columns[i].kind, columns[i].size, offset)];
      offset := offset + columns[i].size;
    }
    schema := Schema(result, offset);
  }

  // No two fields of a row overlap, and every field lies inside it.
  lemma {:induction false} FieldsApart(s: Schema, i: nat, j: nat)
    requires Laid(s) && i < j <= |s.columns|
    ensures s.columns[i].offset + s.columns[i].size <= (if j == |s.columns| then s.rowSize else s.columns[j].offset)
    decreases j - i
  {
    if j > i + 1 { FieldsApart(s, i, j - 1); }
  }

  /** The position of the column with a given id: a linear scan. */
  method FindColumnById(s: Schema, id: nat) returns (index: int)
    requires Laid(s)
    ensures index == (if 1 <= id <= |s.columns| then id - 1 else -1)
  {
    for i := 0 to |s.columns|
      invariant id < 1 || i < id
    {
      if s.columns[i].id == id { return i; }
    }
    return -1;
  }

  // ------------------------------------------------------------ names

  // Table and column names ignore the case of ASCII letters.
  predicate SameName(a: Text, b: Text) {
    Tokens.Lower(a) == Tokens.Lower(b)
  }

  // Two bytes that are the same, or the same letter in upper and in lower case.
  predicate SameLetter(c: Byte, d: Byte) {
    || c == d
    || ('A' <= c <= 'Z' && d as int == c as int + 32)
    || ('A' <= d <= 'Z' && c as int == d as int + 32)
  }

  /** Names are the same when they are letter for letter, and only ASCII letters have case. */
  lemma SameNameLetters(a: Text, b: Text)
    ensures SameName(a, b) <==> |a| == |b| && forall i :: 0 <= i < |a| ==> SameLetter(a[i], b[i])
  {
    var la, lb := Tokens.Lower(a), Tokens.Lower(b);
    if |a| == |b| {
      forall i | 0 <= i < |a| ensures la[i] == lb[i] <==> SameLetter(a[i], b[i]) { }
    }
  }

  lemma DifferAt(a: Text, b: Text, i: nat)
    requires i <= |a| && i <= |b| && (i == |a| ==> i < |b|) && (i == |b| ==> i < |a|)
    requires i < |a| && i < |b| ==> Tokens.LowerChar(a[i]) != Tokens.LowerChar(b[i])
    ensures !SameName(a, b)
  {
    if i < |a| && i < |b| { assert Tokens.Lower(a)[i] != Tokens.Lower(b)[i]; }
  }

  method NamesEqual(a: Text, b: Text) returns (same: bool)
    requires NulFree(a) && NulFree(b)
    ensures same == SameName(a, b)
  {
    var i := 0;
    while true
      invariant 0 <= i <= |a| && i <= |b|
      invariant forall j :: 0 <= j < i ==> Tokens.LowerChar(a[j]) == Tokens.LowerChar(b[j])
      decreases |a| - i
    {
      var ca := if i < |a| then Tokens.LowerChar(a[i]) else '\0';
      var cb := if i < |b| then Tokens.LowerChar(b[i]) else '\0';
      if ca != cb {
        DifferAt(a, b, i);
        return false;
      }
      if ca == '\0' {
        assert i == |a| && i == |b|;
        return true;
      }
      i := i + 1;
    }
  }

  predicate Named(s: Schema, name: Text, i: nat)
    requires i < |s.columns|
  {
    SameName(s.columns[i].name, name)
  }

  ghost predicate NamesNulFree(s: Schema) {
    forall i :: 0 <= i < |s.columns| ==> NulFree(s.columns[i].name)
  }

  /** The first column with a name: a linear scan. */
  method FindColumnByName(s: Schema, name: Text) returns (index: int)
    requires NulFree(name) && NamesNulFree(s)
    ensures -1 <= index < |s.columns|
    ensures index >= 0 ==> Named(s, name, index)
    ensures forall j :: 0 <= j < (if index < 0 then |s.columns| else index) ==> !Named(s, name, j)
  {
    for i := 0 to |s.columns|
      invariant forall j :: 0 <= j < i ==> !Named(s, name, j)
    {
      var same := NamesEqual(s.columns[i].name, name);
      if same { return i; }
    }
    return -1;
  }

  // ------------------------------------------------------------ integer fields

  // The four bytes of a number, the least significant first.
  function EncodeInt(v: int): (b: seq<Byte>)
    requires INT32_MIN <= v <= INT32_MAX
    ensures |b| == INT_SIZE
  {
    var u := if v < 0 then v + 0x1_0000_0000 else v;
    [Byte0(u), Byte0(u / 0x100), Byte0(u / 0x100 / 0x100), Byte0(u / 0x100 / 0x100 / 0x100)]
  }

  // The least significant byte of a number.
  function Byte0(u: nat): (b: Byte)
    ensures b as int == u % 0x100
  {
    (u % 0x100) as char
  }

  function DecodeInt(b: seq<Byte>): (v: int)
    requires |b| == INT_SIZE
    ensures INT32_MIN <= v <= INT32_MAX
  {
    var u := Unsigned(b[0] as int, b[1] as int, b[2] as int, b[3] as int);
    if u > INT32_MAX then u - 0x1_0000_0000 else u
  }

  function Unsigned(a: nat, b: nat, c: nat, d: nat): nat {
    a + 0x100 * (b + 0x100 * (c + 0x100 * d))
  }

  // A number is its last byte and what is left of it without.
  lemma LastByte(u: nat)
    ensures u == Byte0(u) as int + 0x100 * (u / 0x100)
  {
  }

  lemma IntRoundTrip(v: int)
    requires INT32_MIN <= v <= INT32_MAX
    ensures DecodeInt(EncodeInt(v)) == v
  {
    var u: nat := if v < 0 then v + 0x1_0000_0000 else v;
    var a: nat := u / 0x100;
    var b: nat := a / 0x100;
    var c: nat := b / 0x100;
    LastByte(u);
    LastByte(a);
    LastByte(b);
    LastByte(c);
    assert c < 0x100;
    assert Unsigned(Byte0(u) as int, Byte0(a) as int, Byte0(b) as int, Byte0(c) as int) == u;
  }

  // Any four bytes are those of the number they decode to.
  lemma BytesRoundTrip(b: seq<Byte>)
    requires |b| == INT_SIZE
    ensures EncodeInt(DecodeInt(b)) == b
  {
    var u := Unsigned(b[0] as int, b[1] as int, b[2] as int, b[3] as int);
    var v := DecodeInt(b);
    assert u == if v < 0 then v + 0x1_0000_0000 else v;
    Quotients(b[0] as int, b[1] as int, b[2] as int, b[3] as int);
  }

  lemma Quotients(a: nat, b: nat, c: nat, d: nat)
    requires a < 0x100 && b < 0x100 && c < 0x100 && d < 0x100
    ensures var u := Unsigned(a, b, c, d);
      && u % 0x100 == a && u / 0x100 % 0x100 == b && u / 0x100 / 0x100 % 0x100 == c
      && u / 0x100 / 0x100 / 0x100 % 0x100 == d
  {
    var x := c + 0x100 * d;
    var y := b + 0x100 * x;
    assert (a + 0x100 * y) / 0x100 == y && (b + 0x100 * x) / 0x100 == x && (c + 0x100 * d) / 0x100 == d;
  }

  /** A number is stored in two's complement, least significant byte first. */
  lemma LittleEndian(v: int)
    requires -0x8000_0000 <= v <= 0x7FFF_FFFF
    ensures var b := EncodeInt(v);
      b[0] as int + 0x100 * b[1] as int + 0x1_0000 * b[2] as int + 0x100_0000 * b[3] as int
      == if v < 0 then v + 0x1_0000_0000 else v
  {
    var u: nat := if v < 0 then v + 0x1_0000_0000 else v;
    LastByte(u);
    LastByte(u / 0x100);
    LastByte(u / 0x100 / 0x100);
    LastByte(u / 0x100 / 0x100 / 0x100);
    assert u / 0x100 / 0x100 / 0x100 < 0x100;
  }

  // ------------------------------------------------------------ text fields

  // A stored text ends at its first NUL, or fills the field.
  function Stored(field: seq<Byte>): (t: Text)
    ensures t <= field
  {
    if |field| == 0 || field[0] == '\0' then [] else [field[0]] + Stored(field[1..])
  }

  function Zeros(n: nat): (z: seq<Byte>)
    ensures |z| == n && forall i :: 0 <= i < n ==> z[i] == '\0'
  {
    seq<Byte>(n, _ => '\0')
  }

  // What a text field of a given width holds: cut to the width, padded with NULs.
  function EncodeText(t: Text, width: nat): (b: seq<Byte>)
    ensures |b| == width
  {
    if |t| >= width then t[..width] else t + Zeros(width - |t|)
  }

  predicate NulFree(t: Text) {
    forall i :: 0 <= i < |t| ==> t[i] != '\0'
  }

  lemma {:induction false} StoredOfPadded(t: Text, n: nat)
    requires NulFree(t)
    ensures Stored(t + Zeros(n)) == t
  {
    if |t| > 0 {
      StoredOfPadded(t[1..], n);
      assert (t + Zeros(n))[1..] == t[1..] + Zeros(n);
    } else if n > 0 {
      assert (t + Zeros(n))[0] == '\0';
    }
  }

  // Text that fits its column is read back as it was written.
  lemma TextRoundTrip(t: Text, width: nat)
    requires NulFree(t) && |t| <= width
    ensures Stored(EncodeText(t, width)) == t
  {
    StoredOfPadded(t, width - |t|);
    assert EncodeText(t, width) == t + Zeros(width - |t|);
  }

  /** How many bytes of a text field are in use. */
  method TextLength(field: seq<Byte>) returns (n: nat)
    ensures n <= |field| && field[..n] == Stored(field)
  {
    n := 0;
    while n < |field| && field[n] != '\0'
      invariant 0 <= n <= |field| && NulFree(field[..n])
    {
      n := n + 1;
    }
    StoredPrefix(field, n);
  }

  lemma {:induction false} StoredPrefix(field: seq<Byte>, n: nat)
    requires n <= |field| && NulFree(field[..n]) && (n == |field| || field[n] == '\0')
    ensures Stored(field) == field[..n]
  {
    if n > 0 {
      assert field[0] == field[..n][0];
      assert field[1..][..n - 1] == field[..n][1..];
      StoredPrefix(field[1..], n - 1);
    }
  }

  // ------------------------------------------------------------ fields of a row

  function Field(row: Row, c: Column): seq<Byte>
    requires c.offset + c.size <= |row|
  {
    row[c.offset..c.offset + c.size]
  }

  function PutField(row: Row, offset: nat, b: seq<Byte>): (r: Row)
    requires offset + |b| <= |row|
    ensures |r| == |row|
  {
    row[..offset] + b + row[offset + |b|..]
  }

  method RecordSetInt(payload: array<Byte>, c: Column, v: int)
    requires c.offset + INT_SIZE <= payload.Length && INT32_MIN <= v <= INT32_MAX
    modifies payload
    ensures payload[..] == PutField(old(payload[..]), c.offset, EncodeInt(v))
  {
    var b := EncodeInt(v);
    forall i | 0 <= i < INT_SIZE { payload[c.offset + i] := b[i]; }
    assert payload[..] == PutField(old(payload[..]), c.offset, b);
  }

  /** Copies text into its field, stopping at the field's width and padding with NULs. */
  method RecordSetText(payload: array<Byte>, c: Column, t: Text)
    requires c.offset + c.size <= payload.Length
    modifies payload
    ensures payload[..] == PutField(old(payload[..]), c.offset, EncodeText(t, c.size))
  {
    var i := 0;
    while i < c.size
      invariant 0 <= i <= c.size
      invariant forall k :: 0 <= k < payload.Length && !(c.offset <= k < c.offset + i) ==> payload[k] == old(payload[k])
      invariant forall k :: 0 <= k < i ==> payload[c.offset + k] == EncodeText(t, c.size)[k]
    {
      payload[c.offset + i] := if i < |t| then t[i] else '\0';
      i := i + 1;
    }
    assert payload[..] == PutField(old(payload[..]), c.offset, EncodeText(t, c.size));
  }

  // A slice of a row that a write misses, below it or above it, is as it was; the slice written is what was put there.
  lemma PutSlices(row: Row, offset: nat, b: seq<Byte>, from: nat, to: nat)
    requires offset + |b| <= |row| && from <= to <= |row|
    ensures to <= offset || offset + |b| <= from ==> PutField(row, offset, b)[from..to] == row[from..to]
    ensures PutField(row, offset, b)[offset..offset + |b|] == b
  {
    var r := PutField(row, offset, b);
    assert forall k :: 0 <= k < |row| && !(offset <= k < offset + |b|) ==> r[k] == row[k];
    assert forall k :: 0 <= k < |b| ==> r[offset + k] == b[k];
    if to <= offset || offset + |b| <= from { assert r[from..to] == row[from..to]; }
  }

  // Writing one field leaves every other field as it was.
  lemma PutElsewhere(s: Schema, row: Row, i: nat, j: nat, b: seq<Byte>)
    requires Laid(s) && |row| == s.rowSize && i < |s.columns| && j < |s.columns| && |b| == s.columns[i].size
    ensures s.columns[i].offset + |b| <= |row| && s.columns[j].offset + s.columns[j].size <= |row|
    ensures Field(PutField(row, s.columns[i].offset, b), s.columns[j]) == if i == j then b else Field(row, s.columns[j])
  {
    FieldsApart(s, i, |s.columns|);
    FieldsApart(s, j, |s.columns|);
    if i < j { FieldsApart(s, i, j); } else if j < i { FieldsApart(s, j, i); }
    PutSlices(row, s.columns[i].offset, b, s.columns[j].offset, s.columns[j].offset + s.columns[j].size);
  }
}
