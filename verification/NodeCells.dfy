/** The loops that rearrange the cells of a node inside its page. */
module NodeCells {
  import opened Pages

  /** A page's cell slots, the first ones holding `cells` and the others blank. */
  method Slots<T>(cells: seq<T>, size: nat, blank: T) returns (a: array<T>)
    requires |cells| <= size
    ensures fresh(a) && a.Length == size && a[..|cells|] == cells
  {
    a := new T[size](i => if 0 <= i < |cells| then cells[i] else blank);
  }

  /** Opens a gap at `at` by shifting the later cells right, from the last one down, and fills it. */
  method InsertCell<T>(a: array<T>, n: nat, at: nat, cell: T)
    requires at <= n < a.Length
    modifies a
    ensures a[..n + 1] == InsertAt(old(a[..n]), at, cell)
  {
    ghost var was := a[..n];
    var i := n;
    while i > at
      invariant at <= i <= n
      invariant a[..i] == was[..i]
      invariant forall k :: i < k <= n ==> a[k] == was[k - 1]
    {
      a[i] := a[i - 1];
      i := i - 1;
    }
    a[at] := cell;
    assert a[..n + 1] == was[..at] + [cell] + was[at..];
  }

  /** Closes the gap left by cell `at`. */
  method RemoveCell<T>(a: array<T>, n: nat, at: nat)
    requires at < n <= a.Length
    modifies a
    ensures a[..n - 1] == RemoveAt(old(a[..n]), at)
  {
    var i := at;
    while i + 1 < n
      invariant at <= i < n
      invariant forall k :: 0 <= k < at ==> a[k] == old(a[k])
      invariant forall k :: at <= k < i ==> a[k] == old(a[k + 1])
      invariant forall k :: i <= k < n ==> a[k] == old(a[k])
    {
      a[i] := a[i + 1];
      i := i + 1;
    }
    ghost var s := RemoveAt(old(a[..n]), at);
    assert forall k :: 0 <= k < n - 1 ==> a[..n - 1][k] == s[k];
  }

  // How many of the m + 1 cells of a full leaf with one more stay on the left: half, or one more than go right.
  function LeftCount(m: nat): (left: nat)
    ensures 0 <= left - (m + 1 - left) <= 1
  {
    (m + 1) - (m + 1) / 2
  }

  // Cell k of s once `cell` has been put in at `at`.
  function Placed(s: seq<Cell>, at: nat, cell: Cell, k: nat): Cell
    requires at <= |s| && k <= |s|
  {
    if k < at then s[k] else if k == at then cell else s[k - 1]
  }

  lemma PlacedAll(s: seq<Cell>, at: nat, cell: Cell, left: nat, a: seq<Cell>, b: seq<Cell>)
    requires at <= |s| && left <= |s| + 1 && |a| == left && |b| == |s| + 1 - left
    requires forall k :: 0 <= k < left ==> a[k] == Placed(s, at, cell, k)
    requires forall k :: left <= k <= |s| ==> b[k - left] == Placed(s, at, cell, k)
    ensures a == InsertAt(s, at, cell)[..left] && b == InsertAt(s, at, cell)[left..]
  {
    var all := InsertAt(s, at, cell);
    assert forall k :: 0 <= k <= |s| ==> all[k] == Placed(s, at, cell, k);
    forall k | 0 <= k < |b|
      ensures b[k] == all[left..][k]
    {
      assert b[k + left - left] == Placed(s, at, cell, k + left);
    }
  }

  /**
   Divides a full leaf's cells, with a new one at `at`, between its own slots and
   those of a new leaf. Walking from the last position down, nothing is read after
   it has been overwritten, although the old slots are both source and destination.
   */
  method SplitCells(source: array<Cell>, sibling: array<Cell>, at: nat, cell: Cell)
    requires source != sibling && source.Length == sibling.Length && 0 < source.Length && at <= source.Length
    modifies source, sibling
    ensures var all := InsertAt(old(source[..]), at, cell); var left := LeftCount(source.Length);
      source[..left] == all[..left] && sibling[..|all| - left] == all[left..]
  {
    var total := source.Length + 1;
    var left := total - total / 2;
    ghost var s := source[..];
    var i := total;
    while i > 0
      invariant 0 <= i <= total
      invariant forall k :: 0 <= k < i && k < source.Length ==> source[k] == s[k]
      invariant forall k :: i <= k < left ==> source[k] == Placed(s, at, cell, k)
      invariant forall k :: i <= k < total && left <= k ==> sibling[k - left] == Placed(s, at, cell, k)
    {
      i := i - 1;
      if i == at {
        if i >= left { sibling[i - left] := cell; } else { source[i] := cell; }
      } else if i > at {
        if i >= left { sibling[i - left] := source[i - 1]; } else { source[i] := source[i - 1]; }
      } else if i >= left {
        sibling[i - left] := source[i];
      }
    }
    PlacedAll(s, at, cell, left, source[..left], sibling[..total - left]);
  }
}
