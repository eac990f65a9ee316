/** The two binary searches: a key among a leaf's cells, and among a node's separators. */
module Search {
  import opened Pages

  predicate SeparatorsAscend(entries: seq<Entry>) {
    forall i, j :: 0 <= i < j < |entries| ==> entries[i].key < entries[j].key
  }

  // The one position where `key` is, or belongs, among sorted cells.
  predicate CellPosition(cells: seq<Cell>, key: int, at: int) {
    && 0 <= at <= |cells|
    && (forall j :: 0 <= j < at ==> cells[j].key < key)
    && (forall j :: at <= j < |cells| ==> key <= cells[j].key)
  }

  // The child that owns `key`: the first whose separator is no smaller, or the last child.
  predicate ChildPosition(entries: seq<Entry>, key: int, at: int) {
    && 0 <= at <= |entries|
    && (forall j :: 0 <= j < at ==> entries[j].key < key)
    && (forall j :: at <= j < |entries| ==> key <= entries[j].key)
  }

  method LeafNodeFindCell(node: Page, key: int) returns (index: nat)
    requires node.Leaf? && Ascending(node.cells)
    ensures CellPosition(node.cells, key, index)
  {
    var minIndex, onePastMaxIndex := 0, |node.cells|;
    while onePastMaxIndex != minIndex
      invariant 0 <= minIndex <= onePastMaxIndex <= |node.cells|
      invariant forall j :: 0 <= j < minIndex ==> node.cells[j].key < key
      invariant forall j :: onePastMaxIndex <= j < |node.cells| ==> key < node.cells[j].key
      decreases onePastMaxIndex - minIndex
    {
      var i := (minIndex + onePastMaxIndex) / 2;
      var keyAtIndex := node.cells[i].key;
      if key == keyAtIndex { return i; }
      if key < keyAtIndex { onePastMaxIndex := i; } else { minIndex := i + 1; }
    }
    return minIndex;
  }

  method InternalNodeFindChild(node: Page, key: int) returns (index: nat)
    requires node.Internal? && SeparatorsAscend(node.entries)
    ensures ChildPosition(node.entries, key, index)
  {
    var minIndex, maxIndex := 0, |node.entries|;
    while minIndex != maxIndex
      invariant 0 <= minIndex <= maxIndex <= |node.entries|
      invariant forall j :: 0 <= j < minIndex ==> node.entries[j].key < key
      invariant forall j :: maxIndex <= j < |node.entries| ==> key <= node.entries[j].key
      decreases maxIndex - minIndex
    {
      var i := (minIndex + maxIndex) / 2;
      var keyToRight := node.entries[i].key;
      if keyToRight >= key { maxIndex := i; } else { minIndex := i + 1; }
    }
    return minIndex;
  }
}
