/** Positions in a table: finding a key, and walking the chain of leaves. */
module Cursors {
  import opened Pages
  import opened Shape
  import opened Search
  import opened Insert
  import opened Pagers
  import opened Fill

  // t is the root page of one of the file's trees.
  ghost predicate IsTree(pager: Pager, t: nat)
    reads pager
  {
    Valid(pager) && t in pager.nodes && pager.nodes[t].tree == t
  }

  // Cell `cell` of leaf `page` is the first row of tree t whose key is at least
  // `low`; or `end` is set, and there is none.
  ghost predicate FirstFrom(pg: seq<Page>, nf: Nodes, t: nat, low: int, page: nat, cell: nat, end: bool) {
    && page in nf && nf[page].tree == t && page < |pg| && pg[page].Leaf?
    && (end <==> forall c :: c in Rows(pg, nf, t) ==> c.key < low)
    && (!end ==>
          && cell < |pg[page].cells| && low <= pg[page].cells[cell].key
          && pg[page].cells[cell] in Rows(pg, nf, t)
          && forall c :: c in Rows(pg, nf, t) && low <= c.key ==> pg[page].cells[cell].key <= c.key)
  }

  // Where the leaf that owns a key would hold it is where the first key from there on is.
  lemma OwnerIsFirst(pg: seq<Page>, nf: Nodes, t: nat, p: nat, key: int, at: nat)
    requires Shaped(pg, nf) && p in nf && nf[p].tree == t && pg[p].Leaf?
    requires nf[p].lo < key <= nf[p].hi && CellPosition(pg[p].cells, key, at)
    ensures FirstFrom(pg, nf, t, key, p, at, at >= |pg[p].cells|)
  {
    assert Ok(pg, nf, p);
    if at < |pg[p].cells| {
      CellInRows(pg, nf, p, at);
      LeastInLeaf(pg, nf, t, p, key, at);
    } else {
      forall c | c in Rows(pg, nf, t) ensures c.key < key {
        var x, i := RowPlace(pg, nf, t, c);
        if x != p { Disjoint(pg, nf, x, p); }
      }
    }
  }

  lemma CellInRows(pg: seq<Page>, nf: Nodes, p: nat, i: nat)
    requires p in nf && p < |pg| && pg[p].Leaf? && i < |pg[p].cells|
    ensures pg[p].cells[i] in Rows(pg, nf, nf[p].tree)
  {
    assert pg[p].cells[i] in pg[p].cells;
  }

  // Where a row is stored.
  lemma RowPlace(pg: seq<Page>, nf: Nodes, t: nat, c: Cell) returns (x: nat, i: nat)
    requires Shaped(pg, nf) && c in Rows(pg, nf, t)
    ensures x in nf && nf[x].tree == t && pg[x].Leaf? && i < |pg[x].cells| && pg[x].cells[i] == c
    ensures nf[x].height == 0 && nf[x].lo < c.key <= nf[x].hi
    ensures Ok(pg, nf, x)
  {
    x :| x in nf && nf[x].tree == t && x < |pg| && pg[x].Leaf? && c in pg[x].cells;
    i :| 0 <= i < |pg[x].cells| && pg[x].cells[i] == c;
    assert Ok(pg, nf, x);
  }

  lemma LeastInLeaf(pg: seq<Page>, nf: Nodes, t: nat, p: nat, key: int, at: nat)
    requires Shaped(pg, nf) && p in nf && nf[p].tree == t && pg[p].Leaf?
    requires nf[p].lo < key <= nf[p].hi && CellPosition(pg[p].cells, key, at) && at < |pg[p].cells|
    ensures forall c :: c in Rows(pg, nf, t) && key <= c.key ==> pg[p].cells[at].key <= c.key
  {
    assert Ok(pg, nf, p);
    forall c | c in Rows(pg, nf, t) && key <= c.key ensures pg[p].cells[at].key <= c.key {
      var x, i := RowPlace(pg, nf, t, c);
      if x != p { Disjoint(pg, nf, x, p); }
    }
  }

  // Keys are unique in a tree.
  lemma KeyUnique(pg: seq<Page>, nf: Nodes, t: nat, c: Cell, d: Cell)
    requires Shaped(pg, nf) && c in Rows(pg, nf, t) && d in Rows(pg, nf, t) && c.key == d.key
    ensures c == d
  {
    var x, i := RowPlace(pg, nf, t, c);
    var y, j := RowPlace(pg, nf, t, d);
    SameOwner(pg, nf, x, y, c.key);
  }

  // The cell after a given one, across leaves, is the tree's next row.
  lemma NextInLeaf(pg: seq<Page>, nf: Nodes, t: nat, p: nat, i: nat)
    requires Shaped(pg, nf) && p in nf && nf[p].tree == t && pg[p].Leaf? && i + 1 < |pg[p].cells|
    ensures FirstFrom(pg, nf, t, pg[p].cells[i].key + 1, p, i + 1, false)
  {
    assert Ok(pg, nf, p);
    OwnerIsFirst(pg, nf, t, p, pg[p].cells[i].key + 1, i + 1);
  }

  lemma NextLeaf(pg: seq<Page>, nf: Nodes, t: nat, p: nat)
    requires Shaped(pg, nf) && p in nf && nf[p].tree == t && pg[p].Leaf? && |pg[p].cells| > 0
    ensures pg[p].next == 0 ==> FirstFrom(pg, nf, t, pg[p].cells[|pg[p].cells| - 1].key + 1, p, |pg[p].cells|, true)
    ensures pg[p].next != 0 ==>
      pg[p].next in nf && FirstFrom(pg, nf, t, pg[p].cells[|pg[p].cells| - 1].key + 1, pg[p].next, 0, false)
  {
    assert Ok(pg, nf, p);
    var last := pg[p].cells[|pg[p].cells| - 1].key;
    if pg[p].next == 0 {
      if last < TOP {
        OwnerIsFirst(pg, nf, t, p, last + 1, |pg[p].cells|);
      } else {
        forall c | c in Rows(pg, nf, t) ensures c.key < last + 1 { var x, i := RowPlace(pg, nf, t, c); }
      }
    } else {
      var y := pg[p].next;
      assert Ok(pg, nf, y);
      OwnerIsFirst(pg, nf, t, y, last + 1, 0);
    }
  }

  class Cursor {
    const pager: Pager
    const root: nat

    var page: nat
    var cell: nat
    var endOfTable: bool

    // How many pages the search for this position fetched.
    ghost var fetched: nat

    // The first row whose key is at least `low`, or past the end.
    ghost predicate At(low: int)
      reads this, pager
    {
      IsTree(pager, root) && FirstFrom(pager.pages, pager.nodes, root, low, page, cell, endOfTable)
    }

    /** Finds where `key` lives, or belongs, descending from the root. */
    constructor Find(pager: Pager, root: nat, key: int)
      requires IsTree(pager, root) && 0 <= key <= TOP
      ensures this.pager == pager && this.root == root && At(key)
      ensures page in pager.nodes && pager.pages[page].Leaf? && pager.nodes[page].tree == root
      ensures pager.nodes[page].lo < key <= pager.nodes[page].hi
      ensures CellPosition(pager.pages[page].cells, key, cell) && endOfTable == (cell >= |pager.pages[page].cells|)
      ensures fetched == pager.nodes[root].height + 1
    {
      this.pager, this.root := pager, root;
      var p := root;
      var node := pager.pages[p];
      ghost var pg, nf, count := pager.pages, pager.nodes, 1;
      assert Ok(pg, nf, root);
      while node.Internal?
        invariant p in nf && nf[p].tree == root && nf[p].lo < key <= nf[p].hi && node == pg[p] && Ok(pg, nf, p)
        invariant count + nf[p].height == nf[root].height + 1
        decreases nf[p].height
      {
        EntriesAscend(pg, nf, p);
        var childIndex := InternalNodeFindChild(node, key);
        KidInside(pg, nf, p, childIndex);
        p := Kid(node, childIndex);
        node := pager.pages[p];
        count := count + 1;
        assert Ok(pg, nf, p);
      }
      var at := LeafNodeFindCell(node, key);
      OwnerIsFirst(pg, nf, root, p, key, at);
      page, cell, endOfTable := p, at, at >= |node.cells|;
      fetched := count;
    }

    /** Moves to the next row in key order, along the leaf, then along the chain of leaves. */
    method Advance(ghost low: int)
      requires At(low) && !endOfTable
      modifies this
      ensures At(old(pager.pages[page].cells[cell].key) + 1)
    {
      var node := pager.pages[page];
      if cell + 1 < |node.cells| {
        NextInLeaf(pager.pages, pager.nodes, root, page, cell);
      } else {
        NextLeaf(pager.pages, pager.nodes, root, page);
      }
      cell := cell + 1;
      if cell >= |node.cells| {
        var nextPage := node.next;
        if nextPage == 0 {
          endOfTable := true;
        } else {
          page, cell := nextPage, 0;
        }
      }
    }
  }
}
