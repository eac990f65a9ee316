/** Taking a cell out of a leaf and keeping the separator that records its largest key exact. */
module LeafRemove {
  import opened Pages
  import opened Shape
  import opened Boundary
  import opened Pagers
  import opened Fill

  /** Which child of an internal page `child` is, found by page number. */
  method ChildIndexInParent(parent: Page, child: nat) returns (index: nat)
    requires HasKid(parent, child)
    ensures index <= |parent.entries| && Kid(parent, index) == child
    ensures forall j :: 0 <= j < index ==> Kid(parent, j) != child
  {
    var i := 0;
    while i <= |parent.entries|
      invariant 0 <= i <= |parent.entries| + 1
      invariant forall j :: 0 <= j < i ==> Kid(parent, j) != child
    {
      if Kid(parent, i) == child { return i; }
      i := i + 1;
    }
    assert false;
  }

  // ------------------------------------------------------------ climbing to the separator

  // Page a's entry i is the separator that records the largest key of node p.
  ghost predicate Records(pg: seq<Page>, nf: Nodes, p: nat, a: nat, i: int) {
    && p in nf && a in nf && a < |pg| && nf[a].tree == nf[p].tree && pg[a].Internal? && 0 <= i < |pg[a].entries|
    && pg[a].entries[i].key == nf[p].hi
  }

  method LowerAncestorSeparator(pager: Pager, p: nat, newMax: int, ghost pg: seq<Page>)
    returns (ghost a: nat, ghost i: int)
    requires Shaped(pg, pager.nodes) && p in pager.nodes && pg[p].Leaf?
    requires |pager.pages| == |pg| && pager.pages[p].Leaf?
    requires pager.pages[p] == pg[p].(cells := pager.pages[p].cells)
    requires forall x {:trigger pager.pages[x]} :: 0 <= x < |pg| && x != p ==> pager.pages[x] == pg[x]
    modifies pager`pages
    ensures pager.nodes[p].hi == TOP ==> pager.pages == old(pager.pages)
    ensures pager.nodes[p].hi < TOP ==>
      && Records(pg, pager.nodes, p, a, i)
      && pager.pages == old(pager.pages)[a := Relabel(pg[a], i, newMax)]
  {
    ghost var nf := pager.nodes;
    var c := p;
    var node := pager.pages[c];
    a, i := 0, 0;
    assert Ok(pg, nf, c);
    while !node.isRoot
      invariant c in nf && nf[c].tree == nf[p].tree && nf[c].hi == nf[p].hi && Ok(pg, nf, c)
      invariant pager.pages == old(pager.pages) && c < |pager.pages| && node == pager.pages[c]
      decreases Top(nf, c) - nf[c].height
    {
      var parentPage := node.parent;
      var parent := pager.pages[parentPage];
      ParentCovers(pg, nf, c);
      assert Ok(pg, nf, parentPage);
      var index := ChildIndexInParent(parent, c);
      KidInside(pg, nf, parentPage, index);
      if index < |parent.entries| {
        pager.Set(parentPage, Relabel(parent, index, newMax));
        a, i := parentPage, index;
        SeparatorBelowTop(pg, nf, a, i);
        return;
      }
      c := parentPage;
      node := parent;
    }
  }

  lemma SeparatorBelowTop(pg: seq<Page>, nf: Nodes, a: nat, i: int)
    requires Shaped(pg, nf) && a in nf && pg[a].Internal? && 0 <= i < |pg[a].entries|
    ensures pg[a].entries[i].key < TOP
  {
    KidInside(pg, nf, a, i + 1);
    assert Ok(pg, nf, a);
  }

  // ------------------------------------------------------------ the leaf itself

  lemma RemovedCells(pg: seq<Page>, nf: Nodes, p: nat, at: nat)
    requires Shaped(pg, nf) && p in nf && pg[p].Leaf? && at < |pg[p].cells|
    ensures var c, s := pg[p].cells, RemoveAt(pg[p].cells, at);
      && Ascending(s) && KeysWithin(s, nf[p].lo, nf[p].hi)
      && (at < |c| - 1 ==> |s| > 0 && s[|s| - 1] == c[|c| - 1])
      && (at == |c| - 1 && |s| > 0 ==>
            && KeysWithin(s, nf[p].lo, s[|s| - 1].key)
            && s[|s| - 1].key < c[|c| - 1].key && s[|s| - 1] == c[|c| - 2])
      && (forall x :: x in s <==> x in c && x != c[at])
  {
    assert Ok(pg, nf, p);
    var c, s := pg[p].cells, RemoveAt(pg[p].cells, at);
    assert forall k :: 0 <= k < |s| ==> s[k] == c[if k < at then k else k + 1];
    RemoveMembers(c, at);
  }

  lemma RemoveMembers(c: seq<Cell>, at: nat)
    requires Ascending(c) && at < |c|
    ensures forall x :: x in RemoveAt(c, at) <==> x in c && x != c[at]
  {
    var s := RemoveAt(c, at);
    forall x ensures x in s <==> x in c && x != c[at] {
      if x in s {
        var k :| 0 <= k < |s| && s[k] == x;
        assert s[k] == c[if k < at then k else k + 1];
      }
      if x in c && x != c[at] {
        var k :| 0 <= k < |c| && c[k] == x;
        assert s[if k < at then k else k - 1] == x;
      }
    }
  }

  // A row is stored in one leaf only.
  lemma RowsTaken(pg: seq<Page>, nf: Nodes, pg': seq<Page>, nf': Nodes, p: nat, at: nat)
    requires Shaped(pg, nf) && p in nf && pg[p].Leaf? && at < |pg[p].cells|
    requires nf'.Keys == nf.Keys && forall x :: x in nf ==> nf'[x].tree == nf[x].tree
    requires |pg'| == |pg| && pg'[p].Leaf? && pg'[p].cells == RemoveAt(pg[p].cells, at)
    requires forall x {:trigger pg'[x]} :: x in nf && x != p ==>
      (pg'[x].Leaf? <==> pg[x].Leaf?) && (pg[x].Leaf? ==> pg'[x].cells == pg[x].cells)
    ensures Rows(pg', nf', nf[p].tree) == Rows(pg, nf, nf[p].tree) - {pg[p].cells[at]}
  {
    var t, gone := nf[p].tree, pg[p].cells[at];
    RemovedCells(pg, nf, p, at);
    forall c ensures c in Rows(pg', nf', t) <==> c in Rows(pg, nf, t) && c != gone {
      if c in Rows(pg', nf', t) {
        var x :| x in nf' && nf'[x].tree == t && x < |pg'| && pg'[x].Leaf? && c in pg'[x].cells;
        if x == p { assert c in pg[p].cells; } else {
          assert c in pg[x].cells;
          if c == gone { CellOnce(pg, nf, x, p, c); }
        }
      }
      if c in Rows(pg, nf, t) && c != gone {
        var x :| x in nf && nf[x].tree == t && x < |pg| && pg[x].Leaf? && c in pg[x].cells;
        assert pg'[x].Leaf? && c in pg'[x].cells;
      }
    }
  }

  lemma CellOnce(pg: seq<Page>, nf: Nodes, x: nat, y: nat, c: Cell)
    requires Shaped(pg, nf) && x in nf && y in nf && pg[x].Leaf? && pg[y].Leaf? && nf[x].tree == nf[y].tree
    requires c in pg[x].cells && c in pg[y].cells
    ensures x == y
  {
    assert Ok(pg, nf, x) && Ok(pg, nf, y);
    SameOwner(pg, nf, x, y, c.key);
  }

  // What deleting a cell leaves before any repair: everything in order, leaf p perhaps one short.
  ghost predicate Removed(pg: seq<Page>, nf: Nodes, p: nat, at: nat, pg': seq<Page>, nf': Nodes) {
    && p in nf && p < |pg| && pg[p].Leaf? && at < |pg[p].cells|
    && Shaped(pg', nf')
    && nf'.Keys == nf.Keys && |pg'| == |pg|
    && (forall x {:trigger nf'[x]} :: x in nf ==>
          nf'[x].tree == nf[x].tree && (nf[x].tree != nf[p].tree ==> nf'[x] == nf[x]))
    && pg'[p] == pg[p].(cells := RemoveAt(pg[p].cells, at))
    && (forall x {:trigger pg'[x]} :: 0 <= x < |pg| && x != p ==> SameButKeys(pg[x], pg'[x]))
    && (forall x {:trigger pg'[x]} :: 0 <= x < |pg| && (x in nf ==> nf[x].tree != nf[p].tree) ==> pg'[x] == pg[x])
  }

  // Pages that differ at most in their separators.
  ghost predicate SameButKeys(e: Page, e': Page) {
    e == e' || (e.Internal? && e'.Internal? && |e.entries| == |e'.entries|)
  }

  lemma RemovedShort(pg: seq<Page>, nf: Nodes, head: nat, free: seq<nat>, caps: map<nat, nat>, maxKeys: nat, p: nat,
                     at: nat, pg': seq<Page>, nf': Nodes)
    requires Sound(pg, nf, head, free, caps, maxKeys, {}, {}) && Removed(pg, nf, p, at, pg', nf')
    ensures Sound(pg', nf', head, free, caps, maxKeys, {}, {p})
    ensures Rows(pg', nf', nf[p].tree) == Rows(pg, nf, nf[p].tree) - {pg[p].cells[at]}
    ensures Elsewhere(pg, nf, pg', nf', nf[p].tree)
  {
    forall x | x in nf' && x != p ensures FillAt(pg', nf', caps, maxKeys, x) {
      assert FillAt(pg, nf, caps, maxKeys, x) && SameButKeys(pg[x], pg'[x]);
    }
    NodesWritten(pg, nf, head, free, {}, pg');
    forall x | x in nf && x != p
      ensures (pg'[x].Leaf? <==> pg[x].Leaf?) && (pg[x].Leaf? ==> pg'[x].cells == pg[x].cells)
    {
      assert SameButKeys(pg[x], pg'[x]);
    }
    RowsTaken(pg, nf, pg', nf', p, at);
  }

  lemma RemovedInside(pg: seq<Page>, nf: Nodes, p: nat, at: nat)
    requires Shaped(pg, nf) && p in nf && pg[p].Leaf? && at < |pg[p].cells|
    requires p == nf[p].tree || at < |pg[p].cells| - 1 || nf[p].hi == TOP
    requires p == nf[p].tree || |pg[p].cells| > 1
    ensures Removed(pg, nf, p, at, pg[p := pg[p].(cells := RemoveAt(pg[p].cells, at))], nf)
  {
    assert Ok(pg, nf, p);
    RemovedCells(pg, nf, p, at);
    LeafReplaced(pg, nf, p, RemoveAt(pg[p].cells, at));
  }

  lemma RemovedLast(pg: seq<Page>, nf: Nodes, p: nat, a: nat, i: int)
    requires Shaped(pg, nf) && p in nf && pg[p].Leaf? && |pg[p].cells| > 1 && nf[p].hi < TOP
    requires Records(pg, nf, p, a, i)
    ensures var c := pg[p].cells; var s := RemoveAt(c, |c| - 1);
      Removed(pg, nf, p, |c| - 1, LowerPages(pg, p, s, a, i), MoveBound(nf, nf[p].tree, nf[p].hi, s[|s| - 1].key))
  {
    assert Ok(pg, nf, p);
    RemovedCells(pg, nf, p, |pg[p].cells| - 1);
    LowerShaped(pg, nf, p, RemoveAt(pg[p].cells, |pg[p].cells| - 1), a, i);
  }
}
