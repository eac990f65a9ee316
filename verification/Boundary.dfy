/** Changing the cells of one leaf, and the separator that records its largest key. */
module Boundary {
  import opened Pages
  import opened Shape

  // Pages outside the trees do not matter.
  lemma ShapedFrame(pg: seq<Page>, nf: Nodes, pg': seq<Page>)
    requires Shaped(pg, nf) && |pg| <= |pg'|
    requires forall x :: x in nf ==> pg'[x] == pg[x]
    ensures Shaped(pg', nf)
  {
    forall x | x in nf ensures Ok(pg', nf, x) { assert Ok(pg, nf, x); }
  }

  lemma LeafReplaced(pg: seq<Page>, nf: Nodes, p: nat, cells: seq<Cell>)
    requires Shaped(pg, nf) && p in nf && pg[p].Leaf? && LeafDown(nf, p, pg[p].(cells := cells))
    ensures Shaped(pg[p := pg[p].(cells := cells)], nf)
  {
    var pg' := pg[p := pg[p].(cells := cells)];
    forall x | x in nf ensures Ok(pg', nf, x) { assert Ok(pg, nf, x); }
  }

  // A subtree that ends where leaf p ends begins no later than p does.
  lemma {:induction false} SameEnd(pg: seq<Page>, nf: Nodes, q: nat, p: nat)
    requires Shaped(pg, nf) && p in nf && q in nf && pg[p].Leaf?
    requires nf[q].tree == nf[p].tree && nf[q].hi == nf[p].hi
    ensures nf[q].lo <= nf[p].lo
    ensures pg[q].Leaf? ==> q == p
    decreases nf[q].height
  {
    assert Ok(pg, nf, q) && Ok(pg, nf, p);
    if pg[q].Leaf? {
      SameOwner(pg, nf, q, p, nf[p].hi);
    } else {
      KidInside(pg, nf, q, |pg[q].entries|);
      assert Ok(pg, nf, pg[q].right);
      SameEnd(pg, nf, pg[q].right, p);
    }
  }

  function Moved(k: int, s: int, s': int): int {
    if k == s then s' else k
  }

  // Every bound of tree t that was s becomes s'.
  ghost function MoveBound(nf: Nodes, t: nat, s: int, s': int): Nodes {
    map x | x in nf ::
      if nf[x].tree == t then Info(t, Moved(nf[x].lo, s, s'), Moved(nf[x].hi, s, s'), nf[x].height) else nf[x]
  }

  function Relabel(e: Page, i: int, k: int): Page
    requires e.Internal? && 0 <= i < |e.entries|
  {
    e.(entries := e.entries[i := e.entries[i].(key := k)])
  }

  // Leaf p, which ended at the separator in entry i of page a, now ends at s'.
  ghost predicate Lowered(pg: seq<Page>, nf: Nodes, p: nat, cells: seq<Cell>, a: nat, i: int) {
    && Shaped(pg, nf) && p in nf && pg[p].Leaf? && nf[p].hi < TOP
    && a in nf && nf[a].tree == nf[p].tree && pg[a].Internal? && 0 <= i < |pg[a].entries|
    && pg[a].entries[i].key == nf[p].hi
    && |cells| > 0 && Ascending(cells) && KeysWithin(cells, nf[p].lo, cells[|cells| - 1].key)
    && cells[|cells| - 1].key < nf[p].hi
  }

  ghost function LowerPages(pg: seq<Page>, p: nat, cells: seq<Cell>, a: nat, i: int): seq<Page>
    requires p < |pg| && pg[p].Leaf? && |cells| > 0 && a < |pg| && pg[a].Internal? && 0 <= i < |pg[a].entries|
  {
    pg[p := pg[p].(cells := cells)][a := Relabel(pg[a], i, cells[|cells| - 1].key)]
  }

  lemma LowerInner(pg: seq<Page>, nf: Nodes, p: nat, cells: seq<Cell>, a: nat, i: int, x: nat)
    requires Lowered(pg, nf, p, cells, a, i) && x in nf && nf[x].tree == nf[p].tree && pg[x].Internal?
    ensures InnerDown(MoveBound(nf, nf[p].tree, nf[p].hi, cells[|cells| - 1].key), x, LowerPages(pg, p, cells, a, i)[x])
  {
    var s, s' := nf[p].hi, cells[|cells| - 1].key;
    var nf', e, e' := MoveBound(nf, nf[p].tree, s, s'), pg[x], LowerPages(pg, p, cells, a, i)[x];
    assert Ok(pg, nf, x);
    forall j | 0 <= j < |e.entries| ensures e'.entries[j].key == Moved(e.entries[j].key, s, s') {
      if e.entries[j].key == s { SeparatorOnce(pg, nf, x, j, a, i); }
    }
    forall j | 0 <= j <= |e'.entries| ensures KidAt(nf', x, e', j) {
      assert KidAt(nf, x, e, j);
      assert Kid(e', j) == Kid(e, j);
    }
  }

  lemma LowerOk(pg: seq<Page>, nf: Nodes, p: nat, cells: seq<Cell>, a: nat, i: int, x: nat)
    requires Lowered(pg, nf, p, cells, a, i) && x in nf
    ensures Ok(LowerPages(pg, p, cells, a, i), MoveBound(nf, nf[p].tree, nf[p].hi, cells[|cells| - 1].key), x)
  {
    var s, s' := nf[p].hi, cells[|cells| - 1].key;
    var nf', pg' := MoveBound(nf, nf[p].tree, s, s'), LowerPages(pg, p, cells, a, i);
    assert Ok(pg, nf, x) && Ok(pg, nf, p);
    if nf[x].tree != nf[p].tree {
      if pg[x].Internal? {
        forall j | 0 <= j <= |pg[x].entries| ensures KidAt(nf', x, pg'[x], j) { assert KidAt(nf, x, pg[x], j); }
      }
    } else {
      if nf[x].hi == s { SameEnd(pg, nf, x, p); }
      if pg[x].Internal? { LowerInner(pg, nf, p, cells, a, i, x); }
    }
    if x != nf[x].tree {
      if pg[x].parent == a {
        RelabelKids(pg[a], i, s', x);
      }
    }
  }

  lemma RelabelKids(e: Page, i: int, k: int, x: nat)
    requires e.Internal? && 0 <= i < |e.entries|
    ensures HasKid(Relabel(e, i, k), x) <==> HasKid(e, x)
  {
    if HasKid(e, x) {
      var j :| 0 <= j <= |e.entries| && Kid(e, j) == x;
      assert Kid(Relabel(e, i, k), j) == x;
    }
    if HasKid(Relabel(e, i, k), x) {
      var j :| 0 <= j <= |e.entries| && Kid(Relabel(e, i, k), j) == x;
      assert Kid(e, j) == x;
    }
  }

  lemma LowerShaped(pg: seq<Page>, nf: Nodes, p: nat, cells: seq<Cell>, a: nat, i: int)
    requires Lowered(pg, nf, p, cells, a, i)
    ensures Shaped(LowerPages(pg, p, cells, a, i), MoveBound(nf, nf[p].tree, nf[p].hi, cells[|cells| - 1].key))
  {
    var nf' := MoveBound(nf, nf[p].tree, nf[p].hi, cells[|cells| - 1].key);
    forall x | x in nf' ensures Ok(LowerPages(pg, p, cells, a, i), nf', x) {
      LowerOk(pg, nf, p, cells, a, i, x);
    }
  }
}
