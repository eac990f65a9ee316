/** Deleting a cell from a leaf. */
module Delete {
  import opened Pages
  import opened Shape
  import opened Boundary
  import opened Pagers
  import opened Fill
  import opened NodeCells
  import opened LeafRemove
  import opened Rebalance

  // The file is sound; tree t lost exactly `cell`, and no other tree was touched.
  twostate predicate Taken(pager: Pager, t: nat, cell: Cell)
    reads pager
  {
    && Valid(pager)
    && pager.caps == old(pager.caps)
    && Rows(pager.pages, pager.nodes, t) == Rows(old(pager.pages), old(pager.nodes), t) - {cell}
    && Elsewhere(old(pager.pages), old(pager.nodes), pager.pages, pager.nodes, t)
  }

  method LeafNodeRemoveCell(pager: Pager, p: nat, at: nat)
    requires p < |pager.pages| && pager.pages[p].Leaf? && at < |pager.pages[p].cells|
    modifies pager`pages
    ensures pager.pages == old(pager.pages)[p := old(pager.pages)[p].(cells := RemoveAt(old(pager.pages)[p].cells, at))]
  {
    var node := pager.pages[p];
    var slots := Slots(node.cells, |node.cells|, Cell(0, []));
    RemoveCell(slots, |node.cells|, at);
    pager.Set(p, node.(cells := slots[..|node.cells| - 1]));
  }

  // Lowers the one separator that recorded the largest key of leaf p, which has just been removed.
  method LowerRecord(pager: Pager, p: nat, newMax: int, ghost pg: seq<Page>)
    requires Shaped(pg, pager.nodes) && p in pager.nodes && p != pager.nodes[p].tree && pg[p].Leaf? && |pg[p].cells| > 1
    requires pager.pages == pg[p := pg[p].(cells := RemoveAt(pg[p].cells, |pg[p].cells| - 1))]
    requires newMax == pg[p].cells[|pg[p].cells| - 2].key
    modifies pager`pages, pager`nodes
    ensures Removed(pg, old(pager.nodes), p, |pg[p].cells| - 1, pager.pages, pager.nodes)
  {
    ghost var nf := pager.nodes;
    assert Ok(pg, nf, p);
    assert RemoveAt(pg[p].cells, |pg[p].cells| - 1)[|pg[p].cells| - 2].key == newMax;
    ghost var a, i := LowerAncestorSeparator(pager, p, newMax, pg);
    if nf[p].hi == TOP {
      RemovedInside(pg, nf, p, |pg[p].cells| - 1);
    } else {
      RemovedLast(pg, nf, p, a, i);
      pager.nodes := MoveBound(nf, nf[p].tree, nf[p].hi, newMax);
    }
  }

  // The cell is gone and the separator that recorded it is exact again; the leaf may be one short.
  method RemoveAndLower(pager: Pager, p: nat, at: nat)
    requires Shaped(pager.pages, pager.nodes) && p in pager.nodes && pager.pages[p].Leaf? && at < |pager.pages[p].cells|
    requires p == pager.nodes[p].tree || |pager.pages[p].cells| > 1
    modifies pager`pages, pager`nodes
    ensures Removed(old(pager.pages), old(pager.nodes), p, at, pager.pages, pager.nodes)
  {
    ghost var pg, nf := pager.pages, pager.nodes;
    assert Ok(pg, nf, p);
    var node := pager.pages[p];
    var numCells := |node.cells|;
    var removedLargest := at == numCells - 1;
    LeafNodeRemoveCell(pager, p, at);
    if node.isRoot || !removedLargest {
      RemovedInside(pg, nf, p, at);
    } else {
      LowerRecord(pager, p, pager.pages[p].cells[numCells - 2].key, pg);
    }
  }

  lemma RemovedIsShort(pg: seq<Page>, nf: Nodes, head: nat, free: seq<nat>, caps: map<nat, nat>, maxKeys: nat, p: nat,
                       at: nat, pg': seq<Page>, nf': Nodes)
    requires Sound(pg, nf, head, free, caps, maxKeys, {}, {}) && Removed(pg, nf, p, at, pg', nf')
    ensures Short(pg', nf', head, free, caps, maxKeys, p) && nf'[p].tree == nf[p].tree && Ok(pg', nf', p)
  {
    RemovedShort(pg, nf, head, free, caps, maxKeys, p, at, pg', nf');
    assert FillAt(pg, nf, caps, maxKeys, p);
  }

  method LeafNodeDelete(pager: Pager, p: nat, at: nat, cap: nat)
    requires Valid(pager) && p in pager.nodes && pager.pages[p].Leaf? && at < |pager.pages[p].cells|
    requires pager.nodes[p].tree in pager.caps && cap == pager.caps[pager.nodes[p].tree]
    modifies pager
    ensures Taken(pager, old(pager.nodes)[p].tree, old(pager.pages)[p].cells[at])
  {
    ghost var pg, nf, head, free, caps := pager.pages, pager.nodes, pager.freeHead, pager.free, pager.caps;
    assert FillAt(pg, nf, caps, pager.maxKeys, p);
    RemoveAndLower(pager, p, at);
    ghost var mid, nm := pager.pages, pager.nodes;
    RemovedShort(pg, nf, head, free, caps, pager.maxKeys, p, at, mid, nm);
    RemovedIsShort(pg, nf, head, free, caps, pager.maxKeys, p, at, mid, nm);
    if !pager.pages[p].isRoot && |pager.pages[p].cells| < LeafMin(cap) {
      LeafNodeRebalance(pager, p, cap);
      ElsewhereTrans(pg, nf, mid, nm, pager.pages, pager.nodes, nf[p].tree);
    } else {
      LongEnough(mid, nm, head, free, caps, pager.maxKeys, p);
    }
  }
}
