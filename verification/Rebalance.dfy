/** Repairing nodes that have fallen below their minimum, as far up as the root. */
module Rebalance {
  import opened Pages
  import opened Shape
  import opened Split
  import opened Root
  import opened Boundary
  import opened Merge
  import opened Pagers
  import opened Fill
  import opened NodeCells
  import opened LeafRemove
  import opened Insert

  // The file is sound except that node u may be one short of its minimum (or, as a root, of separators).
  ghost predicate Short(pg: seq<Page>, nf: Nodes, head: nat, free: seq<nat>, caps: map<nat, nat>, maxKeys: nat,
                        u: nat) {
    && Sound(pg, nf, head, free, caps, maxKeys, {}, {u})
    && u in nf && nf[u].tree in caps && 3 <= caps[nf[u].tree]
    && match pg[u]
       case Leaf(_, _, cells, _) => |cells| <= caps[nf[u].tree] &&
         (u != nf[u].tree ==> LeafMin(caps[nf[u].tree]) <= |cells| + 1)
       case Internal(_, _, entries, _) => |entries| <= maxKeys &&
         (u != nf[u].tree ==> InnerMin(maxKeys) <= |entries| + 1)
       case _ => false
  }

  ghost predicate ShortOf(pager: Pager, u: nat)
    reads pager
  {
    Short(pager.pages, pager.nodes, pager.freeHead, pager.free, pager.caps, pager.maxKeys, u)
  }

  // The node is full enough after all.
  lemma LongEnough(pg: seq<Page>, nf: Nodes, head: nat, free: seq<nat>, caps: map<nat, nat>, maxKeys: nat, u: nat)
    requires Short(pg, nf, head, free, caps, maxKeys, u)
    requires pg[u].Leaf? && u != nf[u].tree ==> LeafMin(caps[nf[u].tree]) <= |pg[u].cells|
    requires pg[u].Internal? ==> 1 <= |pg[u].entries| && (u != nf[u].tree ==> InnerMin(maxKeys) <= |pg[u].entries|)
    ensures Sound(pg, nf, head, free, caps, maxKeys, {}, {})
  {
    forall x | x in nf ensures FillAt(pg, nf, caps, maxKeys, x) {
      if x != u { assert FillAt(pg, nf, caps, maxKeys, x); }
    }
  }

  // ------------------------------------------------------------ collapsing the root

  method CollapseRootPages(pager: Pager, r: nat)
    requires r < |pager.pages| && pager.pages[r].Internal? && r != pager.pages[r].right
    requires pager.pages[r].right < |pager.pages| && IsNode(pager.pages[pager.pages[r].right])
    requires forall x :: x in Children(pager.pages[pager.pages[r].right]) ==>
      x < |pager.pages| && x != r && x != pager.pages[r].right && x !in pager.free
    requires FreeList(pager.pages, pager.freeHead, pager.free) && 0 < pager.pages[r].right
    requires pager.pages[r].right !in pager.free && r !in pager.free
    modifies pager`pages, pager`freeHead, pager`free
    ensures FreeList(pager.pages, pager.freeHead, pager.free)
    ensures pager.free == [old(pager.pages)[r].right] + old(pager.free) && |pager.pages| == |old(pager.pages)|
    ensures forall x {:trigger pager.pages[x]} :: 0 <= x < |pager.pages| && x != old(pager.pages)[r].right ==>
      pager.pages[x] == CollapsePage(old(pager.pages), r, x)
  {
    ghost var pg := pager.pages;
    var childPage := pager.pages[r].right;
    var child := pager.pages[childPage];
    pager.Set(r, match child
                 case Leaf(_, _, cells, next) => Leaf(true, 0, cells, next)
                 case Internal(_, _, entries, right) => Internal(true, 0, entries, right)
                 case other => other);
    if pager.pages[r].Internal? {
      SameKidSet(pager.pages[r], child);
      ReparentChildren(pager, r);
    }
    FreeListFrame(pg, pager.freeHead, pager.free, pager.pages);
    pager.FreePage(childPage);
  }


  // The file is sound; tree t holds the rows it held before, and no other tree was touched.
  ghost predicate Repaired(pg: seq<Page>, nf: Nodes, pg': seq<Page>, nf': Nodes, t: nat) {
    Rows(pg', nf', t) == Rows(pg, nf, t) && Elsewhere(pg, nf, pg', nf', t)
  }

  lemma RepairedTrans(a: seq<Page>, na: Nodes, b: seq<Page>, nb: Nodes, c: seq<Page>, nc: Nodes, t: nat)
    requires Repaired(a, na, b, nb, t) && Repaired(b, nb, c, nc, t)
    requires forall x :: x in na ==> x < |a|
    ensures Repaired(a, na, c, nc, t)
  {
    ElsewhereTrans(a, na, b, nb, c, nc, t);
  }

  lemma CollapseRows(pg: seq<Page>, nf: Nodes, r: nat, pg': seq<Page>)
    requires Collapsed(pg, nf, r, pg') && pg'[0] == pg[0]
    ensures Repaired(pg, nf, pg', CollapseNodes(nf, r, pg[r].right), r)
  {
    var l := pg[r].right;
    var nf' := CollapseNodes(nf, r, l);
    KidParent(pg, nf, r, 0);
    assert Kid(pg[r], 0) == l && Ok(pg, nf, l);
    CollapseKids(pg, nf, r, pg');
    forall c ensures c in Rows(pg', nf', r) <==> c in Rows(pg, nf, r) {
      if c in Rows(pg', nf', r) {
        var x :| x in nf' && nf'[x].tree == r && x < |pg'| && pg'[x].Leaf? && c in pg'[x].cells;
        if x == r { assert c in pg[l].cells; } else { assert c in pg[x].cells; }
      }
      if c in Rows(pg, nf, r) {
        var x :| x in nf && nf[x].tree == r && x < |pg| && pg[x].Leaf? && c in pg[x].cells;
        if x == l { assert c in pg'[r].cells; } else { assert c in pg'[x].cells; }
      }
    }
  }

  // Only nodes of the same tree name the collapsed child as their parent.
  lemma CollapseKids(pg: seq<Page>, nf: Nodes, r: nat, pg': seq<Page>)
    requires Collapsed(pg, nf, r, pg')
    ensures forall x :: x in nf && nf[x].tree != r ==> pg'[x] == pg[x]
    ensures forall x :: x in Children(pg[pg[r].right]) ==> x in nf && x != r && x != pg[r].right && nf[x].tree == r
  {
    var l := pg[r].right;
    KidParent(pg, nf, r, 0);
    assert Kid(pg[r], 0) == l && Ok(pg, nf, l);
    forall x | x in Children(pg[l]) ensures x in nf && x != r && x != l && nf[x].tree == r {
      var k :| 0 <= k <= |pg[l].entries| && Kid(pg[l], k) == x;
      KidInside(pg, nf, l, k);
      KidParent(pg, nf, l, k);
    }
  }

  lemma CollapseFilled(pg: seq<Page>, nf: Nodes, caps: map<nat, nat>, maxKeys: nat, r: nat, pg': seq<Page>)
    requires Collapsed(pg, nf, r, pg') && Filled(pg, nf, caps, maxKeys, {r})
    ensures Filled(pg', CollapseNodes(nf, r, pg[r].right), caps, maxKeys, {})
  {
    var l := pg[r].right;
    var nf' := CollapseNodes(nf, r, l);
    KidParent(pg, nf, r, 0);
    assert Kid(pg[r], 0) == l && FillAt(pg, nf, caps, maxKeys, l);
    forall x | x in nf' ensures FillAt(pg', nf', caps, maxKeys, x) {
      if x != r { assert FillAt(pg, nf, caps, maxKeys, x); }
    }
  }

  lemma Freed(pg: seq<Page>, nf: Nodes, free: seq<nat>, p: nat, pg': seq<Page>, nf': Nodes, free': seq<nat>)
    requires Accounted(pg, nf, free, {}) && p in nf && nf'.Keys == nf.Keys - {p} && free' == [p] + free
    requires |pg'| == |pg| && pg'[0] == pg[0]
    ensures Accounted(pg', nf', free', {})
  {
  }

  method CollapseRoot(pager: Pager, r: nat)
    requires ShortOf(pager, r) && pager.nodes[r].tree == r && pager.pages[r].Internal? && pager.pages[r].entries == []
    modifies pager
    ensures Valid(pager) && pager.caps == old(pager.caps)
    ensures Repaired(old(pager.pages), old(pager.nodes), pager.pages, pager.nodes, r)
    ensures pager.free == [old(pager.pages)[r].right] + old(pager.free)
  {
    ghost var pg, nf, free := pager.pages, pager.nodes, pager.free;
    ghost var l := pg[r].right;
    KidParent(pg, nf, r, 0);
    assert Kid(pg[r], 0) == l && Ok(pg, nf, l) && Ok(pg, nf, r);
    assert Collapsed(pg, nf, r, seq(|pg|, x requires 0 <= x < |pg| => CollapsePage(pg, r, x)));
    CollapseKids(pg, nf, r, seq(|pg|, x requires 0 <= x < |pg| => CollapsePage(pg, r, x)));
    CollapseRootPages(pager, r);
    CollapseShaped(pg, nf, r, pager.pages);
    CollapseFilled(pg, nf, pager.caps, pager.maxKeys, r, pager.pages);
    pager.nodes := CollapseNodes(nf, r, l);
    assert 0 !in Children(pg[l]);
    CollapseRows(pg, nf, r, pager.pages);
    Freed(pg, nf, free, l, pager.pages, pager.nodes, pager.free);
  }

  // ------------------------------------------------------------ moving cells between leaves

  lemma RecutRows(pg: seq<Page>, nf: Nodes, u: nat, i: int, a: nat, p: nat, ca: seq<Cell>, cp: seq<Cell>)
    requires Siblings(pg, nf, u, i, a, p) && a in nf && p in nf && pg[p].Leaf? && pg[a].Leaf? && |ca| > 0
    requires forall c :: c in ca || c in cp <==> c in pg[a].cells || c in pg[p].cells
    requires |pg| > 0
    ensures Rows(LeafRecutPages(pg, u, i, a, p, ca, cp), Recut(nf, a, p, ca[|ca| - 1].key), nf[u].tree) ==
      Rows(pg, nf, nf[u].tree)
  {
    SiblingFacts(pg, nf, u, i, a, p);
    var pg', nf', t := LeafRecutPages(pg, u, i, a, p, ca, cp), Recut(nf, a, p, ca[|ca| - 1].key), nf[u].tree;
    forall c ensures c in Rows(pg', nf', t) <==> c in Rows(pg, nf, t) {
      if c in Rows(pg', nf', t) {
        var x :| x in nf' && nf'[x].tree == t && x < |pg'| && pg'[x].Leaf? && c in pg'[x].cells;
        if x == a || x == p { assert c in pg[a].cells || c in pg[p].cells; } else { assert c in pg[x].cells; }
      }
      if c in Rows(pg, nf, t) {
        var x :| x in nf && nf[x].tree == t && x < |pg| && pg[x].Leaf? && c in pg[x].cells;
        if x == a || x == p { assert c in pg'[a].cells || c in pg'[p].cells; } else { assert c in pg'[x].cells; }
      }
    }
  }

  lemma RecutElsewhere(pg: seq<Page>, nf: Nodes, u: nat, i: int, a: nat, p: nat, ca: seq<Cell>, cp: seq<Cell>)
    requires Siblings(pg, nf, u, i, a, p) && a in nf && p in nf && pg[p].Leaf? && pg[a].Leaf? && |ca| > 0
    requires |pg| > 0
    ensures Elsewhere(pg, nf, LeafRecutPages(pg, u, i, a, p, ca, cp), Recut(nf, a, p, ca[|ca| - 1].key), nf[u].tree)
  {
    SiblingFacts(pg, nf, u, i, a, p);
  }

  ghost predicate LeafBorrow(pg: seq<Page>, nf: Nodes, caps: map<nat, nat>, u: nat, i: int, a: nat, p: nat,
                             ca: seq<Cell>, cp: seq<Cell>) {
    && Siblings(pg, nf, u, i, a, p) && a in nf && p in nf && pg[p].Leaf? && pg[a].Leaf?
    && nf[u].tree in caps
    && ca + cp == pg[a].cells + pg[p].cells
    && LeafMin(caps[nf[u].tree]) <= |ca| <= caps[nf[u].tree]
    && LeafMin(caps[nf[u].tree]) <= |cp| <= caps[nf[u].tree]
  }

  lemma LeafBorrowSound(pg: seq<Page>, nf: Nodes, head: nat, free: seq<nat>, caps: map<nat, nat>, maxKeys: nat, s: nat,
                        u: nat, i: int, a: nat, p: nat, ca: seq<Cell>, cp: seq<Cell>)
    requires Short(pg, nf, head, free, caps, maxKeys, s) && (s == a || s == p)
    requires LeafBorrow(pg, nf, caps, u, i, a, p, ca, cp)
    ensures |ca| > 0
    ensures Sound(LeafRecutPages(pg, u, i, a, p, ca, cp), Recut(nf, a, p, ca[|ca| - 1].key), head, free, caps, maxKeys,
                  {}, {})
    ensures Repaired(pg, nf, LeafRecutPages(pg, u, i, a, p, ca, cp), Recut(nf, a, p, ca[|ca| - 1].key), nf[u].tree)
  {
    SiblingFacts(pg, nf, u, i, a, p);
    assert FillAt(pg, nf, caps, maxKeys, u);
    BorrowCells(pg, nf, u, i, a, p, ca, cp);
    var pg', nf' := LeafRecutPages(pg, u, i, a, p, ca, cp), Recut(nf, a, p, ca[|ca| - 1].key);
    LeafRecutShaped(pg, nf, u, i, a, p, ca, cp);
    RecutRows(pg, nf, u, i, a, p, ca, cp);
    RecutElsewhere(pg, nf, u, i, a, p, ca, cp);
    RecutFilled(pg, nf, caps, maxKeys, s, u, i, a, p, ca, cp);
    NodesWritten(pg, nf, head, free, {}, pg');
  }

  lemma RecutFilled(pg: seq<Page>, nf: Nodes, caps: map<nat, nat>, maxKeys: nat, s: nat,
                    u: nat, i: int, a: nat, p: nat, ca: seq<Cell>, cp: seq<Cell>)
    requires Filled(pg, nf, caps, maxKeys, {s}) && (s == a || s == p) && LeafBorrow(pg, nf, caps, u, i, a, p, ca, cp)
    requires |ca| > 0
    ensures Filled(LeafRecutPages(pg, u, i, a, p, ca, cp), Recut(nf, a, p, ca[|ca| - 1].key), caps, maxKeys, {})
  {
    SiblingFacts(pg, nf, u, i, a, p);
    assert FillAt(pg, nf, caps, maxKeys, u);
    var pg', nf' := LeafRecutPages(pg, u, i, a, p, ca, cp), Recut(nf, a, p, ca[|ca| - 1].key);
    forall x | x in nf' ensures FillAt(pg', nf', caps, maxKeys, x) {
      if x != a && x != p { assert FillAt(pg, nf, caps, maxKeys, x); }
    }
  }

  lemma BorrowCells(pg: seq<Page>, nf: Nodes, u: nat, i: int, a: nat, p: nat, ca: seq<Cell>, cp: seq<Cell>)
    requires Siblings(pg, nf, u, i, a, p) && a in nf && p in nf && pg[p].Leaf? && pg[a].Leaf?
    requires ca + cp == pg[a].cells + pg[p].cells && |ca| > 0 && |cp| > 0
    ensures LeafRecut(nf, a, p, ca, cp)
    ensures forall c :: c in ca || c in cp <==> c in pg[a].cells || c in pg[p].cells
  {
    SiblingFacts(pg, nf, u, i, a, p);
    var all := pg[a].cells + pg[p].cells;
    assert |pg[p].cells| > 0;
    assert all[|all| - 1] == pg[p].cells[|pg[p].cells| - 1] && (ca + cp)[|all| - 1] == cp[|cp| - 1];
    forall c ensures c in ca || c in cp <==> c in pg[a].cells || c in pg[p].cells {
      assert c in ca + cp <==> c in all;
    }
  }

  // The left leaf's last cell moves to the front of its right sibling.
  method MoveLastToFront(left: seq<Cell>, node: seq<Cell>, cap: nat) returns (left': seq<Cell>, node': seq<Cell>)
    requires 0 < |left| <= cap && |node| < cap
    ensures left' == left[..|left| - 1] && node' == [left[|left| - 1]] + node
  {
    var slots := Slots(node, cap, Cell(0, []));
    InsertCell(slots, |node|, 0, left[|left| - 1]);
    var leftSlots := Slots(left, cap, Cell(0, []));
    RemoveCell(leftSlots, |left|, |left| - 1);
    left', node' := leftSlots[..|left| - 1], slots[..|node| + 1];
  }

  // The right leaf's first cell moves to the end of its left sibling.
  method MoveFirstToEnd(node: seq<Cell>, right: seq<Cell>, cap: nat) returns (node': seq<Cell>, right': seq<Cell>)
    requires 0 < |right| <= cap && |node| < cap
    ensures node' == node + [right[0]] && right' == right[1..]
  {
    var slots := Slots(node, cap, Cell(0, []));
    InsertCell(slots, |node|, |node|, right[0]);
    var rightSlots := Slots(right, cap, Cell(0, []));
    RemoveCell(rightSlots, |right|, 0);
    node', right' := slots[..|node| + 1], rightSlots[..|right| - 1];
  }

  // Leaf `s` is one cell short; its sibling, the other of a and p, can spare one.
  ghost predicate CanBorrow(pager: Pager, s: nat, u: nat, i: int, a: nat, p: nat, cap: nat)
    reads pager
  {
    var pg, nf := pager.pages, pager.nodes;
    && ShortOf(pager, s) && Siblings(pg, nf, u, i, a, p) && a in nf && p in nf && pg[a].Leaf? && pg[p].Leaf?
    && nf[u].tree in pager.caps && cap == pager.caps[nf[u].tree] && 3 <= cap && (s == a || s == p)
    && |pg[s].cells| + 1 == LeafMin(cap) && LeafMin(cap) < |pg[if s == a then p else a].cells| <= cap
  }

  // The left leaf's last cell has moved to the front of the right one, and the separator between them follows.
  ghost predicate LastCellMoved(pg: seq<Page>, u: nat, i: int, a: nat, p: nat, pg': seq<Page>) {
    && u < |pg| && a < |pg| && p < |pg| && pg[u].Internal? && pg[a].Leaf? && pg[p].Leaf?
    && 1 <= i <= |pg[u].entries| && 1 < |pg[a].cells|
    && var left, right := pg[a].cells, pg[p].cells;
       pg' == pg[a := pg[a].(cells := left[..|left| - 1])][p := pg[p].(cells := [left[|left| - 1]] + right)]
                [u := Relabel(pg[u], i - 1, left[|left| - 2].key)]
  }

  // The right leaf's first cell has moved to the end of the left one.
  ghost predicate FirstCellMoved(pg: seq<Page>, u: nat, i: int, a: nat, p: nat, pg': seq<Page>) {
    && u < |pg| && a < |pg| && p < |pg| && pg[u].Internal? && pg[a].Leaf? && pg[p].Leaf?
    && 1 <= i <= |pg[u].entries| && 0 < |pg[p].cells|
    && var left, right := pg[a].cells, pg[p].cells;
       pg' == pg[a := pg[a].(cells := left + [right[0]])][p := pg[p].(cells := right[1..])]
                [u := Relabel(pg[u], i - 1, right[0].key)]
  }

  // Writes the two leaves' new cells and the separator between them.
  method WriteLeaves(pager: Pager, a: nat, p: nat, u: nat, i: nat, ca: seq<Cell>, cp: seq<Cell>, key: int, ghost s: nat)
    requires ShortOf(pager, s) && (s == a || s == p)
    requires LeafBorrow(pager.pages, pager.nodes, pager.caps, u, i, a, p, ca, cp) && |ca| > 0 && key == ca[|ca| - 1].key
    modifies pager
    ensures Valid(pager) && pager.caps == old(pager.caps)
    ensures Repaired(old(pager.pages), old(pager.nodes), pager.pages, pager.nodes, old(pager.nodes)[u].tree)
    ensures pager.pages == LeafRecutPages(old(pager.pages), u, i, a, p, ca, cp) && pager.free == old(pager.free)
  {
    var pg := pager.pages;
    ghost var nf := pager.nodes;
    LeafBorrowSound(pg, nf, pager.freeHead, pager.free, pager.caps, pager.maxKeys, s, u, i, a, p, ca, cp);
    pager.Set(a, pg[a].(cells := ca));
    pager.Set(p, pg[p].(cells := cp));
    pager.Set(u, Relabel(pg[u], i - 1, key));
    pager.nodes := Recut(nf, a, p, key);
  }

  method BorrowFromLeftLeaf(pager: Pager, a: nat, p: nat, u: nat, i: nat, cap: nat)
    requires CanBorrow(pager, p, u, i, a, p, cap)
    modifies pager
    ensures Valid(pager) && pager.caps == old(pager.caps)
    ensures Repaired(old(pager.pages), old(pager.nodes), pager.pages, pager.nodes, old(pager.nodes)[u].tree)
    ensures LastCellMoved(old(pager.pages), u, i, a, p, pager.pages) && pager.free == old(pager.free)
  {
    var left, node := pager.pages[a].cells, pager.pages[p].cells;
    var ca, cp := MoveLastToFront(left, node, cap);
    assert ca + cp == left + node;
    WriteLeaves(pager, a, p, u, i, ca, cp, left[|left| - 2].key, p);
  }

  method BorrowFromRightLeaf(pager: Pager, a: nat, p: nat, u: nat, i: nat, cap: nat)
    requires CanBorrow(pager, a, u, i, a, p, cap)
    modifies pager
    ensures Valid(pager) && pager.caps == old(pager.caps)
    ensures Repaired(old(pager.pages), old(pager.nodes), pager.pages, pager.nodes, old(pager.nodes)[u].tree)
    ensures FirstCellMoved(old(pager.pages), u, i, a, p, pager.pages) && pager.free == old(pager.free)
  {
    var node, right := pager.pages[a].cells, pager.pages[p].cells;
    var ca, cp := MoveFirstToEnd(node, right, cap);
    assert ca + cp == node + right;
    WriteLeaves(pager, a, p, u, i, ca, cp, ca[|node|].key, a);
  }

  // ------------------------------------------------------------ merging

  lemma MergeElsewhere(pg: seq<Page>, nf: Nodes, u: nat, i: int, a: nat, p: nat, pg': seq<Page>)
    requires Merged(pg, nf, u, i, a, p, pg') && |pg| > 0 && pg'[0] == pg[0]
    ensures Elsewhere(pg, nf, pg', MergeNodes(nf, a, p), nf[u].tree)
  {
    SiblingFacts(pg, nf, u, i, a, p);
    forall x | x in nf && nf[x].tree != nf[u].tree ensures pg'[x] == pg[x] {
      if pg[p].Internal? && x in KidSet(pg[p]) {
        var k :| 0 <= k <= |pg[p].entries| && Kid(pg[p], k) == x;
        KidInside(pg, nf, p, k);
      }
    }
  }

  lemma MergeRows(pg: seq<Page>, nf: Nodes, u: nat, i: int, a: nat, p: nat, pg': seq<Page>)
    requires Merged(pg, nf, u, i, a, p, pg')
    ensures Rows(pg', MergeNodes(nf, a, p), nf[u].tree) == Rows(pg, nf, nf[u].tree)
  {
    SiblingFacts(pg, nf, u, i, a, p);
    var nf', t := MergeNodes(nf, a, p), nf[u].tree;
    forall c ensures c in Rows(pg', nf', t) <==> c in Rows(pg, nf, t) {
      if c in Rows(pg', nf', t) {
        var x :| x in nf' && nf'[x].tree == t && x < |pg'| && pg'[x].Leaf? && c in pg'[x].cells;
        if x == a { assert c in pg[a].cells || c in pg[p].cells; } else { assert pg[x].Leaf? && c in pg[x].cells; }
      }
      if c in Rows(pg, nf, t) {
        var x :| x in nf && nf[x].tree == t && x < |pg| && pg[x].Leaf? && c in pg[x].cells;
        if x == a || x == p { assert c in pg'[a].cells; } else { assert pg'[x].Leaf? && c in pg'[x].cells; }
      }
    }
  }

  // The two siblings fit in one node.
  ghost predicate Fits(pg: seq<Page>, caps: map<nat, nat>, maxKeys: nat, t: nat, a: nat, p: nat) {
    && a < |pg| && p < |pg| && t in caps && 3 <= caps[t]
    && (pg[a].Leaf? <==> pg[p].Leaf?) && IsNode(pg[a]) && IsNode(pg[p])
    && (pg[a].Leaf? ==> LeafMin(caps[t]) <= |pg[a].cells| + |pg[p].cells| <= caps[t])
    && (pg[a].Internal? ==> InnerMin(maxKeys) <= |pg[a].entries| + |pg[p].entries| + 1 <= maxKeys)
  }

  lemma MergeFilled(pg: seq<Page>, nf: Nodes, caps: map<nat, nat>, maxKeys: nat, s: nat, u: nat, i: int, a: nat, p: nat,
                    pg': seq<Page>)
    requires Merged(pg, nf, u, i, a, p, pg') && (s == a || s == p) && Filled(pg, nf, caps, maxKeys, {s})
    requires Fits(pg, caps, maxKeys, nf[u].tree, a, p)
    ensures Filled(pg', MergeNodes(nf, a, p), caps, maxKeys, {u})
    ensures pg'[u].Internal? && |pg'[u].entries| <= maxKeys
    ensures (u != nf[u].tree ==> InnerMin(maxKeys) <= |pg'[u].entries| + 1)
  {
    SiblingFacts(pg, nf, u, i, a, p);
    var nf' := MergeNodes(nf, a, p);
    assert FillAt(pg, nf, caps, maxKeys, u);
    forall x | x in nf' && x != u ensures FillAt(pg', nf', caps, maxKeys, x) {
      if x != a { assert FillAt(pg, nf, caps, maxKeys, x); }
    }
  }

  lemma MergeShort(pg: seq<Page>, nf: Nodes, head: nat, free: seq<nat>, caps: map<nat, nat>, maxKeys: nat, s: nat,
                   u: nat, i: int, a: nat, p: nat, pg': seq<Page>, head': nat, free': seq<nat>)
    requires Short(pg, nf, head, free, caps, maxKeys, s) && (s == a || s == p)
    requires Merged(pg, nf, u, i, a, p, pg') && Fits(pg, caps, maxKeys, nf[u].tree, a, p)
    requires FreeList(pg', head', free') && free' == [p] + free && pg'[0] == pg[0]
    ensures Short(pg', MergeNodes(nf, a, p), head', free', caps, maxKeys, u)
    ensures Repaired(pg, nf, pg', MergeNodes(nf, a, p), nf[u].tree)
  {
    MergeShaped(pg, nf, u, i, a, p, pg');
    MergeFilled(pg, nf, caps, maxKeys, s, u, i, a, p, pg');
    MergeRows(pg, nf, u, i, a, p, pg');
    MergeElsewhere(pg, nf, u, i, a, p, pg');
    Freed(pg, nf, free, p, pg', MergeNodes(nf, a, p), free');
  }

  // Takes child i out of page u after its contents have gone to child i - 1.
  method InternalNodeRemoveChild(pager: Pager, u: nat, i: nat)
    requires u < |pager.pages| && pager.pages[u].Internal? && 1 <= i <= |pager.pages[u].entries|
    modifies pager`pages
    ensures pager.pages == old(pager.pages)[u := RemoveKid(old(pager.pages)[u], i)]
  {
    var node := pager.pages[u];
    var numKeys := |node.entries|;
    if i == numKeys {
      pager.Set(u, node.(entries := node.entries[..numKeys - 1], right := node.entries[numKeys - 1].child));
    } else {
      var slots := Slots(node.entries, numKeys, Entry(0, 0));
      slots[i - 1] := Entry(slots[i - 1].child, slots[i].key);
      assert slots[..numKeys] == node.entries[i - 1 := Entry(node.entries[i - 1].child, node.entries[i].key)];
      RemoveCell(slots, numKeys, i);
      assert slots[..numKeys - 1] == RemoveKid(node, i).entries;
      pager.Set(u, node.(entries := slots[..numKeys - 1]));
    }
  }

  method LeafNodeMerge(pager: Pager, left: nat, right: nat)
    requires left < |pager.pages| && 0 < right < |pager.pages| && pager.pages[left].Leaf? && pager.pages[right].Leaf?
    requires left != right
    requires FreeList(pager.pages, pager.freeHead, pager.free) && left !in pager.free && right !in pager.free
    modifies pager`pages, pager`freeHead, pager`free
    ensures FreeList(pager.pages, pager.freeHead, pager.free) && pager.free == [right] + old(pager.free)
    ensures var l, r := old(pager.pages)[left], old(pager.pages)[right];
      pager.pages == old(pager.pages)[left := l.(cells := l.cells + r.cells, next := r.next)]
                                     [right := Free(old(pager.freeHead))]
  {
    ghost var pg := pager.pages;
    var l, r := pager.pages[left], pager.pages[right];
    pager.Set(left, l.(cells := l.cells + r.cells, next := r.next));
    FreeListFrame(pg, pager.freeHead, pager.free, pager.pages);
    pager.FreePage(right);
  }

  // Points children `from` and later of the internal node on page p back at p.
  method ReparentTail(pager: Pager, p: nat, from: nat, ghost tail: Page)
    requires p < |pager.pages| && pager.pages[p].Internal? && tail.Internal?
    requires from + |tail.entries| == |pager.pages[p].entries|
    requires forall j :: 0 <= j <= |tail.entries| ==> Kid(pager.pages[p], from + j) == Kid(tail, j)
    requires forall x :: x in KidSet(tail) ==> x < |pager.pages| && x != p
    modifies pager`pages
    ensures pager.pages == Reparent(old(pager.pages), KidSet(tail), p)
  {
    var node := pager.pages[p];
    ghost var before := pager.pages;
    var i := from;
    ghost var done: set<nat> := {};
    while i <= |node.entries|
      invariant from <= i <= |node.entries| + 1
      invariant done == set j | 0 <= j < i - from :: Kid(tail, j)
      invariant done <= KidSet(tail)
      invariant pager.pages == Reparent(before, done, p)
    {
      var c := Kid(node, i);
      assert c == Kid(tail, i - from) && c in KidSet(tail);
      pager.pages := pager.pages[c := SetParent(pager.pages[c], p)];
      done := done + {c};
      i := i + 1;
    }
    assert done == KidSet(tail);
  }

  method InternalNodeMerge(pager: Pager, left: nat, right: nat, separator: int)
    requires left < |pager.pages| && 0 < right < |pager.pages| && pager.pages[left].Internal?
    requires pager.pages[right].Internal? && left != right
    requires FreeList(pager.pages, pager.freeHead, pager.free) && left !in pager.free && right !in pager.free
    requires forall x :: x in KidSet(pager.pages[right]) ==>
      x < |pager.pages| && x != left && x != right && x !in pager.free
    modifies pager`pages, pager`freeHead, pager`free
    ensures FreeList(pager.pages, pager.freeHead, pager.free) && pager.free == [right] + old(pager.free)
    ensures |pager.pages| == |old(pager.pages)|
    ensures forall x {:trigger pager.pages[x]} :: 0 <= x < |pager.pages| && x != right ==>
      pager.pages[x] == (if x == left then Join(old(pager.pages)[left], separator, old(pager.pages)[right])
                         else if x in KidSet(old(pager.pages)[right]) then SetParent(old(pager.pages)[x], left)
                         else old(pager.pages)[x])
  {
    ghost var pg := pager.pages;
    var l, r := pager.pages[left], pager.pages[right];
    pager.Set(left, Join(l, separator, r));
    forall j | 0 <= j <= |r.entries| ensures Kid(pager.pages[left], |l.entries| + 1 + j) == Kid(r, j) {
      JoinKids(l, separator, r, |l.entries| + 1 + j);
    }
    ReparentTail(pager, left, |l.entries| + 1, r);
    FreeListFrame(pg, pager.freeHead, pager.free, pager.pages);
    pager.FreePage(right);
  }

  // ------------------------------------------------------------ moving a child between internal nodes

  // One child, the m-th of the two siblings together, has moved from one to the other.
  ghost predicate KidMoved(pg: seq<Page>, nf: Nodes, u: nat, i: int, a: nat, p: nat, j: int, m: int, pg': seq<Page>) {
    && InnerRecutPre(pg, nf, u, i, a, p, j) && 0 <= m <= |pg[a].entries| + |pg[p].entries| + 1 && u < |pg|
    && |pg'| == |pg|
    && var n := |pg[a].entries|;
       var c := Join(pg[a], pg[u].entries[i - 1].key, pg[p]);
    && ((j == n - 1 && m == n) || (j == n + 1 && m == n + 1))
    && pg'[a] == LowerHalf(c, j)
    && pg'[p] == Internal(false, pg[p].parent, c.entries[j + 1..], c.right)
    && pg'[u] == Relabel(pg[u], i - 1, c.entries[j].key)
    && forall x {:trigger pg'[x]} :: 0 <= x < |pg| && x != a && x != p && x != u ==>
         pg'[x] == if x == Kid(c, m) then SetParent(pg[x], if m <= j then a else p) else pg[x]
  }

  // A child of the joined page, by which half it falls in.
  lemma JoinHalfParent(pg: seq<Page>, nf: Nodes, u: nat, i: int, a: nat, p: nat, j: int, m: int, pg': seq<Page>, x: nat)
    requires KidMoved(pg, nf, u, i, a, p, j, m, pg')
    ensures var c := Join(pg[a], pg[u].entries[i - 1].key, pg[p]);
      && (x in KidSet(LowerHalf(c, j)) || x in KidSet(UpperHalf(c, j)) ==> x in nf && x != a && x != p && x != u)
      && (x in KidSet(LowerHalf(c, j)) ==> if x == Kid(c, m) then m <= j else pg[x].parent == a)
      && (x in KidSet(UpperHalf(c, j)) ==> if x == Kid(c, m) then m > j else pg[x].parent == p)
  {
    var c := Join(pg[a], pg[u].entries[i - 1].key, pg[p]);
    var n := |pg[a].entries|;
    SiblingFacts(pg, nf, u, i, a, p);
    JoinKidFacts(pg, nf, u, i, a, p, m);
    if x in KidSet(LowerHalf(c, j)) {
      var k :| 0 <= k <= |LowerHalf(c, j).entries| && Kid(LowerHalf(c, j), k) == x;
      HalvesKids(c, j, k);
      JoinKidFacts(pg, nf, u, i, a, p, k);
      JoinKidOnce(pg, nf, u, i, a, p, k, m);
    }
    if x in KidSet(UpperHalf(c, j)) {
      var k :| 0 <= k <= |UpperHalf(c, j).entries| && Kid(UpperHalf(c, j), k) == x;
      HalvesKids(c, j, k);
      JoinKidFacts(pg, nf, u, i, a, p, k + j + 1);
      JoinKidOnce(pg, nf, u, i, a, p, k + j + 1, m);
    }
  }

  lemma JoinKidOnce(pg: seq<Page>, nf: Nodes, u: nat, i: int, a: nat, p: nat, k: int, m: int)
    requires InnerRecutPre(pg, nf, u, i, a, p, 0)
    requires 0 <= k <= |pg[a].entries| + |pg[p].entries| + 1 && 0 <= m <= |pg[a].entries| + |pg[p].entries| + 1
    ensures var c := Join(pg[a], pg[u].entries[i - 1].key, pg[p]); Kid(c, k) == Kid(c, m) ==> k == m
  {
    SiblingFacts(pg, nf, u, i, a, p);
    var n, s := |pg[a].entries|, pg[u].entries[i - 1].key;
    JoinKidFacts(pg, nf, u, i, a, p, k);
    JoinKidFacts(pg, nf, u, i, a, p, m);
    JoinKids(pg[a], s, pg[p], k);
    JoinKids(pg[a], s, pg[p], m);
    if Kid(Join(pg[a], s, pg[p]), k) == Kid(Join(pg[a], s, pg[p]), m) {
      if k <= n { KidOnce(pg, nf, a, k, m); } else { KidOnce(pg, nf, p, k - n - 1, m - n - 1); }
    }
  }

  lemma KidMovedRecuts(pg: seq<Page>, nf: Nodes, u: nat, i: int, a: nat, p: nat, j: int, m: int, pg': seq<Page>)
    requires KidMoved(pg, nf, u, i, a, p, j, m, pg')
    ensures InnerRecut(pg, nf, u, i, a, p, j, pg')
  {
    var c := Join(pg[a], pg[u].entries[i - 1].key, pg[p]);
    SiblingFacts(pg, nf, u, i, a, p);
    HalvesCoverKid(c, j, m);
    forall x | x in nf ensures pg'[x] == InnerRecutPage(pg, nf, u, i, a, p, j, x) {
      JoinHalfParent(pg, nf, u, i, a, p, j, m, pg', x);
    }
  }

  lemma HalvesCoverKid(c: Page, j: int, m: int)
    requires c.Internal? && 0 <= j < |c.entries| && 0 <= m <= |c.entries|
    ensures Kid(c, m) in KidSet(LowerHalf(c, j)) || Kid(c, m) in KidSet(UpperHalf(c, j))
  {
    if m <= j {
      HalvesKids(c, j, m);
      assert Kid(LowerHalf(c, j), m) in KidSet(LowerHalf(c, j));
    } else {
      HalvesKids(c, j, m - j - 1);
      assert Kid(UpperHalf(c, j), m - j - 1) in KidSet(UpperHalf(c, j));
    }
  }

  // Which pages such a move can touch, and how.
  lemma KidMovedPages(pg: seq<Page>, nf: Nodes, u: nat, i: int, a: nat, p: nat, j: int, m: int, pg': seq<Page>)
    requires KidMoved(pg, nf, u, i, a, p, j, m, pg') && |pg| > 0
    ensures |pg'[a].entries| == j && |pg'[p].entries| == |pg[a].entries| + |pg[p].entries| - j
    ensures |pg'[u].entries| == |pg[u].entries|
    ensures forall x {:trigger pg'[x]} :: 0 <= x < |pg| && x !in nf ==> pg'[x] == pg[x]
    ensures forall x {:trigger pg'[x]} :: x in nf && nf[x].tree != nf[u].tree ==> pg'[x] == pg[x]
    ensures forall x {:trigger pg'[x]} :: x in nf && x != a && x != p && x != u ==>
      SetParent(pg'[x], 0) == SetParent(pg[x], 0)
    ensures pg'[0] == pg[0] && a in nf && p in nf && u in nf && pg'[a].Internal? && pg'[p].Internal? && pg'[u].Internal?
    ensures nf[a].tree == nf[u].tree && nf[p].tree == nf[u].tree && a != nf[u].tree && p != nf[u].tree
  {
    SiblingFacts(pg, nf, u, i, a, p);
    JoinKidFacts(pg, nf, u, i, a, p, m);
  }

  lemma InnerBorrowSound(pg: seq<Page>, nf: Nodes, head: nat, free: seq<nat>, caps: map<nat, nat>, maxKeys: nat, s: nat,
                         u: nat, i: int, a: nat, p: nat, j: int, m: int, pg': seq<Page>)
    requires Short(pg, nf, head, free, caps, maxKeys, s) && (s == a || s == p)
    requires KidMoved(pg, nf, u, i, a, p, j, m, pg')
    requires InnerMin(maxKeys) <= j <= maxKeys
    requires InnerMin(maxKeys) <= |pg[a].entries| + |pg[p].entries| - j <= maxKeys
    ensures Sound(pg', Recut(nf, a, p, CutKey(pg, nf, u, i, a, p, j)), head, free, caps, maxKeys, {}, {})
    ensures Repaired(pg, nf, pg', Recut(nf, a, p, CutKey(pg, nf, u, i, a, p, j)), nf[u].tree)
  {
    var nf' := Recut(nf, a, p, CutKey(pg, nf, u, i, a, p, j));
    KidMovedRecuts(pg, nf, u, i, a, p, j, m, pg');
    InnerRecutShaped(pg, nf, u, i, a, p, j, pg');
    KidMovedPages(pg, nf, u, i, a, p, j, m, pg');
    KidMovedFilled(pg, nf, caps, maxKeys, s, u, i, a, p, j, m, pg');
    NodesWritten(pg, nf, head, free, {}, pg');
    assert nf'.Keys == nf.Keys;
    KidMovedRepaired(pg, nf, u, i, a, p, j, m, pg');
  }

  lemma KidMovedRepaired(pg: seq<Page>, nf: Nodes, u: nat, i: int, a: nat, p: nat, j: int, m: int, pg': seq<Page>)
    requires KidMoved(pg, nf, u, i, a, p, j, m, pg') && |pg| > 0
    ensures Repaired(pg, nf, pg', Recut(nf, a, p, CutKey(pg, nf, u, i, a, p, j)), nf[u].tree)
  {
    KidMovedPages(pg, nf, u, i, a, p, j, m, pg');
    RowsKept(pg, nf, pg', Recut(nf, a, p, CutKey(pg, nf, u, i, a, p, j)), nf[u].tree);
    KidMovedElsewhere(pg, nf, u, i, a, p, j, m, pg');
  }

  lemma KidMovedElsewhere(pg: seq<Page>, nf: Nodes, u: nat, i: int, a: nat, p: nat, j: int, m: int, pg': seq<Page>)
    requires KidMoved(pg, nf, u, i, a, p, j, m, pg') && |pg| > 0
    ensures Elsewhere(pg, nf, pg', Recut(nf, a, p, CutKey(pg, nf, u, i, a, p, j)), nf[u].tree)
  {
    KidMovedPages(pg, nf, u, i, a, p, j, m, pg');
  }

  lemma KidMovedFilled(pg: seq<Page>, nf: Nodes, caps: map<nat, nat>, maxKeys: nat, s: nat,
                       u: nat, i: int, a: nat, p: nat, j: int, m: int, pg': seq<Page>)
    requires Filled(pg, nf, caps, maxKeys, {s}) && (s == a || s == p) && |pg| > 0
    requires KidMoved(pg, nf, u, i, a, p, j, m, pg')
    requires InnerMin(maxKeys) <= j <= maxKeys
    requires InnerMin(maxKeys) <= |pg[a].entries| + |pg[p].entries| - j <= maxKeys
    ensures Filled(pg', Recut(nf, a, p, CutKey(pg, nf, u, i, a, p, j)), caps, maxKeys, {})
  {
    var nf' := Recut(nf, a, p, CutKey(pg, nf, u, i, a, p, j));
    SiblingFacts(pg, nf, u, i, a, p);
    KidMovedPages(pg, nf, u, i, a, p, j, m, pg');
    assert FillAt(pg, nf, caps, maxKeys, u);
    forall x | x in nf' ensures FillAt(pg', nf', caps, maxKeys, x) {
      if x != a && x != p { assert FillAt(pg, nf, caps, maxKeys, x); }
    }
  }

  // ------------------------------------------------------------ internal borrowing

  // Internal node `s` is one separator short; its sibling, the other of a and p, can spare one.
  ghost predicate Spares(pg: seq<Page>, nf: Nodes, maxKeys: nat, s: nat, u: nat, i: int, a: nat, p: nat) {
    && Siblings(pg, nf, u, i, a, p) && a in nf && p in nf && pg[a].Internal? && pg[p].Internal?
    && (s == a || s == p)
    && |pg[s].entries| + 1 == InnerMin(maxKeys)
    && InnerMin(maxKeys) < |pg[if s == a then p else a].entries| <= maxKeys
  }

  lemma SparesFacts(pg: seq<Page>, nf: Nodes, maxKeys: nat, s: nat, u: nat, i: int, a: nat, p: nat)
    requires Spares(pg, nf, maxKeys, s, u, i, a, p)
    ensures a < |pg| && p < |pg| && u < |pg| && a != p && a != u && p != u && !pg[p].isRoot
    ensures pg[p].parent == u
    ensures forall m :: 0 <= m <= |pg[a].entries| ==>
      Kid(pg[a], m) < |pg| && Kid(pg[a], m) != a && Kid(pg[a], m) != p && Kid(pg[a], m) != u
    ensures forall m :: 0 <= m <= |pg[p].entries| ==>
      Kid(pg[p], m) < |pg| && Kid(pg[p], m) != a && Kid(pg[p], m) != p && Kid(pg[p], m) != u
  {
    SiblingFacts(pg, nf, u, i, a, p);
    forall m | 0 <= m <= |pg[a].entries|
      ensures Kid(pg[a], m) < |pg| && Kid(pg[a], m) != a && Kid(pg[a], m) != p && Kid(pg[a], m) != u
    {
      KidInside(pg, nf, a, m);
    }
    forall m | 0 <= m <= |pg[p].entries|
      ensures Kid(pg[p], m) < |pg| && Kid(pg[p], m) != a && Kid(pg[p], m) != p && Kid(pg[p], m) != u
    {
      KidInside(pg, nf, p, m);
    }
  }

  predicate LeftMovable(pg: seq<Page>, u: nat, i: int, a: nat, p: nat) {
    && u < |pg| && a < |pg| && p < |pg| && pg[u].Internal? && pg[a].Internal? && pg[p].Internal?
    && 1 <= i <= |pg[u].entries| && 0 < |pg[a].entries| && pg[a].right < |pg|
  }

  predicate RightMovable(pg: seq<Page>, u: nat, i: int, a: nat, p: nat) {
    && u < |pg| && a < |pg| && p < |pg| && pg[u].Internal? && pg[a].Internal? && pg[p].Internal?
    && 1 <= i <= |pg[u].entries| && 0 < |pg[p].entries| && pg[p].entries[0].child < |pg|
  }

  // The pages after a's last child has moved to the front of p.
  function LeftBorrowPages(pg: seq<Page>, u: nat, i: int, a: nat, p: nat): seq<Page>
    requires LeftMovable(pg, u, i, a, p)
  {
    var n := |pg[a].entries|;
    pg[p := pg[p].(entries := InsertAt(pg[p].entries, 0, Entry(pg[a].right, pg[u].entries[i - 1].key)))]
      [a := pg[a].(entries := pg[a].entries[..n - 1], right := pg[a].entries[n - 1].child)]
      [u := Relabel(pg[u], i - 1, pg[a].entries[n - 1].key)]
      [pg[a].right := SetParent(pg[pg[a].right], p)]
  }

  // The pages after p's first child has moved to the end of a.
  function RightBorrowPages(pg: seq<Page>, u: nat, i: int, a: nat, p: nat): seq<Page>
    requires RightMovable(pg, u, i, a, p)
  {
    var moved := pg[p].entries[0].child;
    pg[a := pg[a].(entries := pg[a].entries + [Entry(pg[a].right, pg[u].entries[i - 1].key)], right := moved)]
      [u := Relabel(pg[u], i - 1, pg[p].entries[0].key)]
      [p := pg[p].(entries := RemoveAt(pg[p].entries, 0))]
      [moved := SetParent(pg[moved], a)]
  }

  lemma LeftBorrowMoved(pg: seq<Page>, nf: Nodes, maxKeys: nat, u: nat, i: int, a: nat, p: nat)
    requires Spares(pg, nf, maxKeys, p, u, i, a, p) && 3 <= maxKeys
    ensures LeftMovable(pg, u, i, a, p)
    ensures KidMoved(pg, nf, u, i, a, p, |pg[a].entries| - 1, |pg[a].entries|, LeftBorrowPages(pg, u, i, a, p))
  {
    SparesFacts(pg, nf, maxKeys, p, u, i, a, p);
    var n, s := |pg[a].entries|, pg[u].entries[i - 1].key;
    assert Kid(pg[a], n) == pg[a].right;
    var c := Join(pg[a], s, pg[p]);
    JoinKids(pg[a], s, pg[p], n);
    assert c.entries[..n - 1] == pg[a].entries[..n - 1];
    assert c.entries[n..] ==
      [Entry(pg[a].right, s)] + pg[p].entries == InsertAt(pg[p].entries, 0, Entry(pg[a].right, s));
  }

  lemma RightBorrowMoved(pg: seq<Page>, nf: Nodes, maxKeys: nat, u: nat, i: int, a: nat, p: nat)
    requires Spares(pg, nf, maxKeys, a, u, i, a, p) && 3 <= maxKeys
    ensures RightMovable(pg, u, i, a, p)
    ensures KidMoved(pg, nf, u, i, a, p, |pg[a].entries| + 1, |pg[a].entries| + 1, RightBorrowPages(pg, u, i, a, p))
  {
    SparesFacts(pg, nf, maxKeys, a, u, i, a, p);
    var n, s := |pg[a].entries|, pg[u].entries[i - 1].key;
    assert Kid(pg[p], 0) == pg[p].entries[0].child;
    var c := Join(pg[a], s, pg[p]);
    JoinKids(pg[a], s, pg[p], n + 1);
    assert c.entries[..n + 1] == pg[a].entries + [Entry(pg[a].right, s)];
    assert c.entries[n + 2..] == pg[p].entries[1..] == RemoveAt(pg[p].entries, 0);
  }

  method BorrowFromLeftInternal(pager: Pager, a: nat, p: nat, u: nat, i: nat)
    requires ShortOf(pager, p) && Spares(pager.pages, pager.nodes, pager.maxKeys, p, u, i, a, p)
    modifies pager
    ensures Valid(pager) && pager.caps == old(pager.caps)
    ensures Repaired(old(pager.pages), old(pager.nodes), pager.pages, pager.nodes, old(pager.nodes)[u].tree)
    ensures LeftMovable(old(pager.pages), u, i, a, p) && pager.free == old(pager.free)
    ensures pager.pages == LeftBorrowPages(old(pager.pages), u, i, a, p)
  {
    var pg := pager.pages;
    ghost var nf := pager.nodes;
    LeftBorrowMoved(pg, nf, pager.maxKeys, u, i, a, p);
    SparesFacts(pg, nf, pager.maxKeys, p, u, i, a, p);
    var n := |pg[a].entries|;
    assert Kid(pg[a], n) == pg[a].right;
    InnerBorrowSound(pg, nf, pager.freeHead, pager.free, pager.caps, pager.maxKeys, p, u, i, a, p, n - 1, n,
                     LeftBorrowPages(pg, u, i, a, p));
    ShiftLeftChild(pager, a, p, u, i);
    pager.nodes := Recut(nf, a, p, CutKey(pg, nf, u, i, a, p, n - 1));
  }

  method ShiftLeftChild(pager: Pager, a: nat, p: nat, u: nat, i: nat)
    requires u < |pager.pages| && a < |pager.pages| && p < |pager.pages| && a != p && a != u && p != u
    requires pager.pages[u].Internal? && pager.pages[a].Internal? && pager.pages[p].Internal?
    requires 1 <= i <= |pager.pages[u].entries| && 0 < |pager.pages[a].entries|
    requires pager.pages[a].right < |pager.pages| && pager.pages[a].right != a && pager.pages[a].right != p
    requires pager.pages[a].right != u
    modifies pager`pages
    ensures pager.pages == LeftBorrowPages(old(pager.pages), u, i, a, p)
  {
    var left, node, parent := pager.pages[a], pager.pages[p], pager.pages[u];
    var movedChild, leftKeys := left.right, |left.entries|;
    var slots := Slots(node.entries, |node.entries| + 1, Entry(0, 0));
    InsertCell(slots, |node.entries|, 0, Entry(movedChild, parent.entries[i - 1].key));
    pager.Set(p, node.(entries := slots[..|node.entries| + 1]));
    pager.Set(a, left.(entries := left.entries[..leftKeys - 1], right := left.entries[leftKeys - 1].child));
    pager.Set(u, Relabel(parent, i - 1, left.entries[leftKeys - 1].key));
    pager.Set(movedChild, SetParent(pager.pages[movedChild], p));
  }

  method BorrowFromRightInternal(pager: Pager, a: nat, p: nat, u: nat, i: nat)
    requires ShortOf(pager, a) && Spares(pager.pages, pager.nodes, pager.maxKeys, a, u, i, a, p)
    modifies pager
    ensures Valid(pager) && pager.caps == old(pager.caps)
    ensures Repaired(old(pager.pages), old(pager.nodes), pager.pages, pager.nodes, old(pager.nodes)[u].tree)
    ensures RightMovable(old(pager.pages), u, i, a, p) && pager.free == old(pager.free)
    ensures pager.pages == RightBorrowPages(old(pager.pages), u, i, a, p)
  {
    var pg := pager.pages;
    ghost var nf := pager.nodes;
    RightBorrowMoved(pg, nf, pager.maxKeys, u, i, a, p);
    SparesFacts(pg, nf, pager.maxKeys, a, u, i, a, p);
    var n := |pg[a].entries|;
    assert Kid(pg[p], 0) == pg[p].entries[0].child;
    InnerBorrowSound(pg, nf, pager.freeHead, pager.free, pager.caps, pager.maxKeys, a, u, i, a, p, n + 1, n + 1,
                     RightBorrowPages(pg, u, i, a, p));
    ShiftRightChild(pager, a, p, u, i);
    pager.nodes := Recut(nf, a, p, CutKey(pg, nf, u, i, a, p, n + 1));
  }

  method ShiftRightChild(pager: Pager, a: nat, p: nat, u: nat, i: nat)
    requires u < |pager.pages| && a < |pager.pages| && p < |pager.pages| && a != p && a != u && p != u
    requires pager.pages[u].Internal? && pager.pages[a].Internal? && pager.pages[p].Internal?
    requires 1 <= i <= |pager.pages[u].entries| && 0 < |pager.pages[p].entries|
    requires var m := pager.pages[p].entries[0].child; m < |pager.pages| && m != a && m != p && m != u
    modifies pager`pages
    ensures pager.pages == RightBorrowPages(old(pager.pages), u, i, a, p)
  {
    var node, right, parent := pager.pages[a], pager.pages[p], pager.pages[u];
    var movedChild := right.entries[0].child;
    pager.Set(a, node.(entries := node.entries + [Entry(node.right, parent.entries[i - 1].key)], right := movedChild));
    pager.Set(u, Relabel(parent, i - 1, right.entries[0].key));
    var slots := Slots(right.entries, |right.entries|, Entry(0, 0));
    RemoveCell(slots, |right.entries|, 0);
    pager.Set(p, right.(entries := slots[..|right.entries| - 1]));
    pager.Set(movedChild, SetParent(pager.pages[movedChild], a));
  }

  // ------------------------------------------------------------ merging two siblings under their parent

  // Nodes a and p together fit in one page, and one of them is short.
  ghost predicate Mergeable(pager: Pager, s: nat, u: nat, i: int, a: nat, p: nat)
    reads pager
  {
    var pg, nf := pager.pages, pager.nodes;
    && ShortOf(pager, s) && Siblings(pg, nf, u, i, a, p) && a in nf && p in nf && (s == a || s == p)
    && Fits(pg, pager.caps, pager.maxKeys, nf[u].tree, a, p)
  }

  // The file is sound but for the parent, which may have become short.
  twostate predicate PassedUp(pager: Pager, u: nat, p: nat)
    reads pager
  {
    && ShortOf(pager, u) && pager.caps == old(pager.caps) && pager.free == [p] + old(pager.free)
    && u in old(pager.nodes)
    && Repaired(old(pager.pages), old(pager.nodes), pager.pages, pager.nodes, old(pager.nodes)[u].tree)
    && pager.nodes[u] == old(pager.nodes)[u] && pager.pages[u].Internal?
    && Top(pager.nodes, u) == Top(old(pager.nodes), u)
  }

  lemma MergeableFacts(pg: seq<Page>, nf: Nodes, head: nat, free: seq<nat>, u: nat, i: int, a: nat, p: nat)
    requires Siblings(pg, nf, u, i, a, p) && a in nf && p in nf && FreeList(pg, head, free)
    requires Accounted(pg, nf, free, {})
    ensures a < |pg| && 0 < p < |pg| && u < |pg| && a != p && a != u && p != u
    ensures a !in free && p !in free && u !in free && nf[u].tree in nf && nf[u].tree != p && nf[u].tree != a
    ensures nf[nf[u].tree].tree == nf[u].tree
    ensures pg[p].Internal? ==>
      forall x :: x in KidSet(pg[p]) ==> x < |pg| && x != a && x != p && x != u && x != 0 && x !in free
  {
    SiblingFacts(pg, nf, u, i, a, p);
    if pg[p].Internal? {
      forall x | x in KidSet(pg[p]) ensures x < |pg| && x != a && x != p && x != u && x != 0 && x !in free {
        var k :| 0 <= k <= |pg[p].entries| && Kid(pg[p], k) == x;
        KidInside(pg, nf, p, k);
      }
    }
  }

  // The file once two siblings are one and their parent has let the right one go.
  lemma MergeDone(pg: seq<Page>, nf: Nodes, head: nat, free: seq<nat>, caps: map<nat, nat>, maxKeys: nat, s: nat,
                  u: nat, i: int, a: nat, p: nat, mid: seq<Page>, pg': seq<Page>, head': nat, free': seq<nat>)
    requires Short(pg, nf, head, free, caps, maxKeys, s) && (s == a || s == p)
    requires Merged(pg, nf, u, i, a, p, pg') && Fits(pg, caps, maxKeys, nf[u].tree, a, p)
    requires FreeList(mid, head', free') && free' == [p] + free && u !in free' && u < |mid| && pg' == mid[u := pg'[u]]
    requires pg'[0] == pg[0]
    ensures Short(pg', MergeNodes(nf, a, p), head', free', caps, maxKeys, u)
    ensures Repaired(pg, nf, pg', MergeNodes(nf, a, p), nf[u].tree)
    ensures u in MergeNodes(nf, a, p) && MergeNodes(nf, a, p)[u] == nf[u] && Top(MergeNodes(nf, a, p), u) == Top(nf, u)
  {
    FreeListFrame(mid, head', free', pg');
    MergeShort(pg, nf, head, free, caps, maxKeys, s, u, i, a, p, pg', head', free');
    MergeableFacts(pg, nf, head, free, u, i, a, p);
  }

  method MergeLeaves(pager: Pager, a: nat, p: nat, u: nat, i: nat, ghost s: nat)
    requires Mergeable(pager, s, u, i, a, p) && pager.pages[a].Leaf?
    modifies pager
    ensures PassedUp(pager, u, p)
  {
    ghost var pg, nf, head, free := pager.pages, pager.nodes, pager.freeHead, pager.free;
    MergeableFacts(pg, nf, head, free, u, i, a, p);
    LeafNodeMerge(pager, a, p);
    ghost var mid := pager.pages;
    InternalNodeRemoveChild(pager, u, i);
    assert Merged(pg, nf, u, i, a, p, pager.pages);
    MergeDone(pg, nf, head, free, pager.caps, pager.maxKeys, s, u, i, a, p, mid, pager.pages, pager.freeHead,
              pager.free);
    pager.nodes := MergeNodes(nf, a, p);
  }

  method MergeInternals(pager: Pager, a: nat, p: nat, u: nat, i: nat, ghost s: nat)
    requires Mergeable(pager, s, u, i, a, p) && pager.pages[a].Internal?
    modifies pager
    ensures PassedUp(pager, u, p)
  {
    ghost var pg, nf, head, free := pager.pages, pager.nodes, pager.freeHead, pager.free;
    MergeableFacts(pg, nf, head, free, u, i, a, p);
    InternalNodeMerge(pager, a, p, pager.pages[u].entries[i - 1].key);
    ghost var mid := pager.pages;
    InternalNodeRemoveChild(pager, u, i);
    assert Merged(pg, nf, u, i, a, p, pager.pages);
    MergeDone(pg, nf, head, free, pager.caps, pager.maxKeys, s, u, i, a, p, mid, pager.pages, pager.freeHead,
              pager.free);
    pager.nodes := MergeNodes(nf, a, p);
  }

  // ------------------------------------------------------------ the repairs

  // The k-th child of u is a leaf with more cells than the fewest it may hold.
  ghost predicate LeafSpares(pg: seq<Page>, u: nat, k: int, cap: nat)
    requires u < |pg| && pg[u].Internal?
  {
    && 0 <= k <= |pg[u].entries| && Kid(pg[u], k) < |pg| && pg[Kid(pg[u], k)].Leaf?
    && (cap + 1) / 2 < |pg[Kid(pg[u], k)].cells|
  }

  ghost predicate InnerSpares(pg: seq<Page>, u: nat, k: int, maxKeys: nat)
    requires u < |pg| && pg[u].Internal?
  {
    && 0 <= k <= |pg[u].entries| && Kid(pg[u], k) < |pg| && pg[Kid(pg[u], k)].Internal?
    && (maxKeys + 1) / 2 - 1 < |pg[Kid(pg[u], k)].entries|
  }

  // The page a merge empties, child k of u or the one after it, is freed; what else may be is freed after it.
  ghost predicate MergedAway(pg: seq<Page>, free: seq<nat>, u: nat, k: int, free': seq<nat>)
    requires u < |pg| && pg[u].Internal? && 0 <= k <= |pg[u].entries|
  {
    && (k > 0 || |pg[u].entries| > 0)
    && (if k > 0 then Kid(pg[u], k) else Kid(pg[u], 1)) in free' && forall x :: x in free ==> x in free'
  }

  /** How leaf p, child k of u, is repaired: its left sibling gives it a cell if it can spare one; or else its right
      sibling; or else it is merged with the left one, or with the right one if it is the first child. */
  ghost predicate LeafRepaired(pg: seq<Page>, free: seq<nat>, u: nat, k: int, p: nat, cap: nat, pg': seq<Page>,
                               free': seq<nat>)
  {
    && u < |pg| && pg[u].Internal? && 0 <= k <= |pg[u].entries| && Kid(pg[u], k) == p
    && if LeafSpares(pg, u, k - 1, cap) then LastCellMoved(pg, u, k, Kid(pg[u], k - 1), p, pg') && free' == free
       else if LeafSpares(pg, u, k + 1, cap) then
         FirstCellMoved(pg, u, k + 1, p, Kid(pg[u], k + 1), pg') && free' == free
       else MergedAway(pg, free, u, k, free')
  }

  /** The same for an internal node p, which is given a child and its separator. */
  ghost predicate InnerRepaired(pg: seq<Page>, free: seq<nat>, u: nat, k: int, p: nat, maxKeys: nat, pg': seq<Page>,
                                free': seq<nat>)
  {
    && u < |pg| && pg[u].Internal? && 0 <= k <= |pg[u].entries| && Kid(pg[u], k) == p
    && if InnerSpares(pg, u, k - 1, maxKeys) then
         var left := Kid(pg[u], k - 1);
         LeftMovable(pg, u, k, left, p) && pg' == LeftBorrowPages(pg, u, k, left, p) && free' == free
       else if InnerSpares(pg, u, k + 1, maxKeys) then
         var right := Kid(pg[u], k + 1);
         RightMovable(pg, u, k + 1, p, right) && pg' == RightBorrowPages(pg, u, k + 1, p, right) && free' == free
       else MergedAway(pg, free, u, k, free')
  }

  // A node below its minimum, and where it hangs.
  lemma ShortNode(pg: seq<Page>, nf: Nodes, head: nat, free: seq<nat>, caps: map<nat, nat>, maxKeys: nat, s: nat)
    requires Short(pg, nf, head, free, caps, maxKeys, s) && s != nf[s].tree
    ensures var u := pg[s].parent;
      && u in nf && u < |pg| && u != s && pg[u].Internal? && HasKid(pg[u], s) && 1 <= |pg[u].entries|
      && nf[u].tree == nf[s].tree && nf[u].height == nf[s].height + 1 && nf[u].height <= Top(nf, u)
      && Top(nf, u) == Top(nf, s)
      && u !in {s}
  {
    assert Ok(pg, nf, s);
    var u := pg[s].parent;
    ParentCovers(pg, nf, s);
    assert Ok(pg, nf, u) && FillAt(pg, nf, caps, maxKeys, u);
  }

  // A sibling of a short node: what it holds, and what the two hold together.
  lemma ShortSiblings(pg: seq<Page>, nf: Nodes, head: nat, free: seq<nat>, caps: map<nat, nat>, maxKeys: nat, s: nat,
                      u: nat, i: int, a: nat, p: nat)
    requires Short(pg, nf, head, free, caps, maxKeys, s) && u in nf && u < |pg| && pg[u].Internal?
    requires 1 <= i <= |pg[u].entries|
    requires a == Kid(pg[u], i - 1) && p == Kid(pg[u], i) && (s == a || s == p) && s != nf[s].tree
    ensures Siblings(pg, nf, u, i, a, p) && a in nf && p in nf && a != p
    ensures (pg[a].Leaf? <==> pg[p].Leaf?) && (pg[a].Internal? <==> pg[p].Internal?)
    ensures nf[a].tree == nf[u].tree == nf[p].tree
    ensures var o, t := if s == a then p else a, nf[u].tree;
      && t in caps && 3 <= caps[t]
      && (pg[s].Leaf? ==> LeafMin(caps[t]) <= |pg[o].cells| <= caps[t])
      && (pg[s].Leaf? && |pg[s].cells| < LeafMin(caps[t]) && |pg[o].cells| <= LeafMin(caps[t]) ==>
          Fits(pg, caps, maxKeys, t, a, p))
      && (pg[s].Internal? ==> InnerMin(maxKeys) <= |pg[o].entries| <= maxKeys)
      && (pg[s].Internal? && |pg[s].entries| < InnerMin(maxKeys) && |pg[o].entries| <= InnerMin(maxKeys) ==>
          Fits(pg, caps, maxKeys, t, a, p))
  {
    SiblingFacts(pg, nf, u, i, a, p);
    assert FillAt(pg, nf, caps, maxKeys, if s == a then p else a);
  }

  method AfterChildRemoved(pager: Pager, u: nat)
    requires ShortOf(pager, u) && pager.pages[u].Internal? && pager.nodes[u].height <= Top(pager.nodes, u)
    modifies pager
    ensures Valid(pager) && pager.caps == old(pager.caps)
    ensures Repaired(old(pager.pages), old(pager.nodes), pager.pages, pager.nodes, old(pager.nodes)[u].tree)
    ensures forall x :: x in old(pager.free) ==> x in pager.free
    decreases Top(pager.nodes, u) - pager.nodes[u].height, 1
  {
    var node := pager.pages[u];
    assert Ok(pager.pages, pager.nodes, u);
    if node.isRoot {
      if |node.entries| == 0 {
        CollapseRoot(pager, u);
        return;
      }
    } else if |node.entries| < InnerMin(pager.maxKeys) {
      InternalNodeRebalance(pager, u);
      return;
    }
    LongEnough(pager.pages, pager.nodes, pager.freeHead, pager.free, pager.caps, pager.maxKeys, u);
  }

  // Takes a child from a sibling that can spare one, the left one first.
  method BorrowForInner(pager: Pager, p: nat, u: nat, index: nat) returns (repaired: bool)
    requires ShortOf(pager, p) && pager.pages[p].Internal? && p != pager.nodes[p].tree
    requires |pager.pages[p].entries| < InnerMin(pager.maxKeys)
    requires u == pager.pages[p].parent && u in pager.nodes && u < |pager.pages| && pager.pages[u].Internal?
    requires index <= |pager.pages[u].entries| && Kid(pager.pages[u], index) == p
    modifies pager
    ensures pager.caps == old(pager.caps) && (!repaired ==> unchanged(pager))
    ensures repaired ==> Valid(pager)
    ensures repaired ==>
      Repaired(old(pager.pages), old(pager.nodes), pager.pages, pager.nodes, old(pager.nodes)[p].tree)
    ensures repaired ==>
      InnerRepaired(old(pager.pages), old(pager.free), u, index, p, pager.maxKeys, pager.pages, pager.free)
    ensures !repaired ==> !InnerSpares(old(pager.pages), u, index - 1, pager.maxKeys)
    ensures !repaired ==> !InnerSpares(old(pager.pages), u, index + 1, pager.maxKeys)
  {
    ghost var pg, nf, head, free, caps := pager.pages, pager.nodes, pager.freeHead, pager.free, pager.caps;
    var parent, minKeys := pager.pages[u], InnerMin(pager.maxKeys);
    if index > 0 {
      var left := Kid(parent, index - 1);
      ShortSiblings(pg, nf, head, free, caps, pager.maxKeys, p, u, index, left, p);
      if |pager.pages[left].entries| > minKeys {
        BorrowFromLeftInternal(pager, left, p, u, index);
        return true;
      }
    }
    if index < |parent.entries| {
      var right := Kid(parent, index + 1);
      ShortSiblings(pg, nf, head, free, caps, pager.maxKeys, p, u, index + 1, p, right);
      if |pager.pages[right].entries| > minKeys {
        BorrowFromRightInternal(pager, p, right, u, index + 1);
        return true;
      }
    }
    return false;
  }

  // Merges a node that no sibling can help with its left sibling, or with the right one if it is the first child.
  method MergeForInner(pager: Pager, p: nat, u: nat, index: nat)
    requires ShortOf(pager, p) && pager.pages[p].Internal? && p != pager.nodes[p].tree
    requires |pager.pages[p].entries| < InnerMin(pager.maxKeys)
    requires u == pager.pages[p].parent && u in pager.nodes && u < |pager.pages| && pager.pages[u].Internal?
    requires 1 <= |pager.pages[u].entries| && index <= |pager.pages[u].entries| && Kid(pager.pages[u], index) == p
    requires !InnerSpares(pager.pages, u, index - 1, pager.maxKeys)
    requires !InnerSpares(pager.pages, u, index + 1, pager.maxKeys)
    modifies pager
    ensures PassedUp(pager, u, if index > 0 then p else Kid(old(pager.pages)[u], 1))
  {
    var parent := pager.pages[u];
    ghost var i := if index > 0 then index else 1;
    ShortSiblings(pager.pages, pager.nodes, pager.freeHead, pager.free, pager.caps, pager.maxKeys, p, u, i,
                  Kid(parent, i - 1), Kid(parent, i));
    if index > 0 {
      MergeInternals(pager, Kid(parent, index - 1), p, u, index, p);
    } else {
      MergeInternals(pager, p, Kid(parent, index + 1), u, index + 1, p);
    }
  }

  method InternalNodeRebalance(pager: Pager, p: nat)
    requires ShortOf(pager, p) && pager.pages[p].Internal? && p != pager.nodes[p].tree
    requires |pager.pages[p].entries| < InnerMin(pager.maxKeys) && pager.nodes[p].height <= Top(pager.nodes, p)
    modifies pager
    ensures Valid(pager) && pager.caps == old(pager.caps)
    ensures Repaired(old(pager.pages), old(pager.nodes), pager.pages, pager.nodes, old(pager.nodes)[p].tree)
    ensures exists k ::
      InnerRepaired(old(pager.pages), old(pager.free), old(pager.pages)[p].parent, k, p, pager.maxKeys, pager.pages,
                    pager.free)
    decreases Top(pager.nodes, p) - pager.nodes[p].height, 0
  {
    ghost var pg, nf, head, free, caps := pager.pages, pager.nodes, pager.freeHead, pager.free, pager.caps;
    ShortNode(pg, nf, head, free, caps, pager.maxKeys, p);
    var u := pager.pages[p].parent;
    var index := ChildIndexInParent(pager.pages[u], p);
    var repaired := BorrowForInner(pager, p, u, index);
    if repaired { return; }
    MergeForInner(pager, p, u, index);
    ghost var mid, nm := pager.pages, pager.nodes;
    AfterChildRemoved(pager, u);
    RepairedTrans(pg, nf, mid, nm, pager.pages, pager.nodes, nf[p].tree);
    assert InnerRepaired(pg, free, u, index, p, pager.maxKeys, pager.pages, pager.free);
  }

  // Takes a cell from a sibling that can spare one, the left one first.
  method BorrowForLeaf(pager: Pager, p: nat, u: nat, index: nat, cap: nat) returns (repaired: bool)
    requires ShortOf(pager, p) && pager.pages[p].Leaf? && p != pager.nodes[p].tree
    requires cap == pager.caps[pager.nodes[p].tree] && |pager.pages[p].cells| < LeafMin(cap)
    requires u == pager.pages[p].parent && u in pager.nodes && u < |pager.pages| && pager.pages[u].Internal?
    requires index <= |pager.pages[u].entries| && Kid(pager.pages[u], index) == p
    modifies pager
    ensures pager.caps == old(pager.caps) && (!repaired ==> unchanged(pager))
    ensures repaired ==> Valid(pager)
    ensures repaired ==>
      Repaired(old(pager.pages), old(pager.nodes), pager.pages, pager.nodes, old(pager.nodes)[p].tree)
    ensures repaired ==>
      LeafRepaired(old(pager.pages), old(pager.free), u, index, p, cap, pager.pages, pager.free)
    ensures !repaired ==> !LeafSpares(old(pager.pages), u, index - 1, cap)
    ensures !repaired ==> !LeafSpares(old(pager.pages), u, index + 1, cap)
  {
    ghost var pg, nf, head, free, caps := pager.pages, pager.nodes, pager.freeHead, pager.free, pager.caps;
    var parent, minCells := pager.pages[u], LeafMin(cap);
    if index > 0 {
      var left := Kid(parent, index - 1);
      ShortSiblings(pg, nf, head, free, caps, pager.maxKeys, p, u, index, left, p);
      if |pager.pages[left].cells| > minCells {
        BorrowFromLeftLeaf(pager, left, p, u, index, cap);
        return true;
      }
    }
    if index < |parent.entries| {
      var right := Kid(parent, index + 1);
      ShortSiblings(pg, nf, head, free, caps, pager.maxKeys, p, u, index + 1, p, right);
      if |pager.pages[right].cells| > minCells {
        BorrowFromRightLeaf(pager, p, right, u, index + 1, cap);
        return true;
      }
    }
    return false;
  }

  // Merges a node that no sibling can help with its left sibling, or with the right one if it is the first child.
  method MergeForLeaf(pager: Pager, p: nat, u: nat, index: nat, cap: nat)
    requires ShortOf(pager, p) && pager.pages[p].Leaf? && p != pager.nodes[p].tree
    requires cap == pager.caps[pager.nodes[p].tree] && |pager.pages[p].cells| < LeafMin(cap)
    requires u == pager.pages[p].parent && u in pager.nodes && u < |pager.pages| && pager.pages[u].Internal?
    requires 1 <= |pager.pages[u].entries| && index <= |pager.pages[u].entries| && Kid(pager.pages[u], index) == p
    requires !LeafSpares(pager.pages, u, index - 1, cap)
    requires !LeafSpares(pager.pages, u, index + 1, cap)
    modifies pager
    ensures PassedUp(pager, u, if index > 0 then p else Kid(old(pager.pages)[u], 1))
  {
    var parent := pager.pages[u];
    ghost var i := if index > 0 then index else 1;
    ShortSiblings(pager.pages, pager.nodes, pager.freeHead, pager.free, pager.caps, pager.maxKeys, p, u, i,
                  Kid(parent, i - 1), Kid(parent, i));
    if index > 0 {
      MergeLeaves(pager, Kid(parent, index - 1), p, u, index, p);
    } else {
      MergeLeaves(pager, p, Kid(parent, index + 1), u, index + 1, p);
    }
  }

  method LeafNodeRebalance(pager: Pager, p: nat, cap: nat)
    requires ShortOf(pager, p) && pager.pages[p].Leaf? && p != pager.nodes[p].tree
    requires cap == pager.caps[pager.nodes[p].tree] && |pager.pages[p].cells| < LeafMin(cap)
    requires pager.nodes[p].height <= Top(pager.nodes, p)
    modifies pager
    ensures Valid(pager) && pager.caps == old(pager.caps)
    ensures Repaired(old(pager.pages), old(pager.nodes), pager.pages, pager.nodes, old(pager.nodes)[p].tree)
    ensures exists k ::
      LeafRepaired(old(pager.pages), old(pager.free), old(pager.pages)[p].parent, k, p, cap, pager.pages, pager.free)
  {
    ghost var pg, nf, head, free, caps := pager.pages, pager.nodes, pager.freeHead, pager.free, pager.caps;
    ShortNode(pg, nf, head, free, caps, pager.maxKeys, p);
    var u := pager.pages[p].parent;
    var index := ChildIndexInParent(pager.pages[u], p);
    var repaired := BorrowForLeaf(pager, p, u, index, cap);
    if repaired { return; }
    MergeForLeaf(pager, p, u, index, cap);
    ghost var mid, nm := pager.pages, pager.nodes;
    AfterChildRemoved(pager, u);
    RepairedTrans(pg, nf, mid, nm, pager.pages, pager.nodes, nf[p].tree);
    assert LeafRepaired(pg, free, u, index, p, cap, pager.pages, pager.free);
  }
}
