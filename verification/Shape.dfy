/**
 The shape of the b-trees stored in a sequence of pages.

 Every node page is described by the tree it belongs to (named by that tree's
 root page), the interval (lo, hi] of keys it owns, and its height. All the
 invariants below are local to one node and the pages it points to.
 */
module Shape {
  import opened Pages

  datatype Info = Info(tree: nat, lo: int, hi: int, height: int)

  type Nodes = map<nat, Info>

  // The bounds on child i's keys that an internal page's separators express.
  function LowOf(e: Page, n: Info, i: int): int
    requires e.Internal? && 0 <= i <= |e.entries|
  {
    if i == 0 then n.lo else e.entries[i - 1].key
  }

  function HighOf(e: Page, n: Info, i: int): int
    requires e.Internal? && 0 <= i <= |e.entries|
  {
    if i == |e.entries| then n.hi else e.entries[i].key
  }

  ghost predicate Basic(nf: Nodes, p: nat)
    requires p in nf
  {
    var n := nf[p];
    && -1 <= n.lo < n.hi <= TOP
    && n.tree in nf && nf[n.tree].tree == n.tree
    && 0 <= n.height <= nf[n.tree].height
  }

  // Child i of p owns exactly the interval between the separators around it.
  ghost predicate KidAt(nf: Nodes, p: nat, e: Page, i: int)
    requires p in nf && e.Internal? && 0 <= i <= |e.entries|
  {
    var c := Kid(e, i);
    c in nf && nf[c] == Info(nf[p].tree, LowOf(e, nf[p], i), HighOf(e, nf[p], i), nf[p].height - 1)
  }

  // A leaf's cells are sorted and inside its interval; a separator equal to `hi`
  // is exact: it is a key this leaf holds.
  ghost predicate LeafDown(nf: Nodes, p: nat, e: Page)
    requires p in nf && e.Leaf?
  {
    && nf[p].height == 0
    && Ascending(e.cells) && KeysWithin(e.cells, nf[p].lo, nf[p].hi)
    && (p != nf[p].tree || nf[p].hi < TOP ==> |e.cells| > 0)
    && (nf[p].hi < TOP ==> e.cells[|e.cells| - 1].key == nf[p].hi)
  }

  ghost predicate InnerDown(nf: Nodes, p: nat, e: Page)
    requires p in nf && e.Internal?
  {
    && nf[p].height > 0
    && forall i {:trigger KidAt(nf, p, e, i)} :: 0 <= i <= |e.entries| ==> KidAt(nf, p, e, i)
  }

  ghost predicate Down(nf: Nodes, p: nat, e: Page)
    requires p in nf
  {
    match e
    case Leaf(_, _, _, _) => LeafDown(nf, p, e)
    case Internal(_, _, _, _) => InnerDown(nf, p, e)
    case _ => false
  }

  // The root owns every key; any other node is a child of the page it names as its parent.
  ghost predicate Up(pg: seq<Page>, nf: Nodes, p: nat)
    requires p in nf && p < |pg| && IsNode(pg[p])
  {
    var n := nf[p];
    var e := pg[p];
    if p == n.tree then e.isRoot && n.lo == -1 && n.hi == TOP
    else
      && !e.isRoot
      && e.parent in nf && e.parent < |pg|
      && nf[e.parent].tree == n.tree && nf[e.parent].height == n.height + 1
      && HasKid(pg[e.parent], p)
  }

  // A leaf's right neighbour owns the keys just above its own.
  ghost predicate Linked(nf: Nodes, p: nat, e: Page)
    requires p in nf
  {
    e.Leaf? ==>
      if nf[p].hi == TOP then e.next == 0
      else e.next in nf && nf[e.next].tree == nf[p].tree && nf[e.next].height == 0 && nf[e.next].lo == nf[p].hi
  }

  ghost predicate Ok(pg: seq<Page>, nf: Nodes, p: nat)
    requires p in nf
  {
    && 0 < p < |pg| && IsNode(pg[p])
    && Basic(nf, p)
    && Down(nf, p, pg[p])
    && Up(pg, nf, p)
    && Linked(nf, p, pg[p])
  }

  ghost predicate Shaped(pg: seq<Page>, nf: Nodes) {
    && (forall p :: p in nf ==> 0 < p < |pg| && IsNode(pg[p]))
    && forall p {:trigger Ok(pg, nf, p)} :: p in nf ==> Ok(pg, nf, p)
  }

  lemma AllOk(pg: seq<Page>, nf: Nodes)
    requires forall p {:trigger Ok(pg, nf, p)} :: p in nf ==> Ok(pg, nf, p)
    ensures Shaped(pg, nf)
  {
    forall p | p in nf ensures 0 < p < |pg| && IsNode(pg[p]) { assert Ok(pg, nf, p); }
  }

  /** The rows of one tree: every cell of its leaves. */
  ghost function Rows(pg: seq<Page>, nf: Nodes, t: nat): set<Cell> {
    set p, c | p in nf && nf[p].tree == t && p < |pg| && pg[p].Leaf? && c in pg[p].cells :: c
  }

  // ------------------------------------------------------------ consequences

  lemma {:induction false} LowsAscend(pg: seq<Page>, nf: Nodes, p: nat, i: int, j: int)
    requires Shaped(pg, nf) && p in nf && pg[p].Internal?
    requires 0 <= i <= j <= |pg[p].entries|
    ensures LowOf(pg[p], nf[p], i) <= LowOf(pg[p], nf[p], j)
    ensures i < j ==> HighOf(pg[p], nf[p], i) <= LowOf(pg[p], nf[p], j)
    ensures HighOf(pg[p], nf[p], i) <= HighOf(pg[p], nf[p], j)
    decreases j - i
  {
    assert Ok(pg, nf, p) && KidAt(nf, p, pg[p], i);
    assert Ok(pg, nf, Kid(pg[p], i));
    if i < j {
      assert KidAt(nf, p, pg[p], i + 1);
      assert Ok(pg, nf, Kid(pg[p], i + 1));
      LowsAscend(pg, nf, p, i + 1, j);
    }
  }

  // A child's interval lies inside its parent's.
  lemma KidInside(pg: seq<Page>, nf: Nodes, p: nat, i: int)
    requires Shaped(pg, nf) && p in nf && pg[p].Internal? && 0 <= i <= |pg[p].entries|
    ensures KidAt(nf, p, pg[p], i)
    ensures var c := Kid(pg[p], i); nf[p].lo <= nf[c].lo < nf[c].hi <= nf[p].hi
  {
    assert Ok(pg, nf, p) && KidAt(nf, p, pg[p], i);
    assert Ok(pg, nf, Kid(pg[p], i));
    LowsAscend(pg, nf, p, 0, i);
    LowsAscend(pg, nf, p, i, |pg[p].entries|);
  }

  lemma ParentCovers(pg: seq<Page>, nf: Nodes, p: nat)
    requires Shaped(pg, nf) && p in nf && p != nf[p].tree
    ensures pg[p].parent in nf && nf[pg[p].parent].height == nf[p].height + 1 && nf[pg[p].parent].tree == nf[p].tree
    ensures nf[pg[p].parent].lo <= nf[p].lo < nf[p].hi <= nf[pg[p].parent].hi
  {
    assert Ok(pg, nf, p);
    var q := pg[p].parent;
    var i :| 0 <= i <= |pg[q].entries| && Kid(pg[q], i) == p;
    KidInside(pg, nf, q, i);
  }

  // The height of the tree that node w belongs to.
  ghost function Top(nf: Nodes, w: nat): int
    requires w in nf
  {
    if nf[w].tree in nf then nf[nf[w].tree].height else nf[w].height
  }

  // Two different nodes of one tree at one height own disjoint intervals.
  lemma {:induction false} Disjoint(pg: seq<Page>, nf: Nodes, p: nat, q: nat)
    requires Shaped(pg, nf) && p in nf && q in nf
    requires nf[p].tree == nf[q].tree && nf[p].height == nf[q].height && p != q
    ensures nf[p].hi <= nf[q].lo || nf[q].hi <= nf[p].lo
    decreases Top(nf, p) - nf[p].height
  {
    assert Ok(pg, nf, p) && Ok(pg, nf, q);
    var r := nf[p].tree;
    // one of the two is not the root, so the root is higher, so neither is
    if p != r { ParentCovers(pg, nf, p); assert Ok(pg, nf, pg[p].parent); }
    if q != r { ParentCovers(pg, nf, q); assert Ok(pg, nf, pg[q].parent); }
    var pp, qq := pg[p].parent, pg[q].parent;
    if pp == qq {
      var i :| 0 <= i <= |pg[pp].entries| && Kid(pg[pp], i) == p;
      var j :| 0 <= j <= |pg[pp].entries| && Kid(pg[pp], j) == q;
      assert Ok(pg, nf, pp) && KidAt(nf, pp, pg[pp], i) && KidAt(nf, pp, pg[pp], j);
      if i < j { LowsAscend(pg, nf, pp, i, j); } else { LowsAscend(pg, nf, pp, j, i); }
    } else {
      assert Ok(pg, nf, pp);
      Disjoint(pg, nf, pp, qq);
      ParentCovers(pg, nf, p);
      ParentCovers(pg, nf, q);
    }
  }

  // The nodes of one tree at one height are told apart by any key they own.
  lemma SameOwner(pg: seq<Page>, nf: Nodes, p: nat, q: nat, k: int)
    requires Shaped(pg, nf) && p in nf && q in nf
    requires nf[p].tree == nf[q].tree && nf[p].height == nf[q].height
    requires nf[p].lo < k <= nf[p].hi && nf[q].lo < k <= nf[q].hi
    ensures p == q
  {
    if p != q { Disjoint(pg, nf, p, q); }
  }

  // A child names the page it hangs off as its parent.
  lemma KidParent(pg: seq<Page>, nf: Nodes, p: nat, i: int)
    requires Shaped(pg, nf) && p in nf && pg[p].Internal? && 0 <= i <= |pg[p].entries|
    ensures KidAt(nf, p, pg[p], i)
    ensures Kid(pg[p], i) != nf[p].tree && pg[Kid(pg[p], i)].parent == p
  {
    KidInside(pg, nf, p, i);
    var c := Kid(pg[p], i);
    assert Ok(pg, nf, c) && Ok(pg, nf, p);
    ParentCovers(pg, nf, c);
    SameOwner(pg, nf, p, pg[c].parent, nf[c].hi);
  }

  // Children sit at one position only.
  lemma KidOnce(pg: seq<Page>, nf: Nodes, p: nat, i: int, j: int)
    requires Shaped(pg, nf) && p in nf && pg[p].Internal?
    requires 0 <= i <= |pg[p].entries| && 0 <= j <= |pg[p].entries| && Kid(pg[p], i) == Kid(pg[p], j)
    ensures i == j
  {
    KidInside(pg, nf, p, i);
    KidInside(pg, nf, p, j);
    if i < j { LowsAscend(pg, nf, p, i, j); } else if j < i { LowsAscend(pg, nf, p, j, i); }
  }

  // A separator strictly inside a node's interval is recorded nowhere above it.
  lemma {:induction false} InteriorNotAbove(pg: seq<Page>, nf: Nodes, p: nat, q: nat, i: int)
    requires Shaped(pg, nf) && p in nf && q in nf && pg[q].Internal?
    requires nf[p].tree == nf[q].tree && nf[p].height < nf[q].height
    requires 0 <= i < |pg[q].entries|
    requires nf[p].lo < pg[q].entries[i].key < nf[p].hi
    ensures false
    decreases nf[q].height - nf[p].height
  {
    assert Ok(pg, nf, p) && Ok(pg, nf, q);
    var pp := pg[p].parent;
    ParentCovers(pg, nf, p);
    if nf[pp].height < nf[q].height {
      InteriorNotAbove(pg, nf, pp, q, i);
    } else {
      KidInside(pg, nf, q, i);
      SameOwner(pg, nf, pp, q, pg[q].entries[i].key);
      var j :| 0 <= j <= |pg[q].entries| && Kid(pg[q], j) == p;
      assert KidAt(nf, q, pg[q], j);
      if j <= i { LowsAscend(pg, nf, q, j, i); } else { LowsAscend(pg, nf, q, i, j); }
    }
  }

  // Every separator value is recorded at exactly one place of its tree.
  lemma SeparatorOnce(pg: seq<Page>, nf: Nodes, p: nat, i: int, q: nat, j: int)
    requires Shaped(pg, nf) && p in nf && q in nf && pg[p].Internal? && pg[q].Internal?
    requires nf[p].tree == nf[q].tree
    requires 0 <= i < |pg[p].entries| && 0 <= j < |pg[q].entries|
    requires pg[p].entries[i].key == pg[q].entries[j].key
    ensures p == q && i == j
  {
    KidInside(pg, nf, p, i);
    KidInside(pg, nf, p, i + 1);
    KidInside(pg, nf, q, j);
    KidInside(pg, nf, q, j + 1);
    if nf[p].height < nf[q].height {
      InteriorNotAbove(pg, nf, p, q, j);
    } else if nf[q].height < nf[p].height {
      InteriorNotAbove(pg, nf, q, p, i);
    } else {
      SameOwner(pg, nf, p, q, pg[p].entries[i].key);
      if i < j { KidInside(pg, nf, p, j); LowsAscend(pg, nf, p, i, j); }
      if j < i { KidInside(pg, nf, p, i); LowsAscend(pg, nf, p, j, i); }
    }
  }
}
