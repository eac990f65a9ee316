/** Giving the root page a level of its own, and taking it away again. */
module Root {
  import opened Pages
  import opened Shape
  import opened Split

  // The children of a page, none for a leaf.
  function Children(e: Page): set<nat>
    requires IsNode(e)
  {
    if e.Internal? then KidSet(e) else {}
  }

  lemma KidSetHas(e: Page, x: nat)
    requires e.Internal?
    ensures HasKid(e, x) <==> x in KidSet(e)
  {
    if HasKid(e, x) {
      var i :| 0 <= i <= |e.entries| && Kid(e, i) == x;
    }
  }

  lemma SameKidSet(e: Page, e': Page)
    requires e.Internal? && e'.Internal? && e'.entries == e.entries && e'.right == e.right
    ensures KidSet(e) == KidSet(e')
  {
    forall x: nat ensures x in KidSet(e) <==> x in KidSet(e') {
      SameKids(e, e', x);
      KidSetHas(e, x);
      KidSetHas(e', x);
    }
  }

  // ------------------------------------------------------------ growing

  // The old root r moves to page l; page r becomes an internal node with l as its only child.
  ghost function LiftPage(pg: seq<Page>, r: nat, l: nat, x: nat): Page
    requires r < |pg| && IsNode(pg[r]) && x < |pg|
  {
    if x == r then Internal(true, 0, [], l)
    else if x == l then pg[r].(isRoot := false, parent := r)
    else if x in Children(pg[r]) then SetParent(pg[x], l)
    else pg[x]
  }

  ghost function LiftPages(pg: seq<Page>, r: nat, l: nat): (s: seq<Page>)
    requires r < |pg| && IsNode(pg[r])
    ensures |s| == |pg| && forall x :: 0 <= x < |pg| ==> s[x] == LiftPage(pg, r, l, x)
  {
    seq(|pg|, x requires 0 <= x < |pg| => LiftPage(pg, r, l, x))
  }

  ghost function LiftNodes(nf: Nodes, r: nat, l: nat): Nodes
    requires r in nf
  {
    nf[l := nf[r]][r := nf[r].(height := nf[r].height + 1)]
  }

  ghost predicate Liftable(pg: seq<Page>, nf: Nodes, r: nat, l: nat) {
    && Shaped(pg, nf) && r in nf && nf[r].tree == r
    && l !in nf && 0 < l < |pg|
    && (pg[r].Leaf? ==> |pg[r].cells| > 0)
  }

  // Nobody points at a root.
  lemma RootUnreferenced(pg: seq<Page>, nf: Nodes, r: nat, x: nat)
    requires Shaped(pg, nf) && r in nf && nf[r].tree == r && x in nf
    ensures pg[x].Internal? ==> forall i :: 0 <= i <= |pg[x].entries| ==> Kid(pg[x], i) in nf && Kid(pg[x], i) != r
    ensures pg[x].Leaf? && nf[x].hi != TOP ==> pg[x].next != r
  {
    assert Ok(pg, nf, x) && Ok(pg, nf, r);
    if pg[x].Internal? {
      forall i | 0 <= i <= |pg[x].entries| ensures Kid(pg[x], i) in nf && Kid(pg[x], i) != r {
        KidParent(pg, nf, x, i);
      }
    }
  }

  lemma LiftRoot(pg: seq<Page>, nf: Nodes, r: nat, l: nat)
    requires Liftable(pg, nf, r, l)
    ensures Ok(LiftPages(pg, r, l), LiftNodes(nf, r, l), r)
    ensures Ok(LiftPages(pg, r, l), LiftNodes(nf, r, l), l)
  {
    var pg', nf' := LiftPages(pg, r, l), LiftNodes(nf, r, l);
    assert Ok(pg, nf, r);
    assert Kid(pg'[r], 0) == l && KidAt(nf', r, pg'[r], 0);
    if pg[r].Internal? {
      forall i | 0 <= i <= |pg[r].entries| ensures KidAt(nf', l, pg'[l], i) {
        KidInside(pg, nf, r, i);
      }
    }
  }

  lemma LiftOther(pg: seq<Page>, nf: Nodes, r: nat, l: nat, x: nat)
    requires Liftable(pg, nf, r, l) && x in nf && x != r
    ensures Ok(LiftPages(pg, r, l), LiftNodes(nf, r, l), x)
  {
    var pg', nf' := LiftPages(pg, r, l), LiftNodes(nf, r, l);
    assert Ok(pg, nf, x);
    RootUnreferenced(pg, nf, r, x);
    if pg[x].Internal? {
      InnerDownKept(nf, nf', x, pg[x], pg'[x]);
    }
    if x != nf[x].tree {
      LiftUp(pg, nf, r, l, x);
    }
  }

  lemma LiftUp(pg: seq<Page>, nf: Nodes, r: nat, l: nat, x: nat)
    requires Liftable(pg, nf, r, l) && x in nf && x != r && x != nf[x].tree
    ensures Up(LiftPages(pg, r, l), LiftNodes(nf, r, l), x)
  {
    assert Ok(pg, nf, x);
    var px := pg[x].parent;
    if x in Children(pg[r]) {
      var k :| 0 <= k <= |pg[r].entries| && Kid(pg[r], k) == x;
      KidParent(pg, nf, r, k);
      SameKids(pg[r], pg[r].(isRoot := false, parent := r), x);
    } else {
      if px == r { KidSetHas(pg[r], x); }
      SameKids(pg[px], SetParent(pg[px], l), x);
    }
  }

  lemma LiftShaped(pg: seq<Page>, nf: Nodes, r: nat, l: nat)
    requires Liftable(pg, nf, r, l)
    ensures Shaped(LiftPages(pg, r, l), LiftNodes(nf, r, l))
  {
    forall x | x in LiftNodes(nf, r, l) ensures Ok(LiftPages(pg, r, l), LiftNodes(nf, r, l), x) {
      if x == r || x == l { LiftRoot(pg, nf, r, l); } else { LiftOther(pg, nf, r, l, x); }
    }
  }

  // ------------------------------------------------------------ shrinking

  // Page x after root r, left with no separators, takes over its only child's contents.
  ghost function CollapsePage(pg: seq<Page>, r: nat, x: nat): Page
    requires r < |pg| && pg[r].Internal? && pg[r].right < |pg| && IsNode(pg[pg[r].right]) && x < |pg|
  {
    var l := pg[r].right;
    if x == r then pg[l].(isRoot := true, parent := 0)
    else if x in Children(pg[l]) then SetParent(pg[x], r)
    else pg[x]
  }

  ghost function CollapseNodes(nf: Nodes, r: nat, l: nat): Nodes
    requires l in nf
  {
    (map x | x in nf && x != l :: if x == r then nf[l] else nf[x])
  }

  ghost predicate Collapsed(pg: seq<Page>, nf: Nodes, r: nat, pg': seq<Page>) {
    && Shaped(pg, nf) && r in nf && nf[r].tree == r && pg[r].Internal? && pg[r].entries == []
    && pg[r].right in nf && pg[r].right != r && Ok(pg, nf, r)
    && |pg'| == |pg|
    && forall x :: x in nf && x != pg[r].right ==> pg'[x] == CollapsePage(pg, r, x)
  }

  lemma CollapseRoot(pg: seq<Page>, nf: Nodes, r: nat, pg': seq<Page>)
    requires Collapsed(pg, nf, r, pg')
    ensures Ok(pg', CollapseNodes(nf, r, pg[r].right), r)
  {
    var l := pg[r].right;
    var nf' := CollapseNodes(nf, r, l);
    KidParent(pg, nf, r, 0);
    assert Kid(pg[r], 0) == l && Ok(pg, nf, l);
    if pg[l].Internal? {
      forall i | 0 <= i <= |pg[l].entries| ensures KidAt(nf', r, pg'[r], i) {
        KidInside(pg, nf, l, i);
      }
    }
  }

  lemma CollapseOther(pg: seq<Page>, nf: Nodes, r: nat, pg': seq<Page>, x: nat)
    requires Collapsed(pg, nf, r, pg') && x in nf && x != r && x != pg[r].right
    ensures Ok(pg', CollapseNodes(nf, r, pg[r].right), x)
  {
    var l := pg[r].right;
    var nf' := CollapseNodes(nf, r, l);
    assert Ok(pg, nf, x);
    KidParent(pg, nf, r, 0);
    assert Kid(pg[r], 0) == l && Ok(pg, nf, l) && nf[l].lo == -1;
    RootUnreferenced(pg, nf, r, x);
    if pg[x].Internal? {
      forall k {:trigger Kid(pg[x], k)} | 0 <= k <= |pg[x].entries| && Kid(pg[x], k) in nf
        ensures Kid(pg[x], k) in nf' && nf'[Kid(pg[x], k)] == nf[Kid(pg[x], k)]
      {
        KidParent(pg, nf, x, k);
      }
      InnerDownKept(nf, nf', x, pg[x], pg'[x]);
    }
    if x != nf[x].tree {
      assert Ok(pg, nf, pg[x].parent);
      CollapseUp(pg, nf, r, pg', x);
    }
  }

  lemma CollapseUp(pg: seq<Page>, nf: Nodes, r: nat, pg': seq<Page>, x: nat)
    requires Collapsed(pg, nf, r, pg') && x in nf && x != r && x != pg[r].right && x != nf[x].tree
    ensures Up(pg', CollapseNodes(nf, r, pg[r].right), x)
  {
    var l := pg[r].right;
    assert Ok(pg, nf, x);
    KidParent(pg, nf, r, 0);
    assert Kid(pg[r], 0) == l && Ok(pg, nf, l);
    var px := pg[x].parent;
    if x in Children(pg[l]) {
      var k :| 0 <= k <= |pg[l].entries| && Kid(pg[l], k) == x;
      KidParent(pg, nf, l, k);
      SameKids(pg[l], pg'[r], x);
    } else {
      if px == l { KidSetHas(pg[l], x); }
      SameKids(pg[px], SetParent(pg[px], r), x);
    }
  }

  lemma CollapseShaped(pg: seq<Page>, nf: Nodes, r: nat, pg': seq<Page>)
    requires Collapsed(pg, nf, r, pg')
    ensures Shaped(pg', CollapseNodes(nf, r, pg[r].right))
  {
    forall x | x in CollapseNodes(nf, r, pg[r].right) ensures Ok(pg', CollapseNodes(nf, r, pg[r].right), x) {
      if x == r { CollapseRoot(pg, nf, r, pg'); } else { CollapseOther(pg, nf, r, pg', x); }
    }
  }
}
