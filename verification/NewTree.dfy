/** Giving a new table its root page. */
module NewTree {
  import opened Pages
  import opened Shape
  import opened Pagers
  import opened Fill
  import opened Cursors

  const EMPTY_ROOT: Page := Leaf(true, 0, [], 0)

  ghost function WithTree(nf: Nodes, p: nat): Nodes {
    nf[p := Info(p, -1, TOP, 0)]
  }

  lemma NewTreeShaped(pg: seq<Page>, nf: Nodes, pg': seq<Page>, p: nat)
    requires Shaped(pg, nf) && p !in nf && 0 < p < |pg'| && |pg| <= |pg'| && pg'[p] == EMPTY_ROOT
    requires forall x :: x in nf ==> pg'[x] == pg[x]
    ensures Shaped(pg', WithTree(nf, p))
  {
    var nf' := WithTree(nf, p);
    forall x | x in nf' ensures Ok(pg', nf', x) {
      if x != p {
        assert Ok(pg, nf, x);
        assert Down(nf', x, pg'[x]) by { NewTreeDown(pg, nf, x, p); }
      }
    }
  }

  lemma NewTreeDown(pg: seq<Page>, nf: Nodes, x: nat, p: nat)
    requires x in nf && p !in nf && x < |pg| && Ok(pg, nf, x)
    ensures Down(WithTree(nf, p), x, pg[x])
  {
    if pg[x].Internal? {
      forall i | 0 <= i <= |pg[x].entries|
        ensures KidAt(WithTree(nf, p), x, pg[x], i)
      {
        assert KidAt(nf, x, pg[x], i);
      }
    }
  }

  // No node yet belongs to a tree rooted at p.
  ghost predicate NoTree(nf: Nodes, p: nat) {
    p !in nf && forall x :: x in nf ==> nf[x].tree != p
  }

  lemma NoTreeYet(pg: seq<Page>, nf: Nodes, p: nat)
    requires Shaped(pg, nf) && p !in nf
    ensures NoTree(nf, p)
  {
    forall x | x in nf ensures nf[x].tree != p { assert Ok(pg, nf, x); }
  }

  lemma NewTreeElsewhere(pg: seq<Page>, nf: Nodes, pg': seq<Page>, p: nat)
    requires NoTree(nf, p) && |pg| <= |pg'| && |pg| > 0 && pg'[0] == pg[0]
    requires forall x :: x in nf ==> x < |pg| && pg'[x] == pg[x]
    ensures Elsewhere(pg, nf, pg', WithTree(nf, p), p)
  {
  }

  lemma NewTreeFilled(pg: seq<Page>, nf: Nodes, pg': seq<Page>, p: nat, caps: map<nat, nat>, maxKeys: nat, cap: nat)
    requires Shaped(pg, nf) && Filled(pg, nf, caps, maxKeys, {}) && p !in nf && 3 <= cap
    requires 0 < p < |pg'| && |pg| <= |pg'| && pg'[p] == EMPTY_ROOT
    requires forall x :: x in nf ==> pg'[x] == pg[x]
    ensures Filled(pg', WithTree(nf, p), caps[p := cap], maxKeys, {})
  {
    forall x | x in WithTree(nf, p) ensures FillAt(pg', WithTree(nf, p), caps[p := cap], maxKeys, x) {
      if x != p {
        assert FillAt(pg, nf, caps, maxKeys, x);
        assert Ok(pg, nf, x);
      }
    }
  }

  /** Starts a tree: its root is a leaf without cells, on a page no other tree uses. */
  method AllocateRootLeaf(pager: Pager, ghost cap: nat) returns (p: nat)
    requires Valid(pager) && 3 <= cap
    modifies pager
    ensures Valid(pager) && p !in old(pager.nodes) && IsTree(pager, p)
    ensures pager.nodes == WithTree(old(pager.nodes), p) && pager.caps == old(pager.caps)[p := cap]
    ensures Rows(pager.pages, pager.nodes, p) == {}
    ensures Elsewhere(old(pager.pages), old(pager.nodes), pager.pages, pager.nodes, p)
    ensures p <= |old(pager.pages)| && (old(pager.free) == [] ==> p == |old(pager.pages)|)
  {
    ghost var pg, nf, free, caps := pager.pages, pager.nodes, pager.free, pager.caps;
    p := pager.AllocatePage();
    AllocatedHeld(pg, nf, free, {}, pager.pages, pager.free, p);
    ghost var mid := pager.pages;
    pager.Set(p, EMPTY_ROOT);
    pager.nodes, pager.caps := WithTree(nf, p), caps[p := cap];
    NodesWritten(mid, nf, pager.freeHead, pager.free, {p}, pager.pages);
    TreeAdded(pg, nf, caps, pager.maxKeys, pager.pages, pager.free, p, cap);
  }

  // A page no node uses, now an empty root, is a tree of its own.
  lemma TreeAdded(pg: seq<Page>, nf: Nodes, caps: map<nat, nat>, maxKeys: nat, pg': seq<Page>, free': seq<nat>, p: nat,
                  cap: nat)
    requires Shaped(pg, nf) && Filled(pg, nf, caps, maxKeys, {}) && |pg| > 0 && 3 <= cap
    requires Accounted(pg', nf, free', {p}) && |pg| <= |pg'| && pg'[p] == EMPTY_ROOT && pg'[0] == pg[0]
    requires forall x :: x in nf ==> pg'[x] == pg[x]
    ensures Shaped(pg', WithTree(nf, p)) && Filled(pg', WithTree(nf, p), caps[p := cap], maxKeys, {})
    ensures Accounted(pg', WithTree(nf, p), free', {})
    ensures Rows(pg', WithTree(nf, p), p) == {} && Elsewhere(pg, nf, pg', WithTree(nf, p), p)
  {
    NewTreeShaped(pg, nf, pg', p);
    NewTreeFilled(pg, nf, pg', p, caps, maxKeys, cap);
    NoTreeYet(pg, nf, p);
    NewTreeElsewhere(pg, nf, pg', p);
    NewTreeRows(pg', nf, p);
    NewTreeAccounted(pg', nf, free', p);
  }

  lemma NewTreeAccounted(pg: seq<Page>, nf: Nodes, free: seq<nat>, p: nat)
    requires Accounted(pg, nf, free, {p})
    ensures Accounted(pg, WithTree(nf, p), free, {})
  {
  }

  lemma NewTreeRows(pg: seq<Page>, nf: Nodes, p: nat)
    requires p < |pg| && pg[p] == EMPTY_ROOT && NoTree(nf, p)
    ensures Rows(pg, WithTree(nf, p), p) == {}
  {
  }
}
