/** The largest key under a node, read by walking down its right edge. */
module MaxKey {
  import opened Pages
  import opened Shape
  import opened Pagers

  // Pages that differ at most in the parent they name.
  ghost predicate AlikeAt(pg: seq<Page>, shp: seq<Page>, x: nat) {
    x < |pg| && x < |shp| && SetParent(pg[x], 0) == SetParent(shp[x], 0)
  }

  // Below height h, tree t of `pg` is that of the well-shaped pages `shp`.
  ghost predicate AgreeBelow(pg: seq<Page>, shp: seq<Page>, nf: Nodes, t: nat, h: int) {
    && Shaped(shp, nf)
    && forall x {:trigger AlikeAt(pg, shp, x)} :: x in nf && nf[x].tree == t && nf[x].height < h ==> AlikeAt(pg, shp, x)
  }

  // A node strictly below height h of tree t.
  ghost predicate Beneath(nf: Nodes, t: nat, h: int, x: nat) {
    x in nf && x != t && nf[x].tree == t && nf[x].height < h
  }

  // k is the largest key under node p, as far as the bounds tell: it is p's upper
  // bound exactly, unless p ends the tree.
  ghost predicate IsMax(nf: Nodes, p: nat, k: int)
    requires p in nf
  {
    nf[p].lo < k <= nf[p].hi && (nf[p].hi < TOP ==> k == nf[p].hi)
  }

  ghost predicate MaxResult(nf: Nodes, e: Page, k: int) {
    && (e.Leaf? ==> |e.cells| > 0 && k == e.cells[|e.cells| - 1].key)
    && (e.Internal? ==> e.right in nf && IsMax(nf, e.right, k))
  }

  // A node under h can be walked, and the walk yields its maximum.
  lemma WalkStart(pg: seq<Page>, shp: seq<Page>, nf: Nodes, t: nat, h: int, p: nat)
    requires AgreeBelow(pg, shp, nf, t, h) && Beneath(nf, t, h, p)
    ensures AlikeAt(pg, shp, p) && IsNode(pg[p]) && 0 <= nf[p].height
    ensures pg[p].Leaf? ==> |pg[p].cells| > 0
    ensures pg[p].Internal? ==> Beneath(nf, t, h, pg[p].right) && nf[pg[p].right].height < nf[p].height
    ensures forall k :: MaxResult(nf, pg[p], k) ==> IsMax(nf, p, k)
  {
    assert AlikeAt(pg, shp, p) && Ok(shp, nf, p);
    if pg[p].Internal? {
      assert Kid(shp[p], |shp[p].entries|) == pg[p].right;
      KidInside(shp, nf, p, |shp[p].entries|);
      KidParent(shp, nf, p, |shp[p].entries|);
      assert Ok(shp, nf, pg[p].right);
    }
  }

  // The last key of the leaf that right children lead to from page p, at most n steps away.
  ghost function LastKey(pg: seq<Page>, p: nat, n: nat): Option<int>
    decreases n
  {
    if p >= |pg| then None
    else match pg[p]
      case Leaf(_, _, cells, _) => if |cells| > 0 then Some(cells[|cells| - 1].key) else None
      case Internal(_, _, _, right) => if n == 0 then None else LastKey(pg, right, n - 1)
      case _ => None
  }

  // A number of steps down right children leads from page p to page c.
  ghost predicate Leads(pg: seq<Page>, p: nat, c: nat, steps: nat) {
    forall n: nat {:trigger LastKey(pg, c, n)} :: LastKey(pg, p, n + steps) == LastKey(pg, c, n)
  }

  lemma LeadsOn(pg: seq<Page>, p: nat, c: nat, steps: nat)
    requires Leads(pg, p, c, steps) && c < |pg| && pg[c].Internal?
    ensures Leads(pg, p, pg[c].right, steps + 1)
  {
    forall n: nat ensures LastKey(pg, p, n + (steps + 1)) == LastKey(pg, pg[c].right, n) {
      assert LastKey(pg, c, n + 1) == LastKey(pg, pg[c].right, n);
      assert n + 1 + steps == n + (steps + 1);
    }
  }

  /** Walks down right children to a leaf, whose last key it returns. */
  method GetNodeMaxKey(pager: Pager, p: nat, ghost shp: seq<Page>, ghost t: nat, ghost h: int) returns (k: int)
    requires p < |pager.pages| && IsNode(pager.pages[p])
    requires AgreeBelow(pager.pages, shp, pager.nodes, t, h)
    requires pager.pages[p].Leaf? ==> |pager.pages[p].cells| > 0
    requires pager.pages[p].Internal? ==> Beneath(pager.nodes, t, h, pager.pages[p].right)
    ensures MaxResult(pager.nodes, pager.pages[p], k)
    ensures exists n :: LastKey(pager.pages, p, n) == Some(k)
  {
    var node := pager.pages[p];
    if node.Leaf? {
      assert LastKey(pager.pages, p, 0).Some?;
      return node.cells[|node.cells| - 1].key;
    }
    var c := node.right;
    WalkStart(pager.pages, shp, pager.nodes, t, h, c);
    node := pager.pages[c];
    ghost var steps := 1;
    LeadsOn(pager.pages, p, p, 0);
    while node.Internal?
      invariant Beneath(pager.nodes, t, h, c) && c < |pager.pages| && node == pager.pages[c]
      invariant IsNode(node) && (node.Leaf? ==> |node.cells| > 0)
      invariant node.Internal? ==>
        Beneath(pager.nodes, t, h, node.right) && pager.nodes[node.right].height < pager.nodes[c].height
      invariant pager.nodes[c].height >= 0
      invariant forall k :: MaxResult(pager.nodes, node, k) ==> IsMax(pager.nodes, pager.pages[p].right, k)
      invariant Leads(pager.pages, p, c, steps)
      decreases pager.nodes[c].height
    {
      var d := node.right;
      WalkStart(pager.pages, shp, pager.nodes, t, h, d);
      LeadsOn(pager.pages, p, c, steps);
      c, steps := d, steps + 1;
      node := pager.pages[c];
    }
    k := node.cells[|node.cells| - 1].key;
    assert LastKey(pager.pages, c, 0) == Some(k);
  }
}
