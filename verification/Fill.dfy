/** How full nodes must be, and what an operation on one tree leaves alone. */
module Fill {
  import opened Pages
  import opened Shape
  import opened Pagers

  // The fewest cells a leaf other than the root may hold.
  function LeafMin(cap: nat): nat { (cap + 1) / 2 }

  // The fewest separators an internal node other than the root may hold.
  function InnerMin(maxKeys: nat): int { (maxKeys + 1) / 2 - 1 }

  ghost predicate FillAt(pg: seq<Page>, nf: Nodes, caps: map<nat, nat>, maxKeys: nat, p: nat)
    requires p in nf && p < |pg|
  {
    var t := nf[p].tree;
    && t in caps && 3 <= caps[t]
    && match pg[p]
       case Leaf(_, _, cells, _) => |cells| <= caps[t] && (p != t ==> LeafMin(caps[t]) <= |cells|)
       case Internal(_, _, entries, _) =>
         1 <= |entries| <= maxKeys && (p != t ==> InnerMin(maxKeys) <= |entries|)
       case _ => false
  }

  // Every node outside `short` is full enough and none is overfull.
  ghost predicate Filled(pg: seq<Page>, nf: Nodes, caps: map<nat, nat>, maxKeys: nat, short: set<nat>) {
    && 3 <= maxKeys
    && (forall p :: p in nf ==> p < |pg|)
    && forall p {:trigger FillAt(pg, nf, caps, maxKeys, p)} :: p in nf && p !in short ==>
      FillAt(pg, nf, caps, maxKeys, p)
  }

  // The invariant every operation on the file keeps.
  ghost predicate Sound(pg: seq<Page>, nf: Nodes, head: nat, free: seq<nat>, caps: map<nat, nat>, maxKeys: nat,
                        held: set<nat>, short: set<nat>) {
    && Shaped(pg, nf)
    && Filled(pg, nf, caps, maxKeys, short)
    && FreeList(pg, head, free)
    && Accounted(pg, nf, free, held)
  }

  ghost predicate Valid(pager: Pager)
    reads pager
  {
    Sound(pager.pages, pager.nodes, pager.freeHead, pager.free, pager.caps, pager.maxKeys, {}, {})
  }

  /**
   The law of fill, in numbers: no leaf holds more cells than its tree's capacity, and none but a root
   fewer than half of it; no internal node holds more separators than the cap, and none but a root has
   fewer children than half the cap; an internal root has at least two.
   */
  ghost predicate FullEnough(pager: Pager)
    reads pager
  {
    forall p :: p in pager.nodes ==>
      var t := pager.nodes[p].tree;
      && p < |pager.pages| && t in pager.caps
      && match pager.pages[p]
         case Leaf(_, _, cells, _) => |cells| <= pager.caps[t] && (p != t ==> pager.caps[t] <= 2 * |cells|)
         case Internal(_, _, entries, _) =>
           2 <= |entries| + 1 && |entries| <= pager.maxKeys && (p != t ==> pager.maxKeys <= 2 * (|entries| + 1))
         case _ => false
  }

  lemma ValidFullEnough(pager: Pager)
    requires Valid(pager)
    ensures FullEnough(pager)
  {
    forall p | p in pager.nodes ensures FillAt(pager.pages, pager.nodes, pager.caps, pager.maxKeys, p) { }
  }

  // Every other tree kept its nodes, its pages and its header's place.
  ghost predicate Elsewhere(pg: seq<Page>, nf: Nodes, pg': seq<Page>, nf': Nodes, t: nat) {
    && (forall x {:trigger nf'[x]} {:trigger nf[x]} :: x in nf && nf[x].tree != t ==> x in nf' && nf'[x] == nf[x])
    && (forall x {:trigger nf'[x]} :: x in nf' && nf'[x].tree != t ==> x in nf && nf[x] == nf'[x])
    && (forall x {:trigger pg'[x]} :: x in nf && nf[x].tree != t && x < |pg| && x < |pg'| ==> pg'[x] == pg[x])
    && |pg| <= |pg'|
    && (|pg| > 0 ==> pg'[0] == pg[0])
    && (forall x :: x in nf && nf[x].tree == x ==> x in nf' && nf'[x].tree == x)
  }

  lemma ElsewhereTrans(a: seq<Page>, na: Nodes, b: seq<Page>, nb: Nodes, c: seq<Page>, nc: Nodes, t: nat)
    requires Elsewhere(a, na, b, nb, t) && Elsewhere(b, nb, c, nc, t)
    requires forall x :: x in na ==> x < |a|
    ensures Elsewhere(a, na, c, nc, t)
  {
    forall x {:trigger nc[x]} {:trigger na[x]} | x in na && na[x].tree != t
      ensures x in nc && nc[x] == na[x]
    {
      assert nb[x] == na[x];
    }
    forall x {:trigger nc[x]} | x in nc && nc[x].tree != t
      ensures x in na && na[x] == nc[x]
    {
      assert x in nb && nb[x] == nc[x];
    }
    forall x | x in na && na[x].tree != t && x < |c| ensures c[x] == a[x] { assert nb[x] == na[x] && b[x] == a[x]; }
  }

  // An operation on one tree leaves every other tree's rows unchanged.
  lemma RowsElsewhere(pg: seq<Page>, nf: Nodes, pg': seq<Page>, nf': Nodes, t: nat, u: nat)
    requires Elsewhere(pg, nf, pg', nf', t) && u != t
    requires forall x :: x in nf ==> x < |pg|
    ensures Rows(pg', nf', u) == Rows(pg, nf, u)
  {
    forall x | x in nf && nf[x].tree == u ensures x in nf' && nf'[x] == nf[x] && pg'[x] == pg[x] { }
    forall x | x in nf' && nf'[x].tree == u ensures x in nf && nf[x] == nf'[x] { }
    RowsKept(pg, nf, pg', nf', u);
  }

  // Trees with the same leaves hold the same rows.
  lemma RowsKept(pg: seq<Page>, nf: Nodes, pg': seq<Page>, nf': Nodes, t: nat)
    requires forall x :: x in nf && nf[x].tree == t && x < |pg| && pg[x].Leaf? ==>
      x in nf' && nf'[x].tree == t && x < |pg'| && pg'[x].Leaf? && pg'[x].cells == pg[x].cells
    requires forall x :: x in nf' && nf'[x].tree == t && x < |pg'| && pg'[x].Leaf? ==>
      x in nf && nf[x].tree == t && x < |pg| && pg[x].Leaf?
    ensures Rows(pg', nf', t) == Rows(pg, nf, t)
  {
    forall c ensures c in Rows(pg', nf', t) <==> c in Rows(pg, nf, t) {
      if c in Rows(pg', nf', t) {
        var x :| x in nf' && nf'[x].tree == t && x < |pg'| && pg'[x].Leaf? && c in pg'[x].cells;
        assert x in nf;
      }
      if c in Rows(pg, nf, t) {
        var x :| x in nf && nf[x].tree == t && x < |pg| && pg[x].Leaf? && c in pg[x].cells;
        assert x in nf';
      }
    }
  }
}
