/** Splitting internal nodes, as far up as the root. */
module Cascade {
  import opened Pages
  import opened Shape
  import opened Split
  import opened Root
  import opened Boundary
  import opened Search
  import opened Pagers
  import opened Fill
  import opened MaxKey
  import opened Insert
  import opened NodeCells

  lemma AgreeFrame(pg: seq<Page>, shp: seq<Page>, nf: Nodes, t: nat, h: int, pg': seq<Page>)
    requires AgreeBelow(pg, shp, nf, t, h)
    requires forall x {:trigger AlikeAt(pg', pg, x)} :: x in nf && nf[x].tree == t && nf[x].height < h ==>
      AlikeAt(pg', pg, x)
    ensures AgreeBelow(pg', shp, nf, t, h)
  {
    forall x {:trigger AlikeAt(pg', shp, x)} | x in nf && nf[x].tree == t && nf[x].height < h
      ensures AlikeAt(pg', shp, x)
    {
      assert AlikeAt(pg, shp, x) && AlikeAt(pg', pg, x);
    }
  }

  // ------------------------------------------------------------ a new root

  // Page x after the contents of page r have been copied to page l.
  function CopiedPage(pg: seq<Page>, r: nat, l: nat, x: nat): Page
    requires r < |pg| && IsNode(pg[r])
  {
    if x == l then pg[r].(isRoot := false)
    else if x >= |pg| then Blank
    else if x in Children(pg[r]) then SetParent(pg[x], l)
    else pg[x]
  }

  // Copies page r to a new page, whose children it points at their new parent.
  method CopyOut(pager: Pager, r: nat, ghost held: set<nat>) returns (l: nat)
    requires r < |pager.pages| && IsNode(pager.pages[r])
    requires FreeList(pager.pages, pager.freeHead, pager.free) && Accounted(pager.pages, pager.nodes, pager.free, held)
    requires r in pager.nodes && forall x :: x in Children(pager.pages[r]) ==> x in pager.nodes
    modifies pager`pages, pager`freeHead, pager`free
    ensures FreeList(pager.pages, pager.freeHead, pager.free)
    ensures Allocated(old(pager.pages), old(pager.free), pager.pages, pager.free, l)
    ensures l !in pager.nodes && l !in held && 0 < l < |pager.pages|
    ensures Accounted(pager.pages, pager.nodes, pager.free, held + {l})
    ensures forall x {:trigger pager.pages[x]} :: 0 <= x < |pager.pages| ==>
      pager.pages[x] == CopiedPage(old(pager.pages), r, l, x)
  {
    ghost var pg := pager.pages;
    l := pager.AllocatePage();
    AllocatedHeld(pg, pager.nodes, old(pager.free), held, pager.pages, pager.free, l);
    ghost var head, free, mid := pager.freeHead, pager.free, pager.pages;
    assert mid[r] == pg[r];
    pager.Set(l, pager.pages[r].(isRoot := false));
    if pager.pages[l].Internal? {
      SameKidSet(pager.pages[l], pg[r]);
      ReparentChildren(pager, l);
    }
    CopyWritten(pg, mid, pager.pages, pager.nodes, head, free, held, r, l);
  }

  // What copying a page out leaves of the pager's bookkeeping.
  lemma CopyWritten(pg: seq<Page>, mid: seq<Page>, pg': seq<Page>, nf: Nodes, head: nat, free: seq<nat>, held: set<nat>,
                    r: nat, l: nat)
    requires FreeList(mid, head, free) && Accounted(mid, nf, free, held + {l}) && l !in free
    requires r < |pg| <= |mid| == |pg'| && IsNode(pg[r]) && l < |mid| && forall x :: x in Children(pg[r]) ==> x in nf
    requires forall x {:trigger mid[x]} :: 0 <= x < |mid| && x != l ==> mid[x] == (if x < |pg| then pg[x] else Blank)
    requires forall x {:trigger pg'[x]} :: 0 <= x < |pg'| ==>
      pg'[x] == if x == l then pg[r].(isRoot := false)
                else if x in Children(pg[r]) then SetParent(mid[x], l)
                else mid[x]
    ensures FreeList(pg', head, free) && Accounted(pg', nf, free, held + {l})
    ensures forall x {:trigger pg'[x]} :: 0 <= x < |pg'| ==> pg'[x] == CopiedPage(pg, r, l, x)
  {
    NodesWritten(mid, nf, head, free, held + {l}, pg');
  }

  // Page x after root r has been copied out to page l and given l and `right` as children.
  function NewRootPage(pg: seq<Page>, r: nat, right: nat, l: nat, max: int, x: nat): Page
    requires r < |pg| && IsNode(pg[r])
  {
    if x == r then Internal(true, 0, [Entry(l, max)], right)
    else if x == l then pg[r].(isRoot := false, parent := r)
    else if x >= |pg| then Blank
    else if x == right then SetParent(pg[x], r)
    else if x in Children(pg[r]) then SetParent(pg[x], l)
    else pg[x]
  }

  method CreateNewRoot(pager: Pager, r: nat, right: nat, ghost shp: seq<Page>, ghost t: nat, ghost h: int)
    returns (l: nat, max: int)
    requires r < |pager.pages| && IsNode(pager.pages[r]) && right < |pager.pages| && right != r
    requires FreeList(pager.pages, pager.freeHead, pager.free)
    requires Accounted(pager.pages, pager.nodes, pager.free, {right})
    requires r in pager.nodes && h <= pager.nodes[r].height && AgreeBelow(pager.pages, shp, pager.nodes, t, h)
    requires pager.pages[r].Leaf? ==> |pager.pages[r].cells| > 0
    requires pager.pages[r].Internal? ==> Beneath(pager.nodes, t, h, pager.pages[r].right)
    requires forall x :: x in Children(pager.pages[r]) ==> x in pager.nodes && x != r
    modifies pager`pages, pager`freeHead, pager`free
    ensures FreeList(pager.pages, pager.freeHead, pager.free)
    ensures Allocated(old(pager.pages), old(pager.free), pager.pages, pager.free, l)
    ensures l !in pager.nodes && l != right && 0 < l < |pager.pages|
    ensures Accounted(pager.pages, pager.nodes, pager.free, {right, l})
    ensures MaxResult(pager.nodes, old(pager.pages)[r], max)
    ensures forall x {:trigger pager.pages[x]} :: 0 <= x < |pager.pages| ==>
      pager.pages[x] == NewRootPage(old(pager.pages), r, right, l, max, x)
  {
    ghost var pg := pager.pages;
    l := CopyOut(pager, r, {right});
    ghost var mid := pager.pages;
    forall x {:trigger AlikeAt(mid, pg, x)} | x in pager.nodes && pager.nodes[x].tree == t && pager.nodes[x].height < h
      ensures AlikeAt(mid, pg, x)
    {
      assert AlikeAt(pg, shp, x);
    }
    AgreeFrame(pg, shp, pager.nodes, t, h, mid);
    max := GetNodeMaxKey(pager, l, shp, t, h);
    NewRootPages(pg, mid, r, right, l, max);
    ConnectRoot(pager, r, right, l, max);
  }

  // Makes page r an internal node with children l and `right`.
  method ConnectRoot(pager: Pager, r: nat, right: nat, l: nat, max: int)
    requires r < |pager.pages| && right < |pager.pages| && l < |pager.pages| && 0 < r && r in pager.nodes
    requires r != l && r != right && l != right
    requires FreeList(pager.pages, pager.freeHead, pager.free)
    requires Accounted(pager.pages, pager.nodes, pager.free, {right} + {l})
    modifies pager`pages
    ensures pager.pages == old(pager.pages)[r := Internal(true, 0, [Entry(l, max)], right)]
      [l := SetParent(old(pager.pages)[l], r)][right := SetParent(old(pager.pages)[right], r)]
    ensures FreeList(pager.pages, pager.freeHead, pager.free)
    ensures Accounted(pager.pages, pager.nodes, pager.free, {right, l})
  {
    ghost var mid := pager.pages;
    assert right in {right} + {l} && l in {right} + {l};
    pager.Set(r, Internal(true, 0, [Entry(l, max)], right));
    pager.Set(l, SetParent(pager.pages[l], r));
    pager.Set(right, SetParent(pager.pages[right], r));
    FreeListFrame(mid, pager.freeHead, pager.free, pager.pages);
    HeldAccounted(mid, pager.nodes, pager.free, right, l, pager.pages);
  }

  lemma NewRootPages(pg: seq<Page>, mid: seq<Page>, r: nat, right: nat, l: nat, max: int)
    requires r < |pg| && IsNode(pg[r]) && l < |mid| && |pg| <= |mid| && right < |pg|
    requires r != right && r != l && right != l && right !in Children(pg[r]) && r !in Children(pg[r])
    requires forall x {:trigger mid[x]} :: 0 <= x < |mid| ==> mid[x] == CopiedPage(pg, r, l, x)
    ensures var root := Internal(true, 0, [Entry(l, max)], right);
      var s := mid[r := root][l := SetParent(mid[l], r)][right := SetParent(mid[right], r)];
      forall x {:trigger s[x]} :: 0 <= x < |s| ==> s[x] == NewRootPage(pg, r, right, l, max, x)
  {
  }

  lemma HeldAccounted(pg: seq<Page>, nf: Nodes, free: seq<nat>, right: nat, l: nat, pg': seq<Page>)
    requires Accounted(pg, nf, free, {right} + {l}) && |pg'| == |pg| && pg'[0] == pg[0]
    ensures Accounted(pg', nf, free, {right, l})
  {
    assert {right} + {l} == {right, l};
  }

  // ------------------------------------------------------------ adding a child

  // Both pages whose maximum an insert reads can be walked.
  lemma PendingWalks(pg: seq<Page>, nf: Nodes, u: nat, q: nat, shp: seq<Page>, w: nat, off: int, target: Page, i: int)
    requires Pending(pg, nf, u, q, shp, w, off, target, i)
    ensures var t, h := nf[w].tree, nf[w].height;
      && Beneath(nf, t, h, q) && Beneath(nf, t, h, pg[u].right)
      && pg[u].right < |pg| && IsNode(pg[q]) && IsNode(pg[pg[u].right])
      && (pg[q].Leaf? ==> |pg[q].cells| > 0) && (pg[q].Internal? ==> Beneath(nf, t, h, pg[q].right))
      && (pg[pg[u].right].Leaf? ==> |pg[pg[u].right].cells| > 0)
      && (pg[pg[u].right].Internal? ==> Beneath(nf, t, h, pg[pg[u].right].right))
      && (forall k :: MaxResult(nf, pg[q], k) ==> IsMax(nf, q, k))
      && (forall k :: MaxResult(nf, pg[pg[u].right], k) ==> IsMax(nf, pg[u].right, k))
  {
    var t, h := nf[w].tree, nf[w].height;
    PendingKid(pg, nf, u, q, shp, w, off, target, i, i);
    WalkStart(pg, shp, nf, t, h, q);
    var n := |target.entries|;
    PendingKid(pg, nf, u, q, shp, w, off, target, i, if i == n then n - 1 else n);
    assert pg[u].right == Kid(target, if i == n then n - 1 else n);
    WalkStart(pg, shp, nf, t, h, pg[u].right);
  }

  method InternalNodeInsert(pager: Pager, u: nat, q: nat, ghost shp: seq<Page>, ghost w: nat, ghost off: int,
                            ghost target: Page, ghost i: int)
    requires Pending(pager.pages, pager.nodes, u, q, shp, w, off, target, i)
    requires |pager.pages[u].entries| >= pager.maxKeys ==> w == u && Lacking(pager, u, q, target, i)
    requires w in pager.nodes && pager.nodes[w].height <= Top(pager.nodes, w)
    modifies pager
    ensures |old(pager.pages)[u].entries| < pager.maxKeys ==>
      && pager.pages == old(pager.pages)[u := target][q := SetParent(old(pager.pages)[q], u)]
      && pager.nodes == old(pager.nodes) && pager.caps == old(pager.caps)
      && pager.freeHead == old(pager.freeHead) && pager.free == old(pager.free)
    ensures |old(pager.pages)[u].entries| >= pager.maxKeys ==> Restored(pager, old(pager.nodes)[u].tree)
    decreases Top(pager.nodes, w) - pager.nodes[w].height, if |pager.pages[u].entries| >= pager.maxKeys then 4 else 0
  {
    ghost var t, h := pager.nodes[w].tree, pager.nodes[w].height;
    PendingWalks(pager.pages, pager.nodes, u, q, shp, w, off, target, i);
    PendingAscends(pager.pages, pager.nodes, u, q, shp, w, off, target, i);
    var childMax := GetNodeMaxKey(pager, q, shp, t, h);
    var index := InternalNodeFindChild(pager.pages[u], childMax);
    if |pager.pages[u].entries| >= pager.maxKeys {
      InternalNodeSplitAndInsert(pager, u, q, target, i);
      return;
    }
    PutChild(pager, u, q, shp, w, off, target, i, childMax, index);
  }

  // Puts a child into a node with room, as its last child or where its maximum belongs.
  method PutChild(pager: Pager, u: nat, q: nat, ghost shp: seq<Page>, ghost w: nat, ghost off: int, ghost target: Page,
                  ghost i: int,
                  childMax: int, index: nat)
    requires Pending(pager.pages, pager.nodes, u, q, shp, w, off, target, i) && q in pager.nodes
    requires IsMax(pager.nodes, q, childMax) && ChildPosition(pager.pages[u].entries, childMax, index)
    requires |pager.pages[u].entries| < pager.maxKeys
    modifies pager`pages
    ensures pager.pages == old(pager.pages)[u := target][q := SetParent(old(pager.pages)[q], u)]
  {
    PendingWalks(pager.pages, pager.nodes, u, q, shp, w, off, target, i);
    var right := pager.pages[u].right;
    var rightMax := GetNodeMaxKey(pager, right, shp, pager.nodes[w].tree, pager.nodes[w].height);
    RoomBranches(pager.pages, pager.nodes, u, q, shp, w, off, target, i, childMax, rightMax, index);
    if childMax > rightMax {
      pager.Set(u, AppendKid(pager.pages[u], rightMax, q));
    } else {
      var node := pager.pages[u];
      var slots := Slots(node.entries, pager.maxKeys, Entry(0, 0));
      InsertCell(slots, |node.entries|, index, Entry(q, childMax));
      pager.Set(u, node.(entries := slots[..|node.entries| + 1]));
    }
    pager.Set(q, SetParent(pager.pages[q], u));
  }

  // Moves the upper half of internal node u to a new page, the middle separator going to neither.
  method HalveNode(pager: Pager, u: nat) returns (n: nat)
    requires u in pager.nodes && u < |pager.pages| && pager.pages[u].Internal? && |pager.pages[u].entries| > 0
    requires FreeList(pager.pages, pager.freeHead, pager.free) && Accounted(pager.pages, pager.nodes, pager.free, {})
    requires forall x :: x in KidSet(pager.pages[u]) ==> x in pager.nodes && x != u
    modifies pager`pages, pager`freeHead, pager`free
    ensures FreeList(pager.pages, pager.freeHead, pager.free)
    ensures Allocated(old(pager.pages), old(pager.free), pager.pages, pager.free, n)
    ensures n !in pager.nodes && 0 < n < |pager.pages| && Accounted(pager.pages, pager.nodes, pager.free, {n})
    ensures Halved(old(pager.pages), u, n, old(pager.pages)[u], |old(pager.pages)[u].entries| / 2, pager.pages)
  {
    ghost var pg := pager.pages;
    n := pager.AllocatePage();
    AllocatedHeld(pg, pager.nodes, old(pager.free), {}, pager.pages, pager.free, n);
    ghost var head, free, mid := pager.freeHead, pager.free, pager.pages;
    var node := pager.pages[u];
    var splitIndex := |node.entries| / 2;
    HalvesWritten(pg, mid, u, n, splitIndex);
    pager.Set(n, UpperHalf(node, splitIndex));
    ReparentChildren(pager, n);
    pager.Set(u, LowerHalf(node, splitIndex));
    assert {} + {n} == {n};
    NodesWritten(mid, pager.nodes, head, free, {n}, pager.pages);
  }

  lemma HalvesWritten(pg: seq<Page>, mid: seq<Page>, u: nat, n: nat, s: nat)
    requires u < |pg| <= |mid| && n < |mid| && u != n && pg[u].Internal? && s < |pg[u].entries|
    requires forall x :: 0 <= x < |pg| && x != n ==> mid[x] == pg[x]
    requires forall x :: x in KidSet(pg[u]) ==> x < |pg| && x != u && x != n
    ensures forall x :: x in KidSet(UpperHalf(pg[u], s)) ==> x in KidSet(pg[u])
    ensures Halved(pg, u, n, pg[u], s,
                   Reparent(mid[n := UpperHalf(pg[u], s)], KidSet(UpperHalf(pg[u], s)), n)[u := LowerHalf(pg[u], s)])
  {
    HalvesWrittenKids(pg[u], s);
  }

  // Putting the pending child into its half turns the halves on disk into the halves of the full node.
  lemma PlacedLow(pg: seq<Page>, nf: Nodes, u: nat, q: nat, virt: Page, i: int, s: int, n: nat, mid: seq<Page>)
    requires u in nf && u < |pg| && Pending(pg, nf, u, q, pg[u := virt], u, 0, virt, i) && n !in nf
    requires i <= s && s + 1 < |virt.entries| - 1 && Halved(pg, u, n, pg[u], s, mid)
    ensures Halved(pg, u, n, virt, s + 1, mid[u := LowerHalf(virt, s + 1)][q := SetParent(mid[q], u)])
  {
    var shp := pg[u := virt];
    PendingKid(pg, nf, u, q, shp, u, 0, virt, i, i);
    KidParent(shp, nf, u, i);
    assert AlikeAt(pg, shp, q) && SetParent(pg[q], u) == pg[q];
    HalvesOnDisk(virt, i, s);
    QNotUpper(pg, nf, u, q, virt, i, s + 1);
  }

  lemma PlacedHigh(pg: seq<Page>, nf: Nodes, u: nat, q: nat, virt: Page, i: int, s: int, n: nat, mid: seq<Page>)
    requires u in nf && u < |pg| && Pending(pg, nf, u, q, pg[u := virt], u, 0, virt, i) && n !in nf
    requires 0 <= s < i && s + 1 < |virt.entries| - 1 && Halved(pg, u, n, pg[u], s, mid)
    ensures Halved(pg, u, n, virt, s, mid[n := UpperHalf(virt, s)][q := SetParent(mid[q], n)])
  {
    PendingKid(pg, nf, u, q, pg[u := virt], u, 0, virt, i, i);
    assert AlikeAt(pg, pg[u := virt], q);
    HalvesOnDisk(virt, i, s);
    HalfKidSet(virt, i, s, q);
    HalvedAfter(pg, pg[u], virt, u, q, s, n, mid);
  }

  // One more child for the upper half, its page and its parent pointer written.
  lemma HalvedAfter(pg: seq<Page>, e: Page, virt: Page, u: nat, q: nat, s: int, n: nat, mid: seq<Page>)
    requires Halved(pg, u, n, e, s, mid) && virt.Internal? && s < |virt.entries| && q < |pg| && q != u && q != n
    requires LowerHalf(e, s) == LowerHalf(virt, s) && KidSet(UpperHalf(virt, s)) == KidSet(UpperHalf(e, s)) + {q}
    ensures Halved(pg, u, n, virt, s, mid[n := UpperHalf(virt, s)][q := SetParent(mid[q], n)])
  {
  }

  lemma QNotUpper(pg: seq<Page>, nf: Nodes, u: nat, q: nat, virt: Page, i: int, j: int)
    requires u in nf && u < |pg| && Pending(pg, nf, u, q, pg[u := virt], u, 0, virt, i)
    requires i <= j < |virt.entries|
    ensures q !in KidSet(UpperHalf(virt, j))
  {
    var shp := pg[u := virt];
    if q in KidSet(UpperHalf(virt, j)) {
      var k :| 0 <= k <= |UpperHalf(virt, j).entries| && Kid(UpperHalf(virt, j), k) == q;
      HalvesKids(virt, j, k);
      KidOnce(shp, nf, u, i, k + j + 1);
    }
  }

  lemma HalfKidSet(virt: Page, i: int, s: int, q: nat)
    requires virt.Internal? && 0 <= i <= |virt.entries| && 0 <= s && s + 1 < |virt.entries| - 1 && Kid(virt, i) == q
    ensures var e := DropKid(virt, i);
      i > s ==> KidSet(UpperHalf(virt, s)) == KidSet(UpperHalf(e, s)) + {q}
  {
    if i > s {
      HalvesOnDisk(virt, i, s);
      var f, g := UpperHalf(virt, s), UpperHalf(DropKid(virt, i), s);
      DropKidSet(f, i - s - 1);
      HalvesKids(virt, s, i - s - 1);
    }
  }

  lemma DropKidSet(f: Page, i: int)
    requires f.Internal? && 0 <= i <= |f.entries| && |f.entries| > 0
    ensures KidSet(f) == KidSet(DropKid(f, i)) + {Kid(f, i)}
  {
    var g := DropKid(f, i);
    forall x: nat ensures x in KidSet(f) <==> x in KidSet(g) + {Kid(f, i)} {
      if x in KidSet(f) {
        var k :| 0 <= k <= |f.entries| && Kid(f, k) == x;
        if k != i { assert Kid(g, if k < i then k else k - 1) == x; }
      }
      if x in KidSet(g) {
        var k :| 0 <= k <= |g.entries| && Kid(g, k) == x;
        assert Kid(f, if k < i then k else k + 1) == x;
      }
    }
  }

  lemma HalvedAgrees(pg: seq<Page>, shp: seq<Page>, nf: Nodes, u: nat, n: nat, e: Page, s: int, mid: seq<Page>)
    requires u in nf && AgreeBelow(pg, shp, nf, nf[u].tree, nf[u].height) && n !in nf
    requires Halved(pg, u, n, e, s, mid)
    ensures AgreeBelow(mid, shp, nf, nf[u].tree, nf[u].height)
  {
    forall x {:trigger AlikeAt(mid, pg, x)} | x in nf && nf[x].tree == nf[u].tree && nf[x].height < nf[u].height
      ensures AlikeAt(mid, pg, x)
    {
      assert AlikeAt(pg, shp, x);
    }
    AgreeFrame(pg, shp, nf, nf[u].tree, nf[u].height, mid);
  }

  // After the halving the pending child still belongs to one of the halves.
  lemma HalvedPending(pg: seq<Page>, nf: Nodes, u: nat, q: nat, virt: Page, i: int, s: int, n: nat, mid: seq<Page>)
    requires u in nf && u < |pg| && Pending(pg, nf, u, q, pg[u := virt], u, 0, virt, i) && n !in nf
    requires 0 <= s && s + 1 < |virt.entries| - 1
    requires Halved(pg, u, n, pg[u], s, mid)
    ensures i <= s ==> Pending(mid, nf, u, q, pg[u := virt], u, 0, LowerHalf(virt, s + 1), i)
    ensures i > s ==> Pending(mid, nf, n, q, pg[u := virt], u, s + 1, UpperHalf(virt, s), i - s - 1)
  {
    var shp := pg[u := virt];
    HalvedAgrees(pg, shp, nf, u, n, pg[u], s, mid);
    HalvesOnDisk(virt, i, s);
    if i <= s {
      HalvesKids(virt, s + 1, i);
      HalfWindow(virt, s + 1);
    } else {
      HalvesKids(virt, s, i - s - 1);
      HalfWindow(virt, s);
    }
  }

  // The new child's maximum is below the left half's exactly when it belongs there.
  lemma HalfChoice(pg: seq<Page>, nf: Nodes, u: nat, q: nat, virt: Page, i: int, s: int, childMax: int, leftMax: int)
    requires u in nf && u < |pg| && Pending(pg, nf, u, q, pg[u := virt], u, 0, virt, i)
    requires 0 <= s && s + 1 < |virt.entries| - 1
    requires q in nf && IsMax(nf, q, childMax)
    requires pg[u].entries[s].child in nf && IsMax(nf, pg[u].entries[s].child, leftMax)
    ensures childMax < leftMax <==> i <= s
  {
    var shp := pg[u := virt];
    HalvesOnDisk(virt, i, s);
    PendingKid(pg, nf, u, q, shp, u, 0, virt, i, i);
    if i <= s {
      PendingKid(pg, nf, u, q, shp, u, 0, virt, i, s + 1);
      LowsAscend(shp, nf, u, i, s + 1);
    } else {
      PendingKid(pg, nf, u, q, shp, u, 0, virt, i, s);
      LowsAscend(shp, nf, u, s, i);
    }
  }

  lemma PendingKids(pg: seq<Page>, nf: Nodes, u: nat, q: nat, virt: Page, i: int)
    requires u in nf && u < |pg| && Pending(pg, nf, u, q, pg[u := virt], u, 0, virt, i)
    ensures forall x :: x in KidSet(pg[u]) ==> x in nf && x != u && Beneath(nf, nf[u].tree, nf[u].height, x)
    ensures forall k :: 0 <= k < |pg[u].entries| ==> Beneath(nf, nf[u].tree, nf[u].height, pg[u].entries[k].child)
  {
    forall x | x in KidSet(pg[u]) ensures x in nf && x != u && Beneath(nf, nf[u].tree, nf[u].height, x) {
      var k :| 0 <= k <= |pg[u].entries| && Kid(pg[u], k) == x;
      assert x == Kid(virt, if k < i then k else k + 1);
      PendingKid(pg, nf, u, q, pg[u := virt], u, 0, virt, i, if k < i then k else k + 1);
    }
    forall k | 0 <= k < |pg[u].entries| ensures Beneath(nf, nf[u].tree, nf[u].height, pg[u].entries[k].child) {
      assert Kid(pg[u], k) in KidSet(pg[u]);
    }
  }

  // The right child's maximum lies among the keys the node owned.
  lemma OldMaxInside(pg: seq<Page>, nf: Nodes, u: nat, q: nat, virt: Page, i: int, k: int)
    requires u in nf && u < |pg| && Pending(pg, nf, u, q, pg[u := virt], u, 0, virt, i)
    requires MaxResult(nf, pg[u], k)
    ensures nf[u].lo < k <= nf[u].hi
  {
    var shp := pg[u := virt];
    var n := |virt.entries|;
    var j := if i == n then n - 1 else n;
    assert pg[u].right == Kid(virt, j);
    KidInside(shp, nf, u, j);
  }

  // Adds the pending child to whichever half of the halved node u owns its keys.
  method PlaceInHalf(pager: Pager, u: nat, q: nat, n: nat, childMax: int, ghost pg: seq<Page>, ghost virt: Page,
                     ghost i: int, ghost s: int)
    requires u in pager.nodes && u < |pg| && Pending(pg, pager.nodes, u, q, pg[u := virt], u, 0, virt, i)
    requires n !in pager.nodes && Halved(pg, u, n, pg[u], s, pager.pages)
    requires 1 <= s && s + 1 < |virt.entries| - 1 && |virt.entries| == pager.maxKeys + 1
    requires q in pager.nodes && IsMax(pager.nodes, q, childMax)
    requires pager.nodes[u].height <= Top(pager.nodes, u)
    modifies pager
    ensures pager.nodes == old(pager.nodes) && pager.caps == old(pager.caps)
    ensures pager.freeHead == old(pager.freeHead) && pager.free == old(pager.free)
    ensures |pager.pages| == |old(pager.pages)|
    ensures Halved(pg, u, n, virt, if i <= s then s + 1 else s, pager.pages)
    decreases Top(pager.nodes, u) - pager.nodes[u].height, 1
  {
    ghost var nf, shp, mid := pager.nodes, pg[u := virt], pager.pages;
    HalvedAgrees(pg, shp, nf, u, n, pg[u], s, mid);
    PendingKids(pg, nf, u, q, virt, i);
    var leftMax := GetNodeMaxKey(pager, u, shp, nf[u].tree, nf[u].height);
    HalfChoice(pg, nf, u, q, virt, i, s, childMax, leftMax);
    HalvedPending(pg, nf, u, q, virt, i, s, n, mid);
    if childMax < leftMax {
      PlacedLow(pg, nf, u, q, virt, i, s, n, mid);
      InternalNodeInsert(pager, u, q, shp, u, 0, LowerHalf(virt, s + 1), i);
    } else {
      PlacedHigh(pg, nf, u, q, virt, i, s, n, mid);
      InternalNodeInsert(pager, n, q, shp, u, s + 1, UpperHalf(virt, s), i - s - 1);
    }
  }

  // The maxima a split reads before it moves anything.
  method ReadMaxima(pager: Pager, u: nat, q: nat, ghost virt: Page, ghost i: int) returns (oldMax: int, childMax: int)
    requires Lacking(pager, u, q, virt, i)
    ensures q in pager.nodes && IsMax(pager.nodes, q, childMax)
    ensures pager.nodes[u].lo < oldMax <= pager.nodes[u].hi
  {
    ghost var nf, shp := pager.nodes, pager.pages[u := virt];
    PendingWalks(pager.pages, nf, u, q, shp, u, 0, virt, i);
    oldMax := GetNodeMaxKey(pager, u, shp, nf[u].tree, nf[u].height);
    OldMaxInside(pager.pages, nf, u, q, virt, i, oldMax);
    childMax := GetNodeMaxKey(pager, q, shp, nf[u].tree, nf[u].height);
  }

  // Divides the full node u between itself and a new page n, with child q in the half that owns its keys.
  method DivideInternal(pager: Pager, u: nat, q: nat, ghost virt: Page, ghost i: int)
    returns (n: nat, oldMax: int, ghost j: int)
    requires Lacking(pager, u, q, virt, i) && |pager.pages[u].entries| >= pager.maxKeys
    requires pager.nodes[u].height <= Top(pager.nodes, u)
    modifies pager
    ensures pager.nodes == old(pager.nodes) && pager.caps == old(pager.caps)
    ensures FreeList(pager.pages, pager.freeHead, pager.free)
    ensures Allocated(old(pager.pages), old(pager.free), pager.pages, pager.free, n)
    ensures n !in pager.nodes && 0 < n < |pager.pages| && Accounted(pager.pages, pager.nodes, pager.free, {n})
    ensures Halved(old(pager.pages), u, n, virt, j, pager.pages)
    ensures pager.nodes[u].lo < oldMax <= pager.nodes[u].hi
    ensures |virt.entries| == pager.maxKeys + 1
    ensures InnerMin(pager.maxKeys) <= j && InnerMin(pager.maxKeys) <= pager.maxKeys - j && 1 <= j < pager.maxKeys
    decreases Top(pager.nodes, u) - pager.nodes[u].height, 2
  {
    ghost var pg, nf := pager.pages, pager.nodes;
    assert FillAt(pg, nf, pager.caps, pager.maxKeys, u);
    ghost var s := |pg[u].entries| / 2;
    var childMax;
    oldMax, childMax := ReadMaxima(pager, u, q, virt, i);
    PendingKids(pg, nf, u, q, virt, i);
    n := HalveNode(pager, u);
    ghost var mid := pager.pages;
    PlaceInHalf(pager, u, q, n, childMax, pg, virt, i, s);
    j := if i <= s then s + 1 else s;
    HalvedSameElse(pg, nf, u, n, virt, i, s, j, mid, pager.pages, q);
    NodesWritten(mid, nf, pager.freeHead, pager.free, {n}, pager.pages);
  }

  lemma HalvedSameElse(pg: seq<Page>, nf: Nodes, u: nat, n: nat, virt: Page, i: int, s: int, j: int, mid: seq<Page>,
                       pg': seq<Page>, q: nat)
    requires u in nf && u < |pg| && Pending(pg, nf, u, q, pg[u := virt], u, 0, virt, i)
    requires Halved(pg, u, n, pg[u], s, mid) && Halved(pg, u, n, virt, j, pg') && |mid| == |pg'| && |pg'| <= |pg| + 1
    requires n !in nf && (n < |pg| ==> |mid| == |pg|) && (n >= |pg| ==> n == |pg|)
    ensures forall x {:trigger pg'[x]} :: 0 <= x < |mid| && x !in nf && x != n ==> pg'[x] == mid[x]
  {
    PendingKids(pg, nf, u, q, virt, i);
    forall x | x in KidSet(UpperHalf(virt, j)) ensures x in nf {
      var k :| 0 <= k <= |UpperHalf(virt, j).entries| && Kid(UpperHalf(virt, j), k) == x;
      HalvesKids(virt, j, k);
      PendingKid(pg, nf, u, q, pg[u := virt], u, 0, virt, i, k + j + 1);
    }
    HalvesWrittenKids(pg[u], s);
  }

  lemma HalvesWrittenKids(e: Page, s: int)
    requires e.Internal? && 0 <= s < |e.entries|
    ensures forall x :: x in KidSet(UpperHalf(e, s)) ==> x in KidSet(e)
  {
    forall x | x in KidSet(UpperHalf(e, s)) ensures x in KidSet(e) {
      var k :| 0 <= k <= |UpperHalf(e, s).entries| && Kid(UpperHalf(e, s), k) == x;
      HalvesKids(e, s, k);
      assert Kid(e, k + s + 1) == x;
    }
  }

  // ------------------------------------------------------------ after the division: the root

  // The full node as if it had been written, with room for one more page.
  ghost function Virtual(pg: seq<Page>, u: nat, virt: Page, size: nat): seq<Page> {
    seq(size, x requires 0 <= x < size => if x == u then virt else if x < |pg| then pg[x] else Blank)
  }

  lemma VirtualShaped(pg: seq<Page>, nf: Nodes, u: nat, virt: Page, size: nat)
    requires u < |pg| <= size && Shaped(pg[u := virt], nf)
    ensures Shaped(Virtual(pg, u, virt, size), nf)
  {
    ShapedFrame(pg[u := virt], nf, Virtual(pg, u, virt, size));
  }

  lemma MaxIsSeparator(pg: seq<Page>, nf: Nodes, u: nat, q: nat, virt: Page, i: int, j: int, max: int)
    requires u in nf && u < |pg| && Pending(pg, nf, u, q, pg[u := virt], u, 0, virt, i)
    requires 0 <= j < |virt.entries|
    ensures Beneath(nf, nf[u].tree, nf[u].height, virt.entries[j].child)
    ensures MaxResult(nf, LowerHalf(virt, j), max) ==> max == virt.entries[j].key
  {
    PendingKid(pg, nf, u, q, pg[u := virt], u, 0, virt, i, j);
  }

  // No child is in both halves.
  lemma HalvesApart(shp: seq<Page>, nf: Nodes, u: nat, j: int, x: nat)
    requires Shaped(shp, nf) && u in nf && shp[u].Internal? && 0 <= j < |shp[u].entries|
    requires x in KidSet(LowerHalf(shp[u], j))
    ensures x !in KidSet(UpperHalf(shp[u], j)) && x in KidSet(shp[u])
  {
    var a :| 0 <= a <= |LowerHalf(shp[u], j).entries| && Kid(LowerHalf(shp[u], j), a) == x;
    HalvesKids(shp[u], j, a);
    assert Kid(shp[u], a) == x;
    if x in KidSet(UpperHalf(shp[u], j)) {
      var b :| 0 <= b <= |UpperHalf(shp[u], j).entries| && Kid(UpperHalf(shp[u], j), b) == x;
      HalvesKids(shp[u], j, b);
      KidOnce(shp, nf, u, a, b + j + 1);
    }
  }

  lemma HalvesCover(e: Page, j: int, x: nat)
    requires e.Internal? && 0 <= j < |e.entries|
    ensures x in KidSet(e) <==> x in KidSet(LowerHalf(e, j)) || x in KidSet(UpperHalf(e, j))
  {
    KidSetHas(e, x);
    KidSetHas(LowerHalf(e, j), x);
    KidSetHas(UpperHalf(e, j), x);
    if HasKid(e, x) { HalvesHave(e, j, x); }
    if x in KidSet(LowerHalf(e, j)) {
      var a :| 0 <= a <= |LowerHalf(e, j).entries| && Kid(LowerHalf(e, j), a) == x;
      HalvesKids(e, j, a);
      assert Kid(e, a) == x;
    }
    if x in KidSet(UpperHalf(e, j)) {
      var b :| 0 <= b <= |UpperHalf(e, j).entries| && Kid(UpperHalf(e, j), b) == x;
      HalvesKids(e, j, b);
      assert Kid(e, b + j + 1) == x;
    }
  }

  // The pages a root split writes are those of lifting the root and then cutting it.
  lemma RootSplitPage(pg: seq<Page>, nf: Nodes, u: nat, virt: Page, j: int, n: nat, l: nat, mid: seq<Page>,
                      fin: seq<Page>, x: nat)
    requires u in nf && nf[u].tree == u && u < |pg| <= |mid| <= |fin| && Shaped(pg[u := virt], nf)
    requires Halved(pg, u, n, virt, j, mid)
    requires l < |fin| && l !in nf && n !in nf && n != l
    requires x in nf || x == n || x == l
    requires x < |fin| && fin[x] == NewRootPage(mid, u, n, l, virt.entries[j].key, x)
    requires u !in KidSet(UpperHalf(virt, j)) && n !in KidSet(virt) && l !in KidSet(virt)
    ensures fin[x] == InnerSplitPage(LiftPages(Virtual(pg, u, virt, |fin|), u, l), l, n, 0, j, x)
  {
    var v := Virtual(pg, u, virt, |fin|);
    var a := LiftPages(v, u, l);
    assert a[l] == Internal(false, u, virt.entries, virt.right) && a[u] == Internal(true, 0, [], l);
    SameKidSet(UpperHalf(a[l], j), UpperHalf(virt, j));
    if x != u && x != n && x != l {
      HalvesCover(virt, j, x);
      if x in KidSet(LowerHalf(virt, j)) { HalvesApart(pg[u := virt], nf, u, j, x); }
    }
  }

  lemma RootSplitShaped(pg: seq<Page>, nf: Nodes, u: nat, q: nat, virt: Page, i: int, j: int, n: nat, l: nat,
                        mid: seq<Page>, fin: seq<Page>)
    requires u in nf && nf[u].tree == u && u < |pg| <= |mid| <= |fin|
    requires Pending(pg, nf, u, q, pg[u := virt], u, 0, virt, i)
    requires Halved(pg, u, n, virt, j, mid)
    requires 0 < l < |fin| && l !in nf && n !in nf && n != l && 0 < n
    requires forall x {:trigger fin[x]} :: 0 <= x < |fin| ==>
      fin[x] == NewRootPage(mid, u, n, l, virt.entries[j].key, x)
    ensures Shaped(fin, SplitNodes(LiftNodes(nf, u, l), l, n, virt.entries[j].key))
  {
    var v := Virtual(pg, u, virt, |fin|);
    VirtualShaped(pg, nf, u, virt, |fin|);
    LiftShaped(v, nf, u, l);
    var a, na := LiftPages(v, u, l), LiftNodes(nf, u, l);
    assert Kid(a[u], 0) == l;
    assert Ok(a, na, l);
    InnerSplitShaped(a, na, l, n, 0, j);
    forall x | x in KidSet(virt) ensures x in nf && x != u {
      var k :| 0 <= k <= |virt.entries| && Kid(virt, k) == x;
      PendingKid(pg, nf, u, q, pg[u := virt], u, 0, virt, i, k);
    }
    HalvesCover(virt, j, u);
    forall x | x in SplitNodes(na, l, n, virt.entries[j].key) ensures fin[x] == InnerSplitPages(a, l, n, 0, j)[x] {
      assert Ok(v, nf, u);
      if x in nf { assert Ok(v, nf, x); }
      RootSplitPage(pg, nf, u, virt, j, n, l, mid, fin, x);
    }
    ShapedFrame(InnerSplitPages(a, l, n, 0, j), SplitNodes(na, l, n, virt.entries[j].key), fin);
  }

  lemma RootSplitFilled(pg: seq<Page>, nf: Nodes, caps: map<nat, nat>, maxKeys: nat, u: nat, virt: Page, j: int, n: nat,
                        l: nat, mid: seq<Page>, fin: seq<Page>, m: int)
    requires u in nf && nf[u].tree == u && u < |pg| <= |mid| <= |fin| && pg[u].Internal?
    requires Filled(pg, nf, caps, maxKeys, {})
    requires Halved(pg, u, n, virt, j, mid)
    requires |virt.entries| == maxKeys + 1 && InnerMin(maxKeys) <= j && InnerMin(maxKeys) <= maxKeys - j
    requires 1 <= j < maxKeys
    requires 0 < l < |fin| && l !in nf && n !in nf && n != l
    requires forall x {:trigger fin[x]} :: 0 <= x < |fin| ==> fin[x] == NewRootPage(mid, u, n, l, m, x)
    ensures Filled(fin, SplitNodes(LiftNodes(nf, u, l), l, n, m), caps, maxKeys, {})
  {
    var nf' := SplitNodes(LiftNodes(nf, u, l), l, n, m);
    assert FillAt(pg, nf, caps, maxKeys, u);
    forall x | x in nf' ensures FillAt(fin, nf', caps, maxKeys, x) {
      if x != u && x != l && x != n { assert FillAt(pg, nf, caps, maxKeys, x); }
    }
  }

  lemma HalvesTogether(virt: Page, j: int)
    requires virt.Internal? && 0 <= j < |virt.entries|
    ensures forall x :: x in KidSet(virt) <==> x in KidSet(LowerHalf(virt, j)) || x in KidSet(UpperHalf(virt, j))
  {
    forall x ensures x in KidSet(virt) <==> x in KidSet(LowerHalf(virt, j)) || x in KidSet(UpperHalf(virt, j)) {
      HalvesCover(virt, j, x);
    }
  }

  lemma RootSplitRows(pg: seq<Page>, nf: Nodes, u: nat, virt: Page, j: int, n: nat, l: nat, mid: seq<Page>,
                      fin: seq<Page>, m: int)
    requires u in nf && nf[u].tree == u && u < |pg| <= |mid| <= |fin| && pg[u].Internal? && Shaped(pg[u := virt], nf)
    requires forall x :: x in nf ==> 0 < x < |pg|
    requires virt.Internal? && forall x :: x in KidSet(virt) ==> x in nf && nf[x].tree == u
    requires Halved(pg, u, n, virt, j, mid)
    requires 0 < l < |fin| && l !in nf && n !in nf && n != l && 0 < n
    requires forall x {:trigger fin[x]} :: 0 <= x < |fin| ==> fin[x] == NewRootPage(mid, u, n, l, m, x)
    ensures Rows(fin, SplitNodes(LiftNodes(nf, u, l), l, n, m), u) == Rows(pg, nf, u)
  {
    HalvesTogether(virt, j);
    RowsKept(pg, nf, fin, SplitNodes(LiftNodes(nf, u, l), l, n, m), u);
  }

  lemma RootSplitElsewhere(pg: seq<Page>, nf: Nodes, u: nat, virt: Page, j: int, n: nat, l: nat, mid: seq<Page>,
                           fin: seq<Page>, m: int)
    requires u in nf && nf[u].tree == u && u < |pg| <= |mid| <= |fin| && pg[u].Internal? && Shaped(pg[u := virt], nf)
    requires forall x :: x in nf ==> 0 < x < |pg|
    requires virt.Internal? && forall x :: x in KidSet(virt) ==> x in nf && nf[x].tree == u
    requires Halved(pg, u, n, virt, j, mid)
    requires 0 < l < |fin| && l !in nf && n !in nf && n != l && 0 < n
    requires forall x {:trigger fin[x]} :: 0 <= x < |fin| ==> fin[x] == NewRootPage(mid, u, n, l, m, x)
    ensures Elsewhere(pg, nf, fin, SplitNodes(LiftNodes(nf, u, l), l, n, m), u)
  {
    HalvesTogether(virt, j);
  }

  // The file once both halves of a full root hang off a new one.
  lemma RootSplitDone(pg: seq<Page>, nf: Nodes, caps: map<nat, nat>, maxKeys: nat, head: nat, free: seq<nat>,
                      u: nat, q: nat, virt: Page, i: int, j: int, n: nat, l: nat, mid: seq<Page>, fin: seq<Page>)
    requires u in nf && nf[u].tree == u && u < |pg| <= |mid| <= |fin| && pg[u].Internal?
    requires Pending(pg, nf, u, q, pg[u := virt], u, 0, virt, i) && Halved(pg, u, n, virt, j, mid)
    requires Filled(pg, nf, caps, maxKeys, {})
    requires |virt.entries| == maxKeys + 1 && InnerMin(maxKeys) <= j && InnerMin(maxKeys) <= maxKeys - j
    requires 1 <= j < maxKeys
    requires l !in nf && l != n && FreeList(fin, head, free) && Accounted(fin, nf, free, {n, l})
    requires forall x {:trigger fin[x]} :: 0 <= x < |fin| ==>
      fin[x] == NewRootPage(mid, u, n, l, virt.entries[j].key, x)
    requires forall x :: x in nf ==> 0 < x < |pg|
    requires forall x :: x in KidSet(virt) ==> x in nf && nf[x].tree == u
    ensures var nf' := SplitNodes(LiftNodes(nf, u, l), l, n, virt.entries[j].key);
      && Sound(fin, nf', head, free, caps, maxKeys, {}, {})
      && Rows(fin, nf', u) == Rows(pg, nf, u) && Elsewhere(pg, nf, fin, nf', u)
  {
    var m := virt.entries[j].key;
    RootSplitShaped(pg, nf, u, q, virt, i, j, n, l, mid, fin);
    RootSplitFilled(pg, nf, caps, maxKeys, u, virt, j, n, l, mid, fin, m);
    RootSplitRows(pg, nf, u, virt, j, n, l, mid, fin, m);
    RootSplitElsewhere(pg, nf, u, virt, j, n, l, mid, fin, m);
  }

  // From two halves of a full root, with a page allocated for the left one, to a sound tree one level higher.
  method FinishRoot(pager: Pager, u: nat, n: nat, ghost pg: seq<Page>, ghost q: nat, ghost virt: Page, ghost i: int,
                    ghost j: int)
    requires u in pager.nodes && pager.nodes[u].tree == u && u < |pg| <= |pager.pages| && pg[u].Internal? && 0 < u
    requires Pending(pg, pager.nodes, u, q, pg[u := virt], u, 0, virt, i)
    requires Halved(pg, u, n, virt, j, pager.pages) && n !in pager.nodes && 0 < n
    requires |pg| > 0 && pg[0].Header? && Filled(pg, pager.nodes, pager.caps, pager.maxKeys, {})
    requires FreeList(pager.pages, pager.freeHead, pager.free) && Accounted(pager.pages, pager.nodes, pager.free, {n})
    requires |virt.entries| == pager.maxKeys + 1
    requires InnerMin(pager.maxKeys) <= j && InnerMin(pager.maxKeys) <= pager.maxKeys - j && 1 <= j < pager.maxKeys
    modifies pager
    ensures Valid(pager) && pager.caps == old(pager.caps)
    ensures Rows(pager.pages, pager.nodes, u) == Rows(pg, old(pager.nodes), u)
    ensures Elsewhere(pg, old(pager.nodes), pager.pages, pager.nodes, u)
  {
    ghost var nf, mid, shp := pager.nodes, pager.pages, pg[u := virt];
    HalvedAgrees(pg, shp, nf, u, n, virt, j, mid);
    MaxIsSeparator(pg, nf, u, q, virt, i, j, virt.entries[j].key);
    VirtKids(pg, nf, u, q, virt, i, j);
    var l, max := CreateNewRoot(pager, u, n, shp, u, nf[u].height);
    MaxIsSeparator(pg, nf, u, q, virt, i, j, max);
    RootSplitDone(pg, nf, pager.caps, pager.maxKeys, pager.freeHead, pager.free, u, q, virt, i, j, n, l, mid,
                  pager.pages);
    pager.nodes := SplitNodes(LiftNodes(nf, u, l), l, n, max);
  }

  lemma VirtKids(pg: seq<Page>, nf: Nodes, u: nat, q: nat, virt: Page, i: int, j: int)
    requires u in nf && u < |pg| && Pending(pg, nf, u, q, pg[u := virt], u, 0, virt, i) && 0 <= j < |virt.entries|
    ensures forall x :: x in KidSet(virt) ==> x in nf && x != u && nf[x].tree == nf[u].tree
    ensures forall x :: x in KidSet(LowerHalf(virt, j)) ==> x in nf && x != u
  {
    forall x | x in KidSet(virt) ensures x in nf && x != u && nf[x].tree == nf[u].tree {
      var k :| 0 <= k <= |virt.entries| && Kid(virt, k) == x;
      PendingKid(pg, nf, u, q, pg[u := virt], u, 0, virt, i, k);
    }
    forall x | x in KidSet(LowerHalf(virt, j)) ensures x in nf && x != u { HalvesCover(virt, j, x); }
  }

  // ------------------------------------------------------------ after the division: the parent

  // Page u's upper half on page n is still to be added to u's parent, page p.
  ghost predicate CutUnder(pg: seq<Page>, nf: Nodes, u: nat, q: nat, virt: Page, i: int, j: int, n: nat, mid: seq<Page>,
                           p: nat, at: int) {
    && u in nf && u != nf[u].tree && u < |pg| <= |mid| && pg[u].Internal?
    && Pending(pg, nf, u, q, pg[u := virt], u, 0, virt, i)
    && Halved(pg, u, n, virt, j, mid) && n !in nf && 0 < n
    && p == virt.parent && p in nf && p != u && p < |pg| && pg[p].Internal?
    && 0 <= at <= |pg[p].entries| && Kid(pg[p], at) == u
  }

  lemma CutParent(pg: seq<Page>, nf: Nodes, u: nat, q: nat, virt: Page, i: int) returns (at: int)
    requires u in nf && u != nf[u].tree && u < |pg|
    requires Pending(pg, nf, u, q, pg[u := virt], u, 0, virt, i)
    ensures virt.parent in nf && virt.parent != u && virt.parent < |pg| && pg[virt.parent].Internal?
    ensures 0 <= at <= |pg[virt.parent].entries| && Kid(pg[virt.parent], at) == u
    ensures nf[virt.parent].tree == nf[u].tree && nf[virt.parent].height == nf[u].height + 1
  {
    var shp := pg[u := virt];
    assert Ok(shp, nf, u);
    ParentCovers(shp, nf, u);
    at :| 0 <= at <= |shp[virt.parent].entries| && Kid(shp[virt.parent], at) == u;
  }

  lemma CutShaped(pg: seq<Page>, nf: Nodes, u: nat, q: nat, virt: Page, i: int, j: int, n: nat, mid: seq<Page>, p: nat,
                  at: int)
    requires CutUnder(pg, nf, u, q, virt, i, j, n, mid, p, at) && |mid| <= |pg| + 1
    ensures mid[p] == pg[p]
    ensures Shaped(mid[p := SplitKid(pg[p], at, virt.entries[j].key, n)], SplitNodes(nf, u, n, virt.entries[j].key))
  {
    var m := virt.entries[j].key;
    var v := Virtual(pg, u, virt, |mid|);
    VirtualShaped(pg, nf, u, virt, |mid|);
    assert Ok(v, nf, u);
    NotMoved(v, nf, u, j, p);
    CutHeight(v, nf, u);
    InnerSplitShaped(v, nf, u, n, at, j);
    ShapedFrame(InnerSplitPages(v, u, n, at, j), SplitNodes(nf, u, n, m), mid[p := SplitKid(pg[p], at, m, n)]);
  }

  lemma CutHeight(v: seq<Page>, nf: Nodes, u: nat)
    requires Shaped(v, nf) && u in nf && u != nf[u].tree
    ensures v[u].parent in nf && nf[v[u].parent].height == nf[u].height + 1
  {
    ParentCovers(v, nf, u);
  }

  // The parent's page now lacks page n, and nothing else is out of order.
  lemma CutPending(pg: seq<Page>, nf: Nodes, u: nat, q: nat, virt: Page, i: int, j: int, n: nat, mid: seq<Page>, p: nat,
                   at: int, fin: seq<Page>)
    requires CutUnder(pg, nf, u, q, virt, i, j, n, mid, p, at) && |mid| <= |pg| + 1
    requires p < |mid| && mid[p].Internal? && at <= |mid[p].entries|
    requires fin == mid[p := UpdatedKey(mid[p], at, virt.entries[j].key)]
    ensures Pending(fin, SplitNodes(nf, u, n, virt.entries[j].key), p, n,
                    fin[p := SplitKid(pg[p], at, virt.entries[j].key, n)], p, 0,
                      SplitKid(pg[p], at, virt.entries[j].key, n), at + 1)
    ensures |fin[p].entries| == |pg[p].entries|
  {
    var m := virt.entries[j].key;
    var target := SplitKid(pg[p], at, m, n);
    CutShaped(pg, nf, u, q, virt, i, j, n, mid, p, at);
    UpdatedIsPending(pg[p], at, m, n);
    SplitKidKids(pg[p], at, m, n, at + 1);
    assert fin[p := target] == mid[p := target];
    var nf' := SplitNodes(nf, u, n, m);
    forall x {:trigger AlikeAt(fin, fin[p := target], x)} | x in nf' && nf'[x].tree ==
      nf'[p].tree && nf'[x].height < nf'[p].height
      ensures AlikeAt(fin, fin[p := target], x)
    {
      assert Ok(fin[p := target], nf', x);
    }
  }

  lemma CutFilled(pg: seq<Page>, nf: Nodes, caps: map<nat, nat>, maxKeys: nat, u: nat, q: nat, virt: Page, i: int,
                  j: int, n: nat,
                  mid: seq<Page>, p: nat, at: int, fin: seq<Page>)
    requires CutUnder(pg, nf, u, q, virt, i, j, n, mid, p, at) && mid[p] == pg[p]
    requires fin == mid[p := UpdatedKey(mid[p], at, virt.entries[j].key)]
    requires Filled(pg, nf, caps, maxKeys, {})
    requires |virt.entries| == maxKeys + 1 && InnerMin(maxKeys) <= j && InnerMin(maxKeys) <= maxKeys - j
    requires 1 <= j < maxKeys
    ensures Filled(fin, SplitNodes(nf, u, n, virt.entries[j].key), caps, maxKeys, {})
  {
    var nf' := SplitNodes(nf, u, n, virt.entries[j].key);
    assert FillAt(pg, nf, caps, maxKeys, u);
    forall x | x in nf' ensures FillAt(fin, nf', caps, maxKeys, x) {
      if x != u && x != n { assert FillAt(pg, nf, caps, maxKeys, x); }
    }
  }

  lemma CutRows(pg: seq<Page>, nf: Nodes, u: nat, q: nat, virt: Page, i: int, j: int, n: nat, mid: seq<Page>, p: nat,
                at: int, fin: seq<Page>)
    requires CutUnder(pg, nf, u, q, virt, i, j, n, mid, p, at) && mid[p] == pg[p] && nf[p].tree == nf[u].tree
    requires fin == mid[p := UpdatedKey(mid[p], at, virt.entries[j].key)]
    requires forall x :: x in nf ==> 0 < x < |pg|
    requires forall x :: x in KidSet(virt) ==> x in nf && nf[x].tree == nf[u].tree
    ensures Rows(fin, SplitNodes(nf, u, n, virt.entries[j].key), nf[u].tree) == Rows(pg, nf, nf[u].tree)
  {
    HalvesTogether(virt, j);
    RowsKept(pg, nf, fin, SplitNodes(nf, u, n, virt.entries[j].key), nf[u].tree);
  }

  lemma CutElsewhere(pg: seq<Page>, nf: Nodes, u: nat, q: nat, virt: Page, i: int, j: int, n: nat, mid: seq<Page>,
                     p: nat, at: int, fin: seq<Page>)
    requires CutUnder(pg, nf, u, q, virt, i, j, n, mid, p, at) && mid[p] == pg[p] && nf[p].tree == nf[u].tree
    requires fin == mid[p := UpdatedKey(mid[p], at, virt.entries[j].key)]
    requires forall x :: x in nf ==> 0 < x < |pg|
    requires forall x :: x in KidSet(virt) ==> x in nf && nf[x].tree == nf[u].tree
    ensures Elsewhere(pg, nf, fin, SplitNodes(nf, u, n, virt.entries[j].key), nf[u].tree)
  {
    HalvesTogether(virt, j);
  }

  // Adds the child page u lacks, splitting u if it is full: the file is sound again.
  method AddChild(pager: Pager, u: nat, q: nat, ghost virt: Page, ghost i: int)
    requires Lacking(pager, u, q, virt, i)
    requires pager.nodes[u].height <= Top(pager.nodes, u)
    modifies pager
    ensures Restored(pager, old(pager.nodes)[u].tree)
    decreases Top(pager.nodes, u) - pager.nodes[u].height, 5
  {
    ghost var pg := pager.pages;
    InternalNodeInsert(pager, u, q, pg[u := virt], u, 0, virt, i);
    if |pg[u].entries| < pager.maxKeys {
      RoomRestores(pg, pager.nodes, pager.freeHead, pager.free, pager.caps, pager.maxKeys, u, q, virt, i, pager.pages);
    }
  }

  // Lowers the separator of a node that has just been cut, found by the maximum it had before.
  method LowerCutNode(pager: Pager, u: nat, p: nat, oldMax: int, newMax: int, ghost pg: seq<Page>, ghost q: nat,
                      ghost virt: Page,
                      ghost i: int, ghost j: int, ghost n: nat, ghost at: int)
    requires CutUnder(pg, pager.nodes, u, q, virt, i, j, n, pager.pages, p, at) && |pager.pages| <= |pg| + 1
    requires pager.nodes[u].lo < oldMax <= pager.nodes[u].hi && newMax == virt.entries[j].key
    modifies pager`pages
    ensures p < |old(pager.pages)| && old(pager.pages)[p] == pg[p]
    ensures pager.pages == old(pager.pages)[p := UpdatedKey(pg[p], at, newMax)]
  {
    ghost var nf, mid, shp := pager.nodes, pager.pages, pg[u := virt];
    CutShaped(pg, nf, u, q, virt, i, j, n, mid, p, at);
    EntriesAscend(shp, nf, p);
    UpdateInternalNodeKey(pager, p, oldMax, newMax);
    ghost var k :| ChildPosition(mid[p].entries, oldMax, k) && pager.pages == mid[p := UpdatedKey(mid[p], k, newMax)];
    OldKeyFindsChild(shp, nf, p, at, oldMax, k);
  }

  // Tells the parent of a node that has been cut about its upper half on page n.
  // What a node just cut offers the walk to its new maximum, and where its parent has it.
  lemma CutStart(pg: seq<Page>, nf: Nodes, u: nat, q: nat, virt: Page, i: int, j: int, n: nat, mid: seq<Page>)
    returns (at: int)
    requires u in nf && nf[u].tree != u && u < |pg| <= |mid| && pg[u].Internal? && forall x :: x in nf ==> 0 < x < |pg|
    requires Pending(pg, nf, u, q, pg[u := virt], u, 0, virt, i) && Halved(pg, u, n, virt, j, mid) && n !in nf && 0 < n
    ensures AgreeBelow(mid, pg[u := virt], nf, nf[u].tree, nf[u].height)
    ensures mid[u] == LowerHalf(virt, j) && Beneath(nf, nf[u].tree, nf[u].height, mid[u].right)
    ensures forall k :: MaxResult(nf, mid[u], k) ==> k == virt.entries[j].key
    ensures CutUnder(pg, nf, u, q, virt, i, j, n, mid, virt.parent, at)
    ensures mid[u].parent == virt.parent && nf[virt.parent].tree == nf[u].tree
    ensures nf[virt.parent].height == nf[u].height + 1
  {
    at := CutParent(pg, nf, u, q, virt, i);
    HalvedAgrees(pg, pg[u := virt], nf, u, n, virt, j, mid);
    MaxIsSeparator(pg, nf, u, q, virt, i, j, virt.entries[j].key);
    forall k ensures MaxResult(nf, mid[u], k) ==> k == virt.entries[j].key {
      MaxIsSeparator(pg, nf, u, q, virt, i, j, k);
    }
  }

  method FinishInner(pager: Pager, u: nat, n: nat, oldMax: int, ghost pg: seq<Page>, ghost q: nat, ghost virt: Page,
                     ghost i: int, ghost j: int)
    requires u in pager.nodes && pager.nodes[u].tree != u && u < |pg| <= |pager.pages| <= |pg| + 1 && pg[u].Internal?
    requires Pending(pg, pager.nodes, u, q, pg[u := virt], u, 0, virt, i)
    requires Halved(pg, u, n, virt, j, pager.pages) && n !in pager.nodes && 0 < n
    requires forall x :: x in pager.nodes ==> 0 < x < |pg|
    requires Filled(pg, pager.nodes, pager.caps, pager.maxKeys, {})
    requires FreeList(pager.pages, pager.freeHead, pager.free) && Accounted(pager.pages, pager.nodes, pager.free, {n})
    requires |virt.entries| == pager.maxKeys + 1 && pager.nodes[u].lo < oldMax <= pager.nodes[u].hi
    requires InnerMin(pager.maxKeys) <= j && InnerMin(pager.maxKeys) <= pager.maxKeys - j && 1 <= j < pager.maxKeys
    modifies pager
    ensures Valid(pager) && pager.caps == old(pager.caps)
    ensures Rows(pager.pages, pager.nodes, old(pager.nodes)[u].tree) ==
      Rows(pg, old(pager.nodes), old(pager.nodes)[u].tree)
    ensures Elsewhere(pg, old(pager.nodes), pager.pages, pager.nodes, old(pager.nodes)[u].tree)
    decreases Top(pager.nodes, u) - pager.nodes[u].height, 1
  {
    ghost var nf, mid, t := pager.nodes, pager.pages, pager.nodes[u].tree;
    ghost var at := CutStart(pg, nf, u, q, virt, i, j, n, mid);
    var newMax := GetNodeMaxKey(pager, u, pg[u := virt], t, nf[u].height);
    var p := pager.pages[u].parent;
    LowerCutNode(pager, u, p, oldMax, newMax, pg, q, virt, i, j, n, at);
    ghost var fin := pager.pages;
    CutLacking(pg, nf, pager.freeHead, pager.free, pager.caps, pager.maxKeys, u, q, virt, i, j, n, mid, p, at, fin);
    pager.nodes := SplitNodes(nf, u, n, newMax);
    ghost var nf' := pager.nodes;
    AddChild(pager, p, n, SplitKid(pg[p], at, newMax, n), at + 1);
    ElsewhereTrans(pg, nf, fin, nf', pager.pages, pager.nodes, t);
  }

  lemma CutLacking(pg: seq<Page>, nf: Nodes, head: nat, free: seq<nat>, caps: map<nat, nat>, maxKeys: nat,
                   u: nat, q: nat, virt: Page, i: int, j: int, n: nat, mid: seq<Page>, p: nat, at: int, fin: seq<Page>)
    requires CutUnder(pg, nf, u, q, virt, i, j, n, mid, p, at) && |mid| <= |pg| + 1 && nf[p].tree == nf[u].tree
    requires nf[p].height == nf[u].height + 1
    requires p < |mid| && mid[p] == pg[p] && fin == mid[p := UpdatedKey(pg[p], at, virt.entries[j].key)]
    requires forall x :: x in nf ==> 0 < x < |pg|
    requires Filled(pg, nf, caps, maxKeys, {}) && FreeList(mid, head, free) && Accounted(mid, nf, free, {n})
    requires |virt.entries| == maxKeys + 1 && InnerMin(maxKeys) <= j && InnerMin(maxKeys) <= maxKeys - j
    requires 1 <= j < maxKeys
    ensures var nf' := SplitNodes(nf, u, n, virt.entries[j].key);
      && Pending(fin, nf', p, n, fin[p := SplitKid(pg[p], at, virt.entries[j].key, n)], p, 0,
                 SplitKid(pg[p], at, virt.entries[j].key, n), at + 1)
      && Filled(fin, nf', caps, maxKeys, {})
      && FreeList(fin, head, free) && Accounted(fin, nf', free, {})
      && Rows(fin, nf', nf[u].tree) == Rows(pg, nf, nf[u].tree)
      && Elsewhere(pg, nf, fin, nf', nf[u].tree)
      && nf'[p].height <= Top(nf', p) && Top(nf', p) == Top(nf, u) && nf'[p] == nf[p]
  {
    VirtKids(pg, nf, u, q, virt, i, j);
    CutPending(pg, nf, u, q, virt, i, j, n, mid, p, at, fin);
    CutFilled(pg, nf, caps, maxKeys, u, q, virt, i, j, n, mid, p, at, fin);
    CutRows(pg, nf, u, q, virt, i, j, n, mid, p, at, fin);
    CutElsewhere(pg, nf, u, q, virt, i, j, n, mid, p, at, fin);
    NodesWritten(mid, nf, head, free, {n}, fin);
    assert Ok(pg[u := virt], nf, p);
  }

  method InternalNodeSplitAndInsert(pager: Pager, u: nat, q: nat, ghost virt: Page, ghost i: int)
    requires Lacking(pager, u, q, virt, i) && |pager.pages[u].entries| >= pager.maxKeys
    requires pager.nodes[u].height <= Top(pager.nodes, u)
    modifies pager
    ensures Restored(pager, old(pager.nodes)[u].tree)
    decreases Top(pager.nodes, u) - pager.nodes[u].height, 3
  {
    ghost var pg := pager.pages;
    var n, oldMax;
    ghost var j;
    assert Ok(pg[u := virt], pager.nodes, u);
    n, oldMax, j := DivideInternal(pager, u, q, virt, i);
    if pager.pages[u].isRoot {
      FinishRoot(pager, u, n, pg, q, virt, i, j);
    } else {
      FinishInner(pager, u, n, oldMax, pg, q, virt, i, j);
    }
  }
}
