/** Adding a child to an internal node, splitting full nodes up to the root. */
module Insert {
  import opened Pages
  import opened Shape
  import opened Split
  import opened Boundary
  import opened Search
  import opened Pagers
  import opened Fill
  import opened MaxKey

  // ------------------------------------------------------------ a node with a child still to come

  // The page as it is on disk while child i has yet to be put into it.
  function DropKid(e: Page, i: int): Page
    requires e.Internal? && 0 <= i <= |e.entries| && |e.entries| > 0
  {
    if i == |e.entries| then e.(entries := e.entries[..i - 1], right := e.entries[i - 1].child)
    else e.(entries := e.entries[..i] + e.entries[i + 1..])
  }

  // `target` is the part of node w's children from `off` on.
  ghost predicate Window(e: Page, off: int, target: Page) {
    && e.Internal? && target.Internal? && 0 <= off && off + |target.entries| <= |e.entries|
    && target.entries == e.entries[off..off + |target.entries|]
    && target.right == Kid(e, off + |target.entries|)
  }

  lemma WindowKid(e: Page, off: int, target: Page, i: int)
    requires Window(e, off, target) && 0 <= i <= |target.entries|
    ensures Kid(target, i) == Kid(e, off + i)
    ensures i < |target.entries| ==> target.entries[i] == e.entries[off + i]
  {
  }

  // Page u is to become `target`, a run of the children of node w of the well-shaped
  // pages `shp`; child i of it, page q, is not there yet.
  ghost predicate Pending(pg: seq<Page>, nf: Nodes, u: nat, q: nat, shp: seq<Page>, w: nat, off: int, target: Page,
                          i: int) {
    && w in nf && AgreeBelow(pg, shp, nf, nf[w].tree, nf[w].height)
    && Window(shp[w], off, target)
    && 0 <= i <= |target.entries| && |target.entries| > 0 && Kid(target, i) == q
    && u < |pg| && pg[u] == DropKid(target, i)
    && (u in nf ==> u == w) && q < |pg|
  }

  lemma EntriesAscend(shp: seq<Page>, nf: Nodes, w: nat)
    requires Shaped(shp, nf) && w in nf && shp[w].Internal?
    ensures SeparatorsAscend(shp[w].entries)
  {
    forall i, j | 0 <= i < j < |shp[w].entries| ensures shp[w].entries[i].key < shp[w].entries[j].key {
      KidInside(shp, nf, w, j);
      LowsAscend(shp, nf, w, i, j);
    }
  }

  lemma DropKidAscends(e: Page, i: int)
    requires e.Internal? && 0 <= i <= |e.entries| && |e.entries| > 0 && SeparatorsAscend(e.entries)
    ensures SeparatorsAscend(DropKid(e, i).entries)
  {
  }

  lemma PendingAscends(pg: seq<Page>, nf: Nodes, u: nat, q: nat, shp: seq<Page>, w: nat, off: int, target: Page, i: int)
    requires Pending(pg, nf, u, q, shp, w, off, target, i)
    ensures SeparatorsAscend(target.entries) && SeparatorsAscend(pg[u].entries)
  {
    EntriesAscend(shp, nf, w);
    DropKidAscends(target, i);
  }

  lemma PendingKid(pg: seq<Page>, nf: Nodes, u: nat, q: nat, shp: seq<Page>, w: nat, off: int, target: Page, i: int,
                   j: int)
    requires Pending(pg, nf, u, q, shp, w, off, target, i) && 0 <= j <= |target.entries|
    ensures var c := Kid(target, j);
      && Beneath(nf, nf[w].tree, nf[w].height, c) && nf[c].height == nf[w].height - 1
      && nf[c].hi == HighOf(shp[w], nf[w], off + j) && nf[c].lo == LowOf(shp[w], nf[w], off + j)
      && nf[c].lo < nf[c].hi <= TOP
      && (j < |target.entries| ==> nf[c].hi == target.entries[j].key < TOP)
      && (j > 0 ==> nf[c].lo == target.entries[j - 1].key)
  {
    WindowKid(shp[w], off, target, j);
    if j > 0 { WindowKid(shp[w], off, target, j - 1); }
    KidInside(shp, nf, w, off + j);
    KidParent(shp, nf, w, off + j);
    assert Ok(shp, nf, w);
    if j < |target.entries| { KidInside(shp, nf, w, off + j + 1); assert Ok(shp, nf, Kid(shp[w], off + j + 1)); }
  }

  // The page after the new child takes its place, as the two branches of the insert write it.
  function AppendKid(e: Page, rightMax: int, q: nat): Page
    requires e.Internal?
  {
    e.(entries := e.entries + [Entry(e.right, rightMax)], right := q)
  }

  function PlaceKid(e: Page, at: int, q: nat, max: int): Page
    requires e.Internal? && 0 <= at <= |e.entries|
  {
    e.(entries := e.entries[..at] + [Entry(q, max)] + e.entries[at..])
  }

  lemma AppendedIsTarget(target: Page, rightMax: int)
    requires target.Internal? && |target.entries| > 0 && target.entries[|target.entries| - 1].key == rightMax
    ensures AppendKid(DropKid(target, |target.entries|), rightMax, target.right) == target
  {
    var n := |target.entries|;
    assert target.entries == target.entries[..n - 1] + [target.entries[n - 1]];
  }

  lemma PlacedIsTarget(target: Page, i: int, childMax: int, index: int)
    requires target.Internal? && 0 <= i < |target.entries| && target.entries[i].key == childMax
    requires SeparatorsAscend(target.entries) && ChildPosition(DropKid(target, i).entries, childMax, index)
    ensures PlaceKid(DropKid(target, i), index, target.entries[i].child, childMax) == target
  {
    RoomIndex(target.entries, i, childMax, index);
    assert target.entries == target.entries[..i] + [target.entries[i]] + target.entries[i + 1..];
  }

  // A child before the last has smaller keys than the last has.
  lemma LastIsLargest(pg: seq<Page>, nf: Nodes, u: nat, q: nat, shp: seq<Page>, w: nat, off: int, target: Page, i: int)
    requires Pending(pg, nf, u, q, shp, w, off, target, i) && i < |target.entries|
    ensures q in nf && target.right in nf && nf[q].hi <= nf[target.right].lo
  {
    var n := |target.entries|;
    PendingKid(pg, nf, u, q, shp, w, off, target, i, i);
    PendingKid(pg, nf, u, q, shp, w, off, target, i, n);
    KidInside(shp, nf, w, off + i);
    LowsAscend(shp, nf, w, off + i, off + n);
  }

  // Whichever branch is taken, the keys read off the tree put the child exactly where it belongs.
  lemma RoomBranches(pg: seq<Page>, nf: Nodes, u: nat, q: nat, shp: seq<Page>, w: nat, off: int, target: Page, i: int,
                     childMax: int, rightMax: int, index: int)
    requires Pending(pg, nf, u, q, shp, w, off, target, i) && q in nf && pg[u].right in nf
    requires IsMax(nf, q, childMax) && IsMax(nf, pg[u].right, rightMax)
    requires ChildPosition(pg[u].entries, childMax, index)
    ensures childMax > rightMax <==> i == |target.entries|
    ensures if childMax > rightMax then target == AppendKid(pg[u], rightMax, q)
            else target == PlaceKid(pg[u], index, q, childMax)
  {
    var n := |target.entries|;
    PendingAscends(pg, nf, u, q, shp, w, off, target, i);
    PendingKid(pg, nf, u, q, shp, w, off, target, i, i);
    PendingKid(pg, nf, u, q, shp, w, off, target, i, n);
    if i == n {
      PendingKid(pg, nf, u, q, shp, w, off, target, i, n - 1);
      AppendedIsTarget(target, rightMax);
    } else {
      LastIsLargest(pg, nf, u, q, shp, w, off, target, i);
      PlacedIsTarget(target, i, childMax, index);
    }
  }

  lemma RoomIndex(entries: seq<Entry>, i: int, key: int, index: int)
    requires 0 <= i < |entries| && SeparatorsAscend(entries) && entries[i].key == key
    requires ChildPosition(entries[..i] + entries[i + 1..], key, index)
    ensures index == i
  {
    var d := entries[..i] + entries[i + 1..];
    forall k | 0 <= k < |d| ensures if k < i then d[k].key < key else key < d[k].key {
      assert d[k] == entries[if k < i then k else k + 1];
    }
    assert i < |d| ==> key < d[i].key;
    assert index < |d| ==> key <= d[index].key;
  }

  // ------------------------------------------------------------ moving children

  // Points every child of the internal node on page p back at p.
  method ReparentChildren(pager: Pager, p: nat)
    requires p < |pager.pages| && pager.pages[p].Internal?
    requires forall x :: x in KidSet(pager.pages[p]) ==> x < |pager.pages| && x != p
    modifies pager`pages
    ensures pager.pages == Reparent(old(pager.pages), KidSet(old(pager.pages)[p]), p)
  {
    var node := pager.pages[p];
    ghost var before := pager.pages;
    var i := 0;
    ghost var done: set<nat> := {};
    while i <= |node.entries|
      invariant 0 <= i <= |node.entries| + 1
      invariant done == set j | 0 <= j < i :: Kid(node, j)
      invariant done <= KidSet(node)
      invariant pager.pages == Reparent(before, done, p)
    {
      var c := Kid(node, i);
      assert c in KidSet(node);
      pager.pages := pager.pages[c := SetParent(pager.pages[c], p)];
      done := done + {c};
      i := i + 1;
    }
    assert done == KidSet(node);
  }

  // ------------------------------------------------------------ the old maximum finds the node

  // A search of the parent for any key a child owned before it was cut finds that
  // child, even when the key is below the separator recorded for it.
  lemma OldKeyFindsChild(pg: seq<Page>, nf: Nodes, p: nat, i: int, k: int, index: int)
    requires Shaped(pg, nf) && p in nf && pg[p].Internal? && 0 <= i <= |pg[p].entries|
    requires Kid(pg[p], i) in nf && nf[Kid(pg[p], i)].lo < k <= nf[Kid(pg[p], i)].hi
    requires ChildPosition(pg[p].entries, k, index)
    ensures index == i
  {
    KidInside(pg, nf, p, i);
  }

  // The parent's page after that update: everything is in place but the new sibling.
  function UpdatedKey(e: Page, i: int, k: int): Page
    requires e.Internal? && 0 <= i <= |e.entries|
  {
    if i < |e.entries| then Relabel(e, i, k) else e
  }

  lemma UpdatedIsPending(e: Page, i: int, m: int, q: nat)
    requires e.Internal? && 0 <= i <= |e.entries|
    ensures UpdatedKey(e, i, m) == DropKid(SplitKid(e, i, m, q), i + 1)
    ensures Kid(SplitKid(e, i, m, q), i + 1) == q
  {
    var s := SplitKid(e, i, m, q);
    SplitKidKids(e, i, m, q, i + 1);
    if i < |e.entries| {
      assert s.entries[..i + 1] + s.entries[i + 2..] == Relabel(e, i, m).entries;
    } else {
      assert s.entries[..i] == e.entries;
    }
  }

  method UpdateInternalNodeKey(pager: Pager, p: nat, oldKey: int, newKey: int)
    requires p < |pager.pages| && pager.pages[p].Internal? && SeparatorsAscend(pager.pages[p].entries)
    modifies pager`pages
    ensures exists i :: (ChildPosition(old(pager.pages)[p].entries, oldKey, i)
      && pager.pages == old(pager.pages)[p := UpdatedKey(old(pager.pages)[p], i, newKey)])
  {
    var oldChildIndex := InternalNodeFindChild(pager.pages[p], oldKey);
    if oldChildIndex < |pager.pages[p].entries| {
      pager.pages := pager.pages[p := Relabel(pager.pages[p], oldChildIndex, newKey)];
    }
    assert ChildPosition(old(pager.pages)[p].entries, oldKey, oldChildIndex);
    assert pager.pages == old(pager.pages)[p := UpdatedKey(old(pager.pages)[p], oldChildIndex, newKey)];
  }

  // ------------------------------------------------------------ what a cascade starts and ends with

  // Everything is in order except that page u still lacks child i of `virt`.
  ghost predicate Lacking(pager: Pager, u: nat, q: nat, virt: Page, i: int)
    reads pager
  {
    && u in pager.nodes && u < |pager.pages|
    && Pending(pager.pages, pager.nodes, u, q, pager.pages[u := virt], u, 0, virt, i)
    && Filled(pager.pages, pager.nodes, pager.caps, pager.maxKeys, {})
    && FreeList(pager.pages, pager.freeHead, pager.free)
    && Accounted(pager.pages, pager.nodes, pager.free, {})
  }

  // The file is sound again; tree t holds the rows it held, and no other tree was touched.
  twostate predicate Restored(pager: Pager, t: nat)
    reads pager
  {
    && Valid(pager)
    && pager.caps == old(pager.caps)
    && Rows(pager.pages, pager.nodes, t) == Rows(old(pager.pages), old(pager.nodes), t)
    && Elsewhere(old(pager.pages), old(pager.nodes), pager.pages, pager.nodes, t)
  }

  // Room in the node: the page becomes its target, which makes the whole file sound.
  lemma RoomRestores(pg: seq<Page>, nf: Nodes, head: nat, free: seq<nat>, caps: map<nat, nat>, maxKeys: nat,
                     u: nat, q: nat, virt: Page, i: int, pg': seq<Page>)
    requires u in nf && u < |pg| && Pending(pg, nf, u, q, pg[u := virt], u, 0, virt, i)
    requires Filled(pg, nf, caps, maxKeys, {}) && FreeList(pg, head, free) && Accounted(pg, nf, free, {})
    requires |pg[u].entries| < maxKeys && pg' == pg[u := virt][q := SetParent(pg[q], u)]
    ensures Sound(pg', nf, head, free, caps, maxKeys, {}, {})
    ensures Rows(pg', nf, nf[u].tree) == Rows(pg, nf, nf[u].tree)
    ensures Elsewhere(pg, nf, pg', nf, nf[u].tree)
  {
    var shp := pg[u := virt];
    PendingKid(pg, nf, u, q, shp, u, 0, virt, i, i);
    KidParent(shp, nf, u, i);
    assert AlikeAt(pg, shp, q);
    assert SetParent(pg[q], u) == pg[q] == shp[q];
    assert pg' == shp;
    forall x | x in nf ensures FillAt(pg', nf, caps, maxKeys, x) { assert FillAt(pg, nf, caps, maxKeys, x); }
    FreeListFrame(pg, head, free, pg');
    RowsKept(pg, nf, pg', nf, nf[u].tree);
  }

  // ------------------------------------------------------------ dividing a full node

  // The pages once full node u has been divided between itself and page n, its
  // separator j of `virt` going to neither half.
  ghost predicate Halved(pg: seq<Page>, u: nat, n: nat, virt: Page, j: int, pg': seq<Page>) {
    && virt.Internal? && 0 <= j < |virt.entries| && u < |pg| && |pg| <= |pg'|
    && n < |pg'| && u != n
    && pg'[u] == LowerHalf(virt, j) && pg'[n] == UpperHalf(virt, j)
    && forall x {:trigger pg'[x]} :: 0 <= x < |pg| && x != u && x != n ==>
         pg'[x] == if x in KidSet(UpperHalf(virt, j)) then SetParent(pg[x], n) else pg[x]
  }

  // Where the half that must take the pending child stands in the divided node.
  lemma HalfWindow(virt: Page, j: int)
    requires virt.Internal? && 0 <= j < |virt.entries|
    ensures Window(virt, 0, LowerHalf(virt, j))
    ensures Window(virt, j + 1, UpperHalf(virt, j))
  {
  }

  // The pages of the two halves, before the pending child is placed, in terms of the page on disk.
  lemma HalvesOnDisk(virt: Page, i: int, s: int)
    requires virt.Internal? && 0 <= i <= |virt.entries| && |virt.entries| > 0
    requires 0 <= s < |virt.entries| - 1
    ensures var e := DropKid(virt, i);
      && (i <= s ==> (
            && LowerHalf(e, s) == DropKid(LowerHalf(virt, s + 1), i)
            && UpperHalf(e, s) == UpperHalf(virt, s + 1)
            && e.entries[s] == virt.entries[s + 1]))
      && (i > s && s + 1 < |virt.entries| - 1 ==> (
            && LowerHalf(e, s) == LowerHalf(virt, s)
            && UpperHalf(e, s) == DropKid(UpperHalf(virt, s), i - s - 1)
            && e.entries[s].child == virt.entries[s].child))
  {
    var e := DropKid(virt, i);
    if i <= s {
      assert LowerHalf(e, s).entries == DropKid(LowerHalf(virt, s + 1), i).entries;
      assert UpperHalf(e, s).entries == UpperHalf(virt, s + 1).entries;
    } else if s + 1 < |virt.entries| - 1 {
      assert LowerHalf(e, s).entries == LowerHalf(virt, s).entries;
      assert UpperHalf(e, s).entries == DropKid(UpperHalf(virt, s), i - s - 1).entries;
    }
  }
}
