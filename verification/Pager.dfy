/** The pager: the pages of the file, and the list of those no node uses. */
module Pagers {
  import opened Pages
  import opened Shape

  // The i-th page of a free list names the one after it; the last names 0.
  ghost predicate LinkAt(pg: seq<Page>, free: seq<nat>, i: nat)
    requires i < |free|
  {
    0 < free[i] < |pg| && pg[free[i]] == Free(if i + 1 < |free| then free[i + 1] else 0)
  }

  // The free list, from its head, is `free`.
  ghost predicate FreeList(pg: seq<Page>, head: nat, free: seq<nat>) {
    && head == (if |free| == 0 then 0 else free[0]) && (|free| > 0 ==> 0 < head < |pg|)
    && (forall i {:trigger LinkAt(pg, free, i)} :: 0 <= i < |free| ==> LinkAt(pg, free, i))
    && (forall i, j :: 0 <= i < j < |free| ==> free[i] != free[j])
  }

  // Every page has exactly one use: page 0 is the header; any other is a tree's
  // node, on the free list, or in `held`, allocated but not yet part of a tree.
  ghost predicate Accounted(pg: seq<Page>, nf: Nodes, free: seq<nat>, held: set<nat>) {
    && |pg| > 0 && pg[0].Header?
    && (forall p :: p in nf || p in free || p in held ==> 0 < p < |pg|)
    && (forall p :: 0 < p < |pg| ==> p in nf || p in free || p in held)
    && (forall p :: p in free ==> p !in nf && p !in held)
    && (forall p :: p in held ==> p !in nf)
  }

  lemma FreeAt(pg: seq<Page>, head: nat, free: seq<nat>, i: nat)
    requires FreeList(pg, head, free) && i < |free|
    ensures 0 < free[i] < |pg| && pg[free[i]] == Free(if i + 1 < |free| then free[i + 1] else 0)
  {
    assert LinkAt(pg, free, i);
  }

  lemma FreeListFrame(pg: seq<Page>, head: nat, free: seq<nat>, pg': seq<Page>)
    requires FreeList(pg, head, free) && |pg| <= |pg'|
    requires forall p :: p in free && p < |pg| ==> pg'[p] == pg[p]
    ensures FreeList(pg', head, free)
  {
    forall i | 0 <= i < |free| ensures LinkAt(pg', free, i) {
      assert LinkAt(pg, free, i);
      assert free[i] in free;
    }
  }

  // The list without its first page, once that page is put to use.
  lemma FreeListPop(pg: seq<Page>, free: seq<nat>)
    requires |free| > 0 && FreeList(pg, free[0], free)
    ensures 0 < free[0] < |pg| && pg[free[0]].Free?
    ensures FreeList(pg[free[0] := Blank], pg[free[0]].nextFree, free[1..])
  {
    FreeAt(pg, free[0], free, 0);
    var pg', rest := pg[free[0] := Blank], free[1..];
    if |rest| > 0 { FreeAt(pg, free[0], free, 1); }
    forall i | 0 <= i < |rest| ensures LinkAt(pg', rest, i) {
      FreeAt(pg, free[0], free, i + 1);
      assert rest[i] == free[i + 1] != free[0];
      assert i + 1 < |rest| ==> rest[i + 1] == free[i + 2];
    }
  }

  // The list with a page pushed onto its front.
  lemma FreeListPush(pg: seq<Page>, head: nat, free: seq<nat>, p: nat)
    requires FreeList(pg, head, free) && 0 < p < |pg| && p !in free
    ensures FreeList(pg[p := Free(head)], p, [p] + free)
  {
    var pg', f := pg[p := Free(head)], [p] + free;
    forall i | 0 <= i < |f| ensures LinkAt(pg', f, i) {
      if i == 0 {
        assert 1 < |f| ==> f[1] == free[0];
      } else {
        FreeAt(pg, head, free, i - 1);
        assert f[i] == free[i - 1] && free[i - 1] in free;
        assert i + 1 < |f| ==> f[i + 1] == free[i];
      }
    }
  }

  class Pager {
    // How many keys an internal node may hold.
    const maxKeys: nat

    var pages: seq<Page>
    var freeHead: nat

    // What the pages mean: the pages on the free list in order, the nodes of
    // every tree, and each tree's leaf capacity.
    ghost var free: seq<nat>
    ghost var nodes: Nodes
    ghost var caps: map<nat, nat>

    // The pages of a file, before anything is known of them; a new file has none.
    constructor Open(maxKeys: nat, file: seq<Page>)
      ensures this.maxKeys == maxKeys && pages == file && freeHead == 0
      ensures free == [] && nodes == map[] && caps == map[]
    {
      this.maxKeys := maxKeys;
      pages, freeHead := file, 0;
      free, nodes, caps := [], map[], map[];
    }

    method Set(p: nat, e: Page)
      requires p < |pages|
      modifies this`pages
      ensures pages == old(pages)[p := e]
    {
      pages := pages[p := e];
    }

    // Takes the first free page, or adds one to the end of the file when there is none.
    method AllocatePage() returns (p: nat)
      requires FreeList(pages, freeHead, free) && |pages| > 0
      modifies this`pages, this`freeHead, this`free
      ensures FreeList(pages, freeHead, free)
      ensures if |old(free)| > 0
              then p == old(freeHead) == old(free)[0] && pages == old(pages)[p := Blank] && free == old(free)[1..]
              else p == |old(pages)| && pages == old(pages) + [Blank] && free == []
    {
      if freeHead != 0 {
        p := freeHead;
        FreeListPop(pages, free);
        freeHead := pages[p].nextFree;
        pages := pages[p := Blank];
        free := free[1..];
        return;
      }
      p := |pages|;
      FreeListFrame(pages, freeHead, free, pages + [Blank]);
      pages := pages + [Blank];
    }

    // Pushes a page no node uses any more onto the free list.
    method FreePage(p: nat)
      requires FreeList(pages, freeHead, free) && 0 < p < |pages| && p !in free
      modifies this`pages, this`freeHead, this`free
      ensures FreeList(pages, freeHead, free)
      ensures pages == old(pages)[p := Free(old(freeHead))] && free == [p] + old(free)
    {
      FreeListPush(pages, freeHead, free, p);
      pages := pages[p := Free(freeHead)];
      freeHead := p;
      free := [p] + free;
    }
  }

  // A page taken from the pager is held until it becomes part of a tree.
  ghost predicate Allocated(pg: seq<Page>, free: seq<nat>, pg': seq<Page>, free': seq<nat>, p: nat) {
    if |free| > 0 then p == free[0] && |pg'| == |pg| && free' == free[1..]
    else p == |pg| && |pg'| == |pg| + 1 && free' == []
  }

  lemma AllocatedHeld(pg: seq<Page>, nf: Nodes, free: seq<nat>, held: set<nat>, pg': seq<Page>, free': seq<nat>, p: nat)
    requires FreeList(pg, if |free| == 0 then 0 else free[0], free) && Accounted(pg, nf, free, held)
    requires Allocated(pg, free, pg', free', p) && p < |pg'| && pg'[0] == pg[0]
    ensures Accounted(pg', nf, free', held + {p})
    ensures p !in nf && p !in held && p !in free' && 0 < p
    ensures forall x :: x in free' ==> x in free
  {
    if |free| > 0 { HeadAndTail(free); }
  }

  lemma HeadAndTail(free: seq<nat>)
    requires |free| > 0 && forall i, j :: 0 <= i < j < |free| ==> free[i] != free[j]
    ensures free[0] in free && free[0] !in free[1..]
    ensures forall p :: p in free <==> p == free[0] || p in free[1..]
  {
    assert free == [free[0]] + free[1..];
  }

  // Writing to nodes and held pages leaves the free list and the header alone.
  lemma NodesWritten(pg: seq<Page>, nf: Nodes, head: nat, free: seq<nat>, held: set<nat>, pg': seq<Page>)
    requires FreeList(pg, head, free) && Accounted(pg, nf, free, held)
    requires |pg'| == |pg|
    requires forall x {:trigger pg'[x]} :: 0 <= x < |pg| && x !in nf && x !in held ==> pg'[x] == pg[x]
    ensures FreeList(pg', head, free) && Accounted(pg', nf, free, held)
  {
    FreeListFrame(pg, head, free, pg');
  }

  function Upto(n: nat): set<nat> {
    if n <= 1 then {} else Upto(n - 1) + {n - 1}
  }

  lemma {:induction false} UptoCount(n: nat)
    ensures |Upto(n)| == if n == 0 then 0 else n - 1
    ensures forall p: nat :: p in Upto(n) <==> 0 < p < n
  {
    if n > 1 { UptoCount(n - 1); }
  }

  function SetOf<T>(s: seq<T>): set<T> {
    set x | x in s
  }

  lemma UnionCount<T>(a: set<T>, b: set<T>)
    requires a !! b
    ensures |a + b| == |a| + |b|
  {
  }

  lemma SameSet(a: set<nat>, b: set<nat>)
    requires forall x: nat :: x in a <==> x in b
    ensures a == b
  {
  }

  lemma {:induction false} FreeCount(free: seq<nat>)
    requires forall i, j :: 0 <= i < j < |free| ==> free[i] != free[j]
    ensures |SetOf(free)| == |free|
  {
    if |free| > 0 {
      FreeCount(free[1..]);
      HeadAndTail(free);
      assert SetOf(free) == {free[0]} + SetOf(free[1..]);
    }
  }

  // No page is leaked and none is owned twice: the file is the header, the free
  // pages and the trees' nodes, and the free list never loops.
  lemma PagesPartitioned(pg: seq<Page>, nf: Nodes, head: nat, free: seq<nat>)
    requires FreeList(pg, head, free) && Accounted(pg, nf, free, {})
    ensures |pg| == 1 + |free| + |nf|
    ensures SetOf(free) !! nf.Keys
  {
    var f := SetOf(free);
    FreeCount(free);
    UptoCount(|pg|);
    assert nf.Keys !! f;
    UnionCount(nf.Keys, f);
    SameSet(Upto(|pg|), nf.Keys + f);
  }
}
