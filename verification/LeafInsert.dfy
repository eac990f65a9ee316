/** Inserting a cell into a leaf, splitting the leaf when it is full. */
module LeafInsert {
  import opened Pages
  import opened Shape
  import opened Split
  import opened Root
  import opened Boundary
  import opened Search
  import opened Pagers
  import opened Fill
  import opened MaxKey
  import opened Insert
  import opened Cascade
  import opened NodeCells

  // Where a key that is not in the tree belongs: the leaf that owns it, before the first larger cell.
  ghost predicate InsertPoint(pg: seq<Page>, nf: Nodes, p: nat, at: nat, key: int) {
    && p in nf && p < |pg| && pg[p].Leaf?
    && nf[p].lo < key <= nf[p].hi
    && CellPosition(pg[p].cells, key, at)
    && (at < |pg[p].cells| ==> pg[p].cells[at].key != key)
  }

  lemma InsertedCells(pg: seq<Page>, nf: Nodes, p: nat, at: nat, cell: Cell)
    requires Shaped(pg, nf) && InsertPoint(pg, nf, p, at, cell.key)
    ensures var s := InsertAt(pg[p].cells, at, cell);
      && LeafDown(nf, p, pg[p].(cells := s))
      && (forall c :: c in s <==> c in pg[p].cells || c == cell)
      && |s| == |pg[p].cells| + 1
  {
    assert Ok(pg, nf, p);
    AscendingInsert(pg[p].cells, at, cell, nf[p].lo, nf[p].hi);
    InsertMembers(pg[p].cells, at, cell);
  }

  lemma AscendingInsert(cells: seq<Cell>, at: nat, cell: Cell, lo: int, hi: int)
    requires Ascending(cells) && CellPosition(cells, cell.key, at) && (at < |cells| ==> cells[at].key != cell.key)
    requires KeysWithin(cells, lo, hi) && lo < cell.key <= hi
    ensures var s := InsertAt(cells, at, cell);
      && Ascending(s) && KeysWithin(s, lo, hi) && |s| == |cells| + 1
      && (|cells| > 0 && cells[|cells| - 1].key == hi ==> s[|cells|].key == hi)
  {
    var s := InsertAt(cells, at, cell);
    assert forall i :: 0 <= i < |s| ==> s[i] == (if i < at then cells[i] else if i == at then cell else cells[i - 1]);
    forall j | at <= j < |cells| ensures cell.key < cells[j].key { assert cells[at].key <= cells[j].key; }
  }

  lemma InsertMembers<T>(s: seq<T>, at: nat, x: T)
    requires at <= |s|
    ensures forall c :: c in InsertAt(s, at, x) <==> c in s || c == x
  {
    assert s == s[..at] + s[at..];
  }

  lemma RowsPut(pg: seq<Page>, nf: Nodes, p: nat, cells: seq<Cell>, cell: Cell)
    requires p in nf && p < |pg| && pg[p].Leaf?
    requires forall c :: c in cells <==> c in pg[p].cells || c == cell
    ensures Rows(pg[p := pg[p].(cells := cells)], nf, nf[p].tree) == Rows(pg, nf, nf[p].tree) + {cell}
  {
    var pg', t := pg[p := pg[p].(cells := cells)], nf[p].tree;
    forall c ensures c in Rows(pg', nf, t) <==> c in Rows(pg, nf, t) + {cell} {
      if c in Rows(pg', nf, t) {
        var x :| x in nf && nf[x].tree == t && x < |pg'| && pg'[x].Leaf? && c in pg'[x].cells;
        if x == p { assert c in pg[p].cells || c == cell; }
      }
      if c in Rows(pg, nf, t) {
        var x :| x in nf && nf[x].tree == t && x < |pg| && pg[x].Leaf? && c in pg[x].cells;
        assert pg'[x].Leaf? && c in pg'[x].cells;
      }
      if c == cell { assert c in pg'[p].cells; }
    }
  }

  lemma PutSound(pg: seq<Page>, nf: Nodes, head: nat, free: seq<nat>, caps: map<nat, nat>, maxKeys: nat, p: nat,
                 at: nat, cell: Cell)
    requires Sound(pg, nf, head, free, caps, maxKeys, {}, {}) && InsertPoint(pg, nf, p, at, cell.key)
    requires nf[p].tree in caps && |pg[p].cells| < caps[nf[p].tree]
    ensures var pg' := pg[p := pg[p].(cells := InsertAt(pg[p].cells, at, cell))];
      && Sound(pg', nf, head, free, caps, maxKeys, {}, {})
      && Rows(pg', nf, nf[p].tree) == Rows(pg, nf, nf[p].tree) + {cell}
      && Elsewhere(pg, nf, pg', nf, nf[p].tree)
  {
    var s := InsertAt(pg[p].cells, at, cell);
    var pg' := pg[p := pg[p].(cells := s)];
    InsertedCells(pg, nf, p, at, cell);
    LeafReplaced(pg, nf, p, s);
    RowsPut(pg, nf, p, s, cell);
    forall x | x in nf ensures FillAt(pg', nf, caps, maxKeys, x) { assert FillAt(pg, nf, caps, maxKeys, x); }
    NodesWritten(pg, nf, head, free, {}, pg');
  }

  // ------------------------------------------------------------ the split

  // The pages once full leaf p has been divided between itself and page n.
  ghost predicate LeafHalved(pg: seq<Page>, p: nat, n: nat, left: seq<Cell>, right: seq<Cell>, pg': seq<Page>) {
    && p < |pg| <= |pg'| && pg[p].Leaf? && n < |pg'| && n != p
    && pg'[p] == pg[p].(cells := left, next := n)
    && pg'[n] == Leaf(false, pg[p].parent, right, pg[p].next)
    && forall x {:trigger pg'[x]} :: 0 <= x < |pg| && x != p && x != n ==> pg'[x] == pg[x]
  }

  method DivideLeaf(pager: Pager, p: nat, at: nat, cell: Cell, cap: nat) returns (n: nat)
    requires p in pager.nodes && p < |pager.pages| && pager.pages[p].Leaf? && |pager.pages[p].cells| == cap && 0 < cap
    requires at <= cap
    requires FreeList(pager.pages, pager.freeHead, pager.free) && Accounted(pager.pages, pager.nodes, pager.free, {})
    modifies pager`pages, pager`freeHead, pager`free
    ensures FreeList(pager.pages, pager.freeHead, pager.free)
    ensures Allocated(old(pager.pages), old(pager.free), pager.pages, pager.free, n)
    ensures n !in pager.nodes && 0 < n < |pager.pages| && Accounted(pager.pages, pager.nodes, pager.free, {n})
    ensures var all := InsertAt(old(pager.pages)[p].cells, at, cell);
      LeafHalved(old(pager.pages), p, n, all[..LeftCount(cap)], all[LeftCount(cap)..], pager.pages)
  {
    ghost var pg := pager.pages;
    n := pager.AllocatePage();
    AllocatedHeld(pg, pager.nodes, old(pager.free), {}, pager.pages, pager.free, n);
    ghost var head, free, mid := pager.freeHead, pager.free, pager.pages;
    var node := pager.pages[p];
    var source := Slots(node.cells, cap, Cell(0, []));
    assert source[..] == source[..cap] == node.cells;
    var sibling := Slots([], cap, Cell(0, []));
    SplitCells(source, sibling, at, cell);
    var left := LeftCount(cap);
    ghost var all := InsertAt(node.cells, at, cell);
    pager.Set(n, Leaf(false, node.parent, sibling[..cap + 1 - left], node.next));
    pager.Set(p, node.(cells := source[..left], next := n));
    LeafWritten(pg, mid, pager.pages, pager.nodes, head, free, p, n, all[..left], all[left..]);
  }

  // What dividing a leaf leaves of the pager's bookkeeping.
  lemma LeafWritten(pg: seq<Page>, mid: seq<Page>, pg': seq<Page>, nf: Nodes, head: nat, free: seq<nat>, p: nat, n: nat,
                    left: seq<Cell>, right: seq<Cell>)
    requires FreeList(mid, head, free) && Accounted(mid, nf, free, {} + {n}) && p in nf && n !in nf
    requires p < |pg| <= |mid| && n < |mid| && pg[p].Leaf?
    requires forall x {:trigger mid[x]} :: 0 <= x < |pg| && x != n ==> mid[x] == pg[x]
    requires pg' == mid[n := Leaf(false, pg[p].parent, right, pg[p].next)][p := pg[p].(cells := left, next := n)]
    ensures FreeList(pg', head, free) && Accounted(pg', nf, free, {n}) && LeafHalved(pg, p, n, left, right, pg')
  {
    assert {} + {n} == {n};
    NodesWritten(mid, nf, head, free, {n}, pg');
  }

  lemma CutCells(pg: seq<Page>, nf: Nodes, p: nat, at: nat, cell: Cell, left: nat)
    requires Shaped(pg, nf) && InsertPoint(pg, nf, p, at, cell.key) && 0 < left <= |pg[p].cells|
    ensures var all := InsertAt(pg[p].cells, at, cell);
      LeafCut(nf, p, all[left - 1].key, all[..left], all[left..])
  {
    var all := InsertAt(pg[p].cells, at, cell);
    InsertedCells(pg, nf, p, at, cell);
    assert all[..left] + all[left..] == all;
  }

  lemma RowsDivided(pg: seq<Page>, nf: Nodes, pg': seq<Page>, nf': Nodes, t: nat, p: nat, a: nat, b: nat, cell: Cell)
    requires p in nf && nf[p].tree == t && p < |pg| && pg[p].Leaf?
    requires a in nf' && b in nf' && nf'[a].tree == t && nf'[b].tree == t && a < |pg'| && b < |pg'| && pg'[a].Leaf?
    requires pg'[b].Leaf?
    requires forall c :: c in pg'[a].cells || c in pg'[b].cells <==> c in pg[p].cells || c == cell
    requires forall x :: x in nf && x != p && nf[x].tree == t && x < |pg| && pg[x].Leaf? ==>
      x in nf' && nf'[x].tree == t && x < |pg'| && pg'[x].Leaf? && pg'[x].cells == pg[x].cells
    requires forall x :: x in nf' && x != a && x != b && nf'[x].tree == t && x < |pg'| && pg'[x].Leaf? ==>
      x in nf && x != p && nf[x].tree == t && x < |pg| && pg[x].Leaf? && pg'[x].cells == pg[x].cells
    ensures Rows(pg', nf', t) == Rows(pg, nf, t) + {cell}
  {
    forall c ensures c in Rows(pg', nf', t) <==> c in Rows(pg, nf, t) + {cell} {
      if c in Rows(pg', nf', t) {
        var x :| x in nf' && nf'[x].tree == t && x < |pg'| && pg'[x].Leaf? && c in pg'[x].cells;
        if x == a || x == b { assert c in pg[p].cells || c == cell; } else { assert c in pg[x].cells; }
      }
      if c in Rows(pg, nf, t) {
        var x :| x in nf && nf[x].tree == t && x < |pg| && pg[x].Leaf? && c in pg[x].cells;
        if x == p { assert c in pg'[a].cells || c in pg'[b].cells; } else { assert c in pg'[x].cells; }
      }
      if c == cell { assert c in pg'[a].cells || c in pg'[b].cells; }
    }
  }

  // ------------------------------------------------------------ after the split: the root

  // One leaf's split: the file before, with what is known of it; the full leaf, the page of its new
  // sibling, and the new cell's place; how many cells stay on the left; and the pages once divided.
  datatype LeafSplit = LeafSplit(pg: seq<Page>, nf: Nodes, caps: map<nat, nat>, maxKeys: nat,
                                 leaf: nat, sibling: nat, at: nat, cell: Cell, left: nat, mid: seq<Page>)
  {
    // The full leaf's cells and the new one.
    ghost function All(): seq<Cell>
      requires leaf < |pg| && pg[leaf].Leaf? && at <= |pg[leaf].cells|
    {
      InsertAt(pg[leaf].cells, at, cell)
    }
  }

  // A full leaf of the right size, its cells with the new one divided at `left`.
  ghost predicate LeafSplitting(s: LeafSplit) {
    && Shaped(s.pg, s.nf) && Filled(s.pg, s.nf, s.caps, s.maxKeys, {})
    && InsertPoint(s.pg, s.nf, s.leaf, s.at, s.cell.key)
    && s.nf[s.leaf].tree in s.caps && |s.pg[s.leaf].cells| == s.caps[s.nf[s.leaf].tree]
    && s.left == LeftCount(s.caps[s.nf[s.leaf].tree])
    && LeafHalved(s.pg, s.leaf, s.sibling, s.All()[..s.left], s.All()[s.left..], s.mid)
    && s.sibling !in s.nf && 0 < s.sibling && |s.mid| <= |s.pg| + 1
  }

  // The split the pager is in the middle of.
  ghost predicate Underway(pager: Pager, s: LeafSplit)
    reads pager
  {
    && LeafSplitting(s) && s.nf == pager.nodes && s.caps == pager.caps && s.maxKeys == pager.maxKeys
    && s.mid == pager.pages
    && FreeList(pager.pages, pager.freeHead, pager.free) && Accounted(pager.pages, pager.nodes, pager.free, {s.sibling})
  }

  lemma SplittingFacts(s: LeafSplit)
    requires LeafSplitting(s)
    ensures var all, cap := s.All(), s.caps[s.nf[s.leaf].tree];
      && 3 <= cap && 0 < s.left <= cap && |all| == cap + 1
      && LeafMin(cap) <= s.left && LeafMin(cap) <= cap + 1 - s.left <= cap
      && LeafCut(s.nf, s.leaf, all[s.left - 1].key, all[..s.left], all[s.left..])
      && (forall c ::
            c in s.mid[s.leaf].cells || c in s.mid[s.sibling].cells <==> c in s.pg[s.leaf].cells || c == s.cell)
      && s.nf[s.leaf].lo < all[s.left - 1].key < s.nf[s.leaf].hi
    ensures forall x {:trigger s.pg[x]} :: x in s.nf ==> 0 < x < |s.pg|
  {
    assert FillAt(s.pg, s.nf, s.caps, s.maxKeys, s.leaf);
    CutCells(s.pg, s.nf, s.leaf, s.at, s.cell, s.left);
    InsertedCells(s.pg, s.nf, s.leaf, s.at, s.cell);
    var all := s.All();
    LeafCutHalves(s.nf, s.leaf, all[s.left - 1].key, all[..s.left], all[s.left..]);
    assert s.mid[s.leaf].cells == all[..s.left] && s.mid[s.sibling].cells == all[s.left..];
    CutMembers(all, s.left);
  }

  lemma CutMembers<T>(all: seq<T>, left: nat)
    requires left <= |all|
    ensures forall c :: c in all[..left] || c in all[left..] <==> c in all
  {
    assert all == all[..left] + all[left..];
  }

  // The file as it was, with room for pages allocated since.
  ghost function Extended(pg: seq<Page>, size: nat): seq<Page> {
    seq(size, x requires 0 <= x < size => if x < |pg| then pg[x] else Blank)
  }

  lemma ExtendedShaped(pg: seq<Page>, nf: Nodes, size: nat)
    requires Shaped(pg, nf) && |pg| <= size
    ensures Shaped(Extended(pg, size), nf)
  {
    ShapedFrame(pg, nf, Extended(pg, size));
  }

  lemma LeafRootShaped(s: LeafSplit, l: nat, m: int, fin: seq<Page>)
    requires LeafSplitting(s) && s.nf[s.leaf].tree == s.leaf
    requires |s.mid| <= |fin| && 0 < l < |fin| && l !in s.nf && l != s.sibling
    requires m == s.All()[s.left - 1].key
    requires forall x {:trigger fin[x]} :: 0 <= x < |fin| ==> fin[x] == NewRootPage(s.mid, s.leaf, s.sibling, l, m, x)
    ensures Shaped(fin, SplitNodes(LiftNodes(s.nf, s.leaf, l), l, s.sibling, m))
  {
    var all := s.All();
    SplittingFacts(s);
    var a, na := LiftPages(Extended(s.pg, |fin|), s.leaf, l), LiftNodes(s.nf, s.leaf, l);
    LeafRootLifted(s, l, |fin|);
    LeafSplitShaped(a, na, l, s.sibling, 0, m, all[..s.left], all[s.left..]);
    ShapedFrame(LeafSplitPages(a, l, s.sibling, 0, m, all[..s.left], all[s.left..]), SplitNodes(na, l, s.sibling, m),
                fin);
  }

  // The root leaf as it was, one level lower on page l under a root with no separators.
  lemma LeafRootLifted(s: LeafSplit, l: nat, size: nat)
    requires LeafSplitting(s) && s.nf[s.leaf].tree == s.leaf && |s.pg| <= size && 0 < l < size && l !in s.nf
    ensures Liftable(Extended(s.pg, size), s.nf, s.leaf, l)
    ensures var a, na := LiftPages(Extended(s.pg, size), s.leaf, l), LiftNodes(s.nf, s.leaf, l);
      && Shaped(a, na) && Ok(a, na, l)
      && a[l] == Leaf(false, s.leaf, s.pg[s.leaf].cells, s.pg[s.leaf].next) && a[s.leaf] == Internal(true, 0, [], l)
  {
    var v := Extended(s.pg, size);
    SplittingFacts(s);
    ExtendedShaped(s.pg, s.nf, size);
    LiftShaped(v, s.nf, s.leaf, l);
    assert Ok(LiftPages(v, s.leaf, l), LiftNodes(s.nf, s.leaf, l), l);
  }

  lemma LeafRootPages(s: LeafSplit, l: nat, m: int, fin: seq<Page>)
    requires LeafSplitting(s) && s.nf[s.leaf].tree == s.leaf
    requires |s.mid| <= |fin| && 0 < l < |fin| && l !in s.nf && l != s.sibling && |s.pg| > 0 && 0 < s.leaf
    requires forall x {:trigger fin[x]} :: 0 <= x < |fin| ==> fin[x] == NewRootPage(s.mid, s.leaf, s.sibling, l, m, x)
    ensures fin[l].Leaf? && fin[l].cells == s.mid[s.leaf].cells && fin[s.sibling].Leaf?
    ensures fin[s.sibling].cells == s.mid[s.sibling].cells
    ensures fin[s.leaf] == Internal(true, 0, [Entry(l, m)], s.sibling)
    ensures forall x {:trigger fin[x]} :: 0 <= x < |s.pg| && x != s.leaf && x != l && x != s.sibling ==>
      fin[x] == s.pg[x]
  {
  }

  lemma LeafRootFilled(s: LeafSplit, l: nat, m: int, fin: seq<Page>)
    requires LeafSplitting(s) && s.nf[s.leaf].tree == s.leaf
    requires |s.mid| <= |fin| && 0 < l < |fin| && l !in s.nf && l != s.sibling && |s.pg| > 0 && 0 < s.leaf
    requires forall x {:trigger fin[x]} :: 0 <= x < |fin| ==> fin[x] == NewRootPage(s.mid, s.leaf, s.sibling, l, m, x)
    ensures Filled(fin, SplitNodes(LiftNodes(s.nf, s.leaf, l), l, s.sibling, m), s.caps, s.maxKeys, {})
  {
    var nf' := SplitNodes(LiftNodes(s.nf, s.leaf, l), l, s.sibling, m);
    SplittingFacts(s);
    LeafRootPages(s, l, m, fin);
    forall x | x in nf' ensures FillAt(fin, nf', s.caps, s.maxKeys, x) {
      if x != s.leaf && x != l && x != s.sibling { assert FillAt(s.pg, s.nf, s.caps, s.maxKeys, x); }
    }
  }

  lemma LeafRootRows(s: LeafSplit, l: nat, m: int, fin: seq<Page>)
    requires LeafSplitting(s) && s.nf[s.leaf].tree == s.leaf
    requires |s.mid| <= |fin| && 0 < l < |fin| && l !in s.nf && l != s.sibling && |s.pg| > 0 && 0 < s.leaf
    requires forall x {:trigger fin[x]} :: 0 <= x < |fin| ==> fin[x] == NewRootPage(s.mid, s.leaf, s.sibling, l, m, x)
    ensures Rows(fin, SplitNodes(LiftNodes(s.nf, s.leaf, l), l, s.sibling, m), s.leaf) ==
      Rows(s.pg, s.nf, s.leaf) + {s.cell}
  {
    SplittingFacts(s);
    LeafRootPages(s, l, m, fin);
    RowsDivided(s.pg, s.nf, fin, SplitNodes(LiftNodes(s.nf, s.leaf, l), l, s.sibling, m), s.leaf, s.leaf, l, s.sibling,
                s.cell);
  }

  lemma LeafRootElsewhere(s: LeafSplit, l: nat, m: int, fin: seq<Page>)
    requires LeafSplitting(s) && s.nf[s.leaf].tree == s.leaf
    requires |s.mid| <= |fin| && 0 < l < |fin| && l !in s.nf && l != s.sibling && |s.pg| > 0 && 0 < s.leaf
    requires forall x {:trigger fin[x]} :: 0 <= x < |fin| ==> fin[x] == NewRootPage(s.mid, s.leaf, s.sibling, l, m, x)
    ensures Elsewhere(s.pg, s.nf, fin, SplitNodes(LiftNodes(s.nf, s.leaf, l), l, s.sibling, m), s.leaf)
  {
    SplittingFacts(s);
    LeafRootPages(s, l, m, fin);
  }

  // The file once the halves of a root leaf hang off a new root.
  lemma LeafRootDone(s: LeafSplit, l: nat, m: int, fin: seq<Page>, head: nat, free: seq<nat>)
    requires LeafSplitting(s) && s.nf[s.leaf].tree == s.leaf
    requires m == s.mid[s.leaf].cells[|s.mid[s.leaf].cells| - 1].key
    requires |s.mid| <= |fin| && 0 < l < |fin| && l !in s.nf && l != s.sibling && FreeList(fin, head, free)
    requires Accounted(fin, s.nf, free, {s.sibling, l})
    requires forall x {:trigger fin[x]} :: 0 <= x < |fin| ==> fin[x] == NewRootPage(s.mid, s.leaf, s.sibling, l, m, x)
    ensures var nf' := SplitNodes(LiftNodes(s.nf, s.leaf, l), l, s.sibling, m);
      && Sound(fin, nf', head, free, s.caps, s.maxKeys, {}, {})
      && Rows(fin, nf', s.leaf) == Rows(s.pg, s.nf, s.leaf) + {s.cell} && Elsewhere(s.pg, s.nf, fin, nf', s.leaf)
  {
    SplittingFacts(s);
    LeafRootShaped(s, l, m, fin);
    LeafRootFilled(s, l, m, fin);
    LeafRootRows(s, l, m, fin);
    LeafRootElsewhere(s, l, m, fin);
  }

  lemma LeafRootStart(s: LeafSplit)
    requires LeafSplitting(s) && s.nf[s.leaf].tree == s.leaf
    ensures 0 <= s.nf[s.leaf].height && AgreeBelow(s.mid, s.pg, s.nf, s.leaf, 0) && 0 < |s.mid[s.leaf].cells|
  {
    SplittingFacts(s);
    forall x | x in s.nf ensures 0 <= s.nf[x].height { assert Ok(s.pg, s.nf, x); }
  }

  method FinishLeafRoot(pager: Pager, r: nat, n: nat, ghost s: LeafSplit)
    requires Underway(pager, s) && s.leaf == r && s.sibling == n && pager.nodes[r].tree == r
    modifies pager
    ensures Valid(pager) && pager.caps == old(pager.caps)
    ensures Rows(pager.pages, pager.nodes, r) == Rows(s.pg, s.nf, r) + {s.cell}
    ensures Elsewhere(s.pg, s.nf, pager.pages, pager.nodes, r)
  {
    LeafRootStart(s);
    var l, max := CreateNewRoot(pager, r, n, s.pg, r, 0);
    LeafRootDone(s, l, max, pager.pages, pager.freeHead, pager.free);
    pager.nodes := SplitNodes(LiftNodes(s.nf, r, l), l, n, max);
  }

  // ------------------------------------------------------------ after the split: the parent

  // The split leaf p is child `i` of page u.
  ghost predicate LeafCutUnder(pg: seq<Page>, nf: Nodes, p: nat, u: nat, i: int) {
    && p in nf && p != nf[p].tree && p < |pg| && pg[p].Leaf? && u == pg[p].parent
    && u in nf && u != p && u < |pg| && pg[u].Internal? && 0 <= i <= |pg[u].entries| && Kid(pg[u], i) == p
    && nf[u].tree == nf[p].tree && nf[u].height == nf[p].height + 1
  }

  lemma LeafParent(pg: seq<Page>, nf: Nodes, p: nat) returns (i: int)
    requires Shaped(pg, nf) && p in nf && p != nf[p].tree && pg[p].Leaf?
    ensures LeafCutUnder(pg, nf, p, pg[p].parent, i)
  {
    assert Ok(pg, nf, p);
    ParentCovers(pg, nf, p);
    i :| 0 <= i <= |pg[pg[p].parent].entries| && Kid(pg[pg[p].parent], i) == p;
  }

  // With the parent's complete page written, the divided leaf stands in a well-formed tree.
  lemma LeafInnerShaped(s: LeafSplit, u: nat, i: int, m: int, fin: seq<Page>)
    requires LeafSplitting(s) && LeafCutUnder(s.pg, s.nf, s.leaf, u, i)
    requires m == s.All()[s.left - 1].key && fin == s.mid[u := SplitKid(s.pg[u], i, m, s.sibling)]
    ensures Shaped(fin, SplitNodes(s.nf, s.leaf, s.sibling, m))
  {
    var all := s.All();
    SplittingFacts(s);
    var v := Extended(s.pg, |s.mid|);
    ExtendedShaped(s.pg, s.nf, |s.mid|);
    assert Ok(v, s.nf, s.leaf);
    LeafSplitShaped(v, s.nf, s.leaf, s.sibling, i, m, all[..s.left], all[s.left..]);
    ShapedFrame(LeafSplitPages(v, s.leaf, s.sibling, i, m, all[..s.left], all[s.left..]),
                SplitNodes(s.nf, s.leaf, s.sibling, m), fin);
  }

  lemma LeafInnerPending(s: LeafSplit, u: nat, i: int, m: int, fin: seq<Page>)
    requires LeafSplitting(s) && LeafCutUnder(s.pg, s.nf, s.leaf, u, i)
    requires m == s.All()[s.left - 1].key && fin == s.mid[u := UpdatedKey(s.pg[u], i, m)]
    ensures var nf', target := SplitNodes(s.nf, s.leaf, s.sibling, m), SplitKid(s.pg[u], i, m, s.sibling);
      Pending(fin, nf', u, s.sibling, fin[u := target], u, 0, target, i + 1)
  {
    var nf', target := SplitNodes(s.nf, s.leaf, s.sibling, m), SplitKid(s.pg[u], i, m, s.sibling);
    var shp := fin[u := target];
    LeafInnerShaped(s, u, i, m, shp);
    UpdatedIsPending(s.pg[u], i, m, s.sibling);
    SplitKidKids(s.pg[u], i, m, s.sibling, i + 1);
    forall x {:trigger AlikeAt(fin, shp, x)} | x in nf' && nf'[x].tree == nf'[u].tree && nf'[x].height < nf'[u].height
      ensures AlikeAt(fin, shp, x)
    {
      assert Ok(shp, nf', x);
    }
  }

  lemma LeafInnerFilled(s: LeafSplit, u: nat, i: int, m: int, fin: seq<Page>)
    requires LeafSplitting(s) && LeafCutUnder(s.pg, s.nf, s.leaf, u, i)
    requires fin == s.mid[u := UpdatedKey(s.pg[u], i, m)]
    ensures Filled(fin, SplitNodes(s.nf, s.leaf, s.sibling, m), s.caps, s.maxKeys, {})
  {
    var nf' := SplitNodes(s.nf, s.leaf, s.sibling, m);
    SplittingFacts(s);
    forall x | x in nf' ensures FillAt(fin, nf', s.caps, s.maxKeys, x) {
      if x != s.leaf && x != s.sibling { assert FillAt(s.pg, s.nf, s.caps, s.maxKeys, x); }
    }
  }

  lemma LeafInnerRows(s: LeafSplit, u: nat, i: int, m: int, fin: seq<Page>)
    requires LeafSplitting(s) && LeafCutUnder(s.pg, s.nf, s.leaf, u, i)
    requires fin == s.mid[u := UpdatedKey(s.pg[u], i, m)] && |s.pg| > 0
    ensures Rows(fin, SplitNodes(s.nf, s.leaf, s.sibling, m), s.nf[s.leaf].tree) ==
      Rows(s.pg, s.nf, s.nf[s.leaf].tree) + {s.cell}
  {
    SplittingFacts(s);
    RowsDivided(s.pg, s.nf, fin, SplitNodes(s.nf, s.leaf, s.sibling, m), s.nf[s.leaf].tree, s.leaf, s.leaf, s.sibling,
                s.cell);
  }

  lemma LeafInnerElsewhere(s: LeafSplit, u: nat, i: int, m: int, fin: seq<Page>)
    requires LeafSplitting(s) && LeafCutUnder(s.pg, s.nf, s.leaf, u, i)
    requires fin == s.mid[u := UpdatedKey(s.pg[u], i, m)] && |s.pg| > 0
    ensures Elsewhere(s.pg, s.nf, fin, SplitNodes(s.nf, s.leaf, s.sibling, m), s.nf[s.leaf].tree)
  {
    SplittingFacts(s);
  }

  method LowerSplitLeaf(pager: Pager, u: nat, oldMax: int, newMax: int, ghost pg: seq<Page>, ghost p: nat, ghost i: int)
    requires Shaped(pg, pager.nodes) && LeafCutUnder(pg, pager.nodes, p, u, i)
    requires u < |pager.pages| && pager.pages[u] == pg[u]
    requires pager.nodes[p].lo < oldMax <= pager.nodes[p].hi
    modifies pager`pages
    ensures pager.pages == old(pager.pages)[u := UpdatedKey(pg[u], i, newMax)]
  {
    ghost var mid := pager.pages;
    EntriesAscend(pg, pager.nodes, u);
    UpdateInternalNodeKey(pager, u, oldMax, newMax);
    ghost var k :| ChildPosition(mid[u].entries, oldMax, k) && pager.pages == mid[u := UpdatedKey(mid[u], k, newMax)];
    OldKeyFindsChild(pg, pager.nodes, u, i, oldMax, k);
  }

  // The file once the parent records the split leaf's new maximum: all but the new leaf is in place.
  lemma LeafInnerDone(s: LeafSplit, u: nat, i: int, m: int, fin: seq<Page>, head: nat, free: seq<nat>)
    requires LeafSplitting(s) && LeafCutUnder(s.pg, s.nf, s.leaf, u, i)
    requires m == s.mid[s.leaf].cells[|s.mid[s.leaf].cells| - 1].key && fin == s.mid[u := UpdatedKey(s.pg[u], i, m)]
    requires FreeList(s.mid, head, free) && Accounted(s.mid, s.nf, free, {s.sibling})
    ensures var nf', virt := SplitNodes(s.nf, s.leaf, s.sibling, m), SplitKid(s.pg[u], i, m, s.sibling);
      && Pending(fin, nf', u, s.sibling, fin[u := virt], u, 0, virt, i + 1)
      && Filled(fin, nf', s.caps, s.maxKeys, {}) && FreeList(fin, head, free) && Accounted(fin, nf', free, {})
      && Rows(fin, nf', s.nf[s.leaf].tree) == Rows(s.pg, s.nf, s.nf[s.leaf].tree) + {s.cell}
      && Elsewhere(s.pg, s.nf, fin, nf', s.nf[s.leaf].tree)
      && u in nf' && nf'[u].height <= Top(nf', u) && nf'[u].tree == s.nf[s.leaf].tree
  {
    SplittingFacts(s);
    LeafInnerPending(s, u, i, m, fin);
    LeafInnerFilled(s, u, i, m, fin);
    LeafInnerRows(s, u, i, m, fin);
    LeafInnerElsewhere(s, u, i, m, fin);
    NodesWritten(s.mid, s.nf, head, free, {s.sibling}, fin);
    assert Ok(s.pg, s.nf, u);
  }

  method FinishLeafInner(pager: Pager, p: nat, n: nat, oldMax: int, ghost s: LeafSplit)
    requires Underway(pager, s) && s.leaf == p && s.sibling == n && pager.nodes[p].tree != p
    requires pager.nodes[p].lo < oldMax <= pager.nodes[p].hi && |pager.pages[p].cells| > 0
    modifies pager
    ensures Valid(pager) && pager.caps == old(pager.caps)
    ensures Rows(pager.pages, pager.nodes, s.nf[p].tree) == Rows(s.pg, s.nf, s.nf[p].tree) + {s.cell}
    ensures Elsewhere(s.pg, s.nf, pager.pages, pager.nodes, s.nf[p].tree)
  {
    var u := pager.pages[p].parent;
    ghost var i := LeafParent(s.pg, s.nf, p);
    var newMax := pager.pages[p].cells[|pager.pages[p].cells| - 1].key;
    LowerSplitLeaf(pager, u, oldMax, newMax, s.pg, p, i);
    ghost var fin, nf' := pager.pages, SplitNodes(s.nf, p, n, newMax);
    LeafInnerDone(s, u, i, newMax, fin, pager.freeHead, pager.free);
    pager.nodes := nf';
    AddChild(pager, u, n, SplitKid(s.pg[u], i, newMax, n), i + 1);
    ElsewhereTrans(s.pg, s.nf, fin, nf', pager.pages, pager.nodes, s.nf[p].tree);
  }

  // ------------------------------------------------------------ the operation

  // The file is sound; tree t gained exactly `cell`, and no other tree was touched.
  twostate predicate Added(pager: Pager, t: nat, cell: Cell)
    reads pager
  {
    && Valid(pager)
    && pager.caps == old(pager.caps)
    && Rows(pager.pages, pager.nodes, t) == Rows(old(pager.pages), old(pager.nodes), t) + {cell}
    && Elsewhere(old(pager.pages), old(pager.nodes), pager.pages, pager.nodes, t)
  }

  method LeafNodeSplitAndInsert(pager: Pager, p: nat, at: nat, key: int, row: Row, cap: nat)
    requires Valid(pager) && InsertPoint(pager.pages, pager.nodes, p, at, key)
    requires pager.nodes[p].tree in pager.caps && pager.caps[pager.nodes[p].tree] == cap == |pager.pages[p].cells|
    modifies pager
    ensures Added(pager, old(pager.nodes)[p].tree, Cell(key, row))
  {
    ghost var pg, nf := pager.pages, pager.nodes;
    assert FillAt(pg, nf, pager.caps, pager.maxKeys, p) && Ok(pg, nf, p);
    var oldMax := pager.pages[p].cells[|pager.pages[p].cells| - 1].key;
    var n := DivideLeaf(pager, p, at, Cell(key, row), cap);
    ghost var s := LeafSplit(pg, nf, pager.caps, pager.maxKeys, p, n, at, Cell(key, row), LeftCount(cap), pager.pages);
    if pager.pages[p].isRoot {
      FinishLeafRoot(pager, p, n, s);
    } else {
      FinishLeafInner(pager, p, n, oldMax, s);
    }
  }

  method LeafNodeInsert(pager: Pager, p: nat, at: nat, key: int, row: Row, cap: nat)
    requires Valid(pager) && InsertPoint(pager.pages, pager.nodes, p, at, key)
    requires pager.nodes[p].tree in pager.caps && pager.caps[pager.nodes[p].tree] == cap
    modifies pager
    ensures Added(pager, old(pager.nodes)[p].tree, Cell(key, row))
  {
    assert FillAt(pager.pages, pager.nodes, pager.caps, pager.maxKeys, p);
    var node := pager.pages[p];
    var numCells := |node.cells|;
    if numCells >= cap {
      LeafNodeSplitAndInsert(pager, p, at, key, row, cap);
      return;
    }
    PutSound(pager.pages, pager.nodes, pager.freeHead, pager.free, pager.caps, pager.maxKeys, p, at, Cell(key, row));
    var slots := Slots(node.cells, cap, Cell(0, []));
    InsertCell(slots, numCells, at, Cell(key, row));
    pager.Set(p, node.(cells := slots[..numCells + 1]));
  }
}
