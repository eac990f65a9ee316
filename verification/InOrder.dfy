/**
 What the local invariants amount to: the rows of a tree read in order from the
 root down, the separators in terms of those rows, the chain of leaves, and how
 few rows a tree of a given height can hold.
 */
module InOrder {
  import opened Pages
  import opened Shape
  import opened Fill
  import opened Cursors
  import MaxKey

  // The rows under page p, left to right, h levels deep.
  ghost function Under(pg: seq<Page>, p: nat, h: int): seq<Cell>
    decreases h, 1, 0
  {
    if p >= |pg| then []
    else match pg[p]
      case Leaf(_, _, cells, _) => cells
      case Internal(_, _, entries, _) => if h <= 0 then [] else UnderKids(pg, p, h, |entries| + 1)
      case _ => []
  }

  // The rows under the first n children of internal page p.
  ghost function UnderKids(pg: seq<Page>, p: nat, h: int, n: nat): seq<Cell>
    requires p < |pg| && pg[p].Internal? && n <= |pg[p].entries| + 1 && 0 < h
    decreases h, 0, n
  {
    if n == 0 then [] else UnderKids(pg, p, h, n - 1) + Under(pg, Kid(pg[p], n - 1), h - 1)
  }

  // What `s`, the rows under p, satisfies: in order, inside p's bounds, ending exactly at its upper bound.
  ghost predicate Ordered(nf: Nodes, p: nat, s: seq<Cell>)
    requires p in nf
  {
    && Ascending(s) && KeysWithin(s, nf[p].lo, nf[p].hi)
    && (p != nf[p].tree || nf[p].hi < TOP ==> |s| > 0)
    && (nf[p].hi < TOP ==> s[|s| - 1].key == nf[p].hi)
  }

  lemma {:induction false} UnderOrdered(pg: seq<Page>, nf: Nodes, p: nat)
    requires Shaped(pg, nf) && p in nf
    ensures Ordered(nf, p, Under(pg, p, nf[p].height))
    decreases nf[p].height, 1, 0
  {
    assert Ok(pg, nf, p);
    if pg[p].Internal? {
      UnderKidsOrdered(pg, nf, p, |pg[p].entries| + 1);
    }
  }

  lemma {:induction false} UnderKidsOrdered(pg: seq<Page>, nf: Nodes, p: nat, n: nat)
    requires Shaped(pg, nf) && p in nf && pg[p].Internal? && n <= |pg[p].entries| + 1 && 0 < nf[p].height
    ensures var s := UnderKids(pg, p, nf[p].height, n);
      && Ascending(s)
      && (n > 0 ==> KeysWithin(s, nf[p].lo, HighOf(pg[p], nf[p], n - 1)) && |s| > 0)
      && (n > 0 && HighOf(pg[p], nf[p], n - 1) < TOP ==> s[|s| - 1].key == HighOf(pg[p], nf[p], n - 1))
    decreases nf[p].height, 0, n
  {
    if n > 0 {
      UnderKidsOrdered(pg, nf, p, n - 1);
      KidInside(pg, nf, p, n - 1);
      KidParent(pg, nf, p, n - 1);
      assert Ok(pg, nf, p);
      UnderOrdered(pg, nf, Kid(pg[p], n - 1));
      Joined(UnderKids(pg, p, nf[p].height, n - 1), Under(pg, Kid(pg[p], n - 1), nf[p].height - 1),
             nf[p].lo, LowOf(pg[p], nf[p], n - 1), HighOf(pg[p], nf[p], n - 1));
    }
  }

  lemma Joined(a: seq<Cell>, b: seq<Cell>, lo: int, mid: int, hi: int)
    requires Ascending(a) && Ascending(b) && KeysWithin(a, lo, mid) && KeysWithin(b, mid, hi) && lo <= mid <= hi
    ensures Ascending(a + b) && KeysWithin(a + b, lo, hi)
  {
  }

  /** The key that right children lead to is the largest of the rows under a node, and one of them. */
  lemma {:induction false} LastKeyIsLargest(pg: seq<Page>, nf: Nodes, p: nat, n: nat)
    requires Shaped(pg, nf) && p in nf && MaxKey.LastKey(pg, p, n).Some?
    ensures var s := Under(pg, p, nf[p].height); |s| > 0 && s[|s| - 1].key == MaxKey.LastKey(pg, p, n).value
    decreases n
  {
    assert Ok(pg, nf, p);
    if pg[p].Internal? {
      var last := |pg[p].entries|;
      KidInside(pg, nf, p, last);
      LastKeyIsLargest(pg, nf, pg[p].right, n - 1);
      assert UnderKids(pg, p, nf[p].height, last + 1)
          == UnderKids(pg, p, nf[p].height, last) + Under(pg, pg[p].right, nf[p].height - 1);
    }
  }

  /**
   Every separator equals the largest key stored under the child on its left,
   and every key under the child on its right is larger.
   */
  lemma SeparatorsExact(pg: seq<Page>, nf: Nodes, p: nat, i: int)
    requires Shaped(pg, nf) && p in nf && pg[p].Internal? && 0 <= i < |pg[p].entries|
    ensures var l, r := Under(pg, Kid(pg[p], i), nf[p].height - 1), Under(pg, Kid(pg[p], i + 1), nf[p].height - 1);
      && |l| > 0 && l[|l| - 1].key == pg[p].entries[i].key
      && |r| > 0 && pg[p].entries[i].key < r[0].key
  {
    KidInside(pg, nf, p, i);
    KidParent(pg, nf, p, i);
    KidInside(pg, nf, p, i + 1);
    KidParent(pg, nf, p, i + 1);
    assert Ok(pg, nf, p);
    UnderOrdered(pg, nf, Kid(pg[p], i));
    UnderOrdered(pg, nf, Kid(pg[p], i + 1));
  }

  // ------------------------------------------------------------ the same rows

  lemma {:induction false} UnderInRows(pg: seq<Page>, nf: Nodes, p: nat, c: Cell)
    requires Shaped(pg, nf) && p in nf && c in Under(pg, p, nf[p].height)
    ensures c in Rows(pg, nf, nf[p].tree)
    decreases nf[p].height, 1, 0
  {
    assert Ok(pg, nf, p);
    if pg[p].Internal? {
      KidsInRows(pg, nf, p, |pg[p].entries| + 1, c);
    }
  }

  lemma {:induction false} KidsInRows(pg: seq<Page>, nf: Nodes, p: nat, n: nat, c: Cell)
    requires Shaped(pg, nf) && p in nf && pg[p].Internal? && n <= |pg[p].entries| + 1 && 0 < nf[p].height
    requires c in UnderKids(pg, p, nf[p].height, n)
    ensures c in Rows(pg, nf, nf[p].tree)
    decreases nf[p].height, 0, n
  {
    if n > 0 {
      KidInside(pg, nf, p, n - 1);
      if c in UnderKids(pg, p, nf[p].height, n - 1) {
        KidsInRows(pg, nf, p, n - 1, c);
      } else {
        UnderInRows(pg, nf, Kid(pg[p], n - 1), c);
      }
    }
  }

  lemma {:induction false} KidInUnder(pg: seq<Page>, p: nat, h: int, n: nat, i: nat, c: Cell)
    requires p < |pg| && pg[p].Internal? && i < n <= |pg[p].entries| + 1 && 0 < h
    requires c in Under(pg, Kid(pg[p], i), h - 1)
    ensures c in UnderKids(pg, p, h, n)
    decreases n
  {
    if i < n - 1 { KidInUnder(pg, p, h, n - 1, i, c); }
  }

  // What is under a node is under the root of its tree.
  lemma {:induction false} ClimbUnder(pg: seq<Page>, nf: Nodes, p: nat, c: Cell)
    requires Shaped(pg, nf) && p in nf && nf[p].tree in nf && c in Under(pg, p, nf[p].height)
    ensures c in Under(pg, nf[p].tree, nf[nf[p].tree].height)
    decreases nf[nf[p].tree].height - nf[p].height
  {
    assert Ok(pg, nf, p);
    if p != nf[p].tree {
      ParentCovers(pg, nf, p);
      var u := pg[p].parent;
      assert Ok(pg, nf, u);
      var i :| 0 <= i <= |pg[u].entries| && Kid(pg[u], i) == p;
      KidInUnder(pg, u, nf[u].height, |pg[u].entries| + 1, i, c);
      ClimbUnder(pg, nf, u, c);
    }
  }

  // Reading a tree in order yields its rows, each once, in key order.
  lemma InOrderIsRows(pg: seq<Page>, nf: Nodes, t: nat)
    requires Shaped(pg, nf) && t in nf && nf[t].tree == t
    ensures var s := Under(pg, t, nf[t].height);
      Ascending(s) && (forall c :: c in s <==> c in Rows(pg, nf, t)) && |s| == |Rows(pg, nf, t)|
  {
    var s := Under(pg, t, nf[t].height);
    UnderOrdered(pg, nf, t);
    forall c ensures c in s <==> c in Rows(pg, nf, t) {
      if c in s { UnderInRows(pg, nf, t, c); }
      if c in Rows(pg, nf, t) {
        var x, i := RowPlace(pg, nf, t, c);
        ClimbUnder(pg, nf, x, c);
      }
    }
    AscendingCount(s);
    assert (set c | c in s) == Rows(pg, nf, t);
  }

  lemma {:induction false} AscendingCount(s: seq<Cell>)
    requires Ascending(s)
    ensures |set c | c in s| == |s|
  {
    if |s| > 0 {
      AscendingCount(s[1..]);
      assert s == [s[0]] + s[1..];
      assert s[0] !in s[1..];
      assert (set c | c in s) == {s[0]} + (set c | c in s[1..]);
    }
  }

  // ------------------------------------------------------------ the chain of leaves

  // The cells met by following next-leaf pointers from leaf p, at most n leaves far.
  ghost function Chain(pg: seq<Page>, p: nat, n: nat): seq<Cell>
    decreases n
  {
    if n == 0 || p >= |pg| || !pg[p].Leaf? then []
    else pg[p].cells + if pg[p].next == 0 then [] else Chain(pg, pg[p].next, n - 1)
  }

  lemma NextLeafFacts(pg: seq<Page>, nf: Nodes, p: nat)
    requires Shaped(pg, nf) && p in nf && pg[p].Leaf?
    ensures nf[p].lo < nf[p].hi <= TOP && (pg[p].next == 0 <==> nf[p].hi == TOP)
    ensures Ascending(pg[p].cells) && KeysWithin(pg[p].cells, nf[p].lo, nf[p].hi)
    ensures var y := pg[p].next; y != 0 ==>
      y in nf && y < |pg| && pg[y].Leaf? && nf[y].tree == nf[p].tree && nf[y].lo == nf[p].hi
  {
    assert Ok(pg, nf, p);
    if pg[p].next != 0 { assert Ok(pg, nf, pg[p].next); }
  }

  lemma NoneAboveTop(pg: seq<Page>, nf: Nodes, t: nat)
    requires Shaped(pg, nf)
    ensures forall c :: c in Rows(pg, nf, t) ==> c.key <= TOP
  {
    forall c | c in Rows(pg, nf, t) ensures c.key <= TOP { var x, i := RowPlace(pg, nf, t, c); }
  }

  // `s` is the rows with keys above `lo`, in order.
  ghost predicate RowsAbove(s: seq<Cell>, rows: set<Cell>, lo: int) {
    Ascending(s) && KeysWithin(s, lo, TOP) && forall c :: c in s <==> c in rows && lo < c.key
  }

  lemma {:induction false} ChainStep(pg: seq<Page>, p: nat, n: nat, rest: seq<Cell>)
    requires 0 < n && p < |pg| && pg[p].Leaf?
    requires rest == if pg[p].next == 0 then [] else Chain(pg, pg[p].next, n - 1)
    ensures Chain(pg, p, n) == pg[p].cells + rest
  {
  }

  lemma {:induction false} ChainFrom(pg: seq<Page>, nf: Nodes, p: nat, n: nat)
    requires Shaped(pg, nf) && p in nf && pg[p].Leaf? && TOP - nf[p].lo <= n
    ensures RowsAbove(Chain(pg, p, n), Rows(pg, nf, nf[p].tree), nf[p].lo)
    decreases n
  {
    NextLeafFacts(pg, nf, p);
    if pg[p].next == 0 {
      ChainEnds(pg, nf, p);
      assert pg[p].cells + [] == pg[p].cells;
      ChainStep(pg, p, n, []);
    } else {
      ChainFrom(pg, nf, pg[p].next, n - 1);
      ChainMembers(pg, nf, p, Chain(pg, pg[p].next, n - 1));
      ChainStep(pg, p, n, Chain(pg, pg[p].next, n - 1));
    }
  }

  lemma ChainEnds(pg: seq<Page>, nf: Nodes, p: nat)
    requires Shaped(pg, nf) && p in nf && pg[p].Leaf? && pg[p].next == 0
    ensures RowsAbove(pg[p].cells, Rows(pg, nf, nf[p].tree), nf[p].lo)
  {
    NextLeafFacts(pg, nf, p);
    NoneAboveTop(pg, nf, nf[p].tree);
    ChainMembers(pg, nf, p, []);
    assert pg[p].cells + [] == pg[p].cells;
  }

  lemma ChainMembers(pg: seq<Page>, nf: Nodes, p: nat, rest: seq<Cell>)
    requires Shaped(pg, nf) && p in nf && pg[p].Leaf?
    requires RowsAbove(rest, Rows(pg, nf, nf[p].tree), nf[p].hi)
    ensures RowsAbove(pg[p].cells + rest, Rows(pg, nf, nf[p].tree), nf[p].lo)
  {
    NextLeafFacts(pg, nf, p);
    Joined(pg[p].cells, rest, nf[p].lo, nf[p].hi, TOP);
    forall c ensures c in pg[p].cells + rest <==> c in Rows(pg, nf, nf[p].tree) && nf[p].lo < c.key {
      OwnCell(pg, nf, p, c);
    }
  }

  // A leaf's cells are the rows of its tree with keys in its interval.
  lemma OwnCell(pg: seq<Page>, nf: Nodes, p: nat, c: Cell)
    requires Shaped(pg, nf) && p in nf && pg[p].Leaf?
    ensures c in pg[p].cells <==> c in Rows(pg, nf, nf[p].tree) && nf[p].lo < c.key <= nf[p].hi
  {
    assert Ok(pg, nf, p);
    if c in pg[p].cells {
      var i :| 0 <= i < |pg[p].cells| && pg[p].cells[i] == c;
      CellInRows(pg, nf, p, i);
    }
    if c in Rows(pg, nf, nf[p].tree) && nf[p].lo < c.key <= nf[p].hi {
      var x, i := RowPlace(pg, nf, nf[p].tree, c);
      SameOwner(pg, nf, x, p, c.key);
    }
  }

  lemma TailMembers(s: seq<Cell>)
    requires Ascending(s) && |s| > 0
    ensures forall c :: c in s[1..] <==> c in s && c != s[0]
    ensures Ascending(s[1..])
  {
    assert s == [s[0]] + s[1..];
    assert s[0] !in s[1..];
  }

  lemma {:induction false} SortedUnique(a: seq<Cell>, b: seq<Cell>)
    requires Ascending(a) && Ascending(b) && forall c :: c in a <==> c in b
    ensures a == b
  {
    assert |b| > 0 ==> b[0] in b;
    if |a| > 0 {
      assert a[0] in b && b[0] in a;
      assert a[0] == b[0];
      TailMembers(a);
      TailMembers(b);
      SortedUnique(a[1..], b[1..]);
      assert a == [a[0]] + a[1..] && b == [b[0]] + b[1..];
    }
  }

  // Following the leaves from the leftmost one visits the rows in the tree's own order.
  lemma ChainIsInOrder(pg: seq<Page>, nf: Nodes, t: nat, leftmost: nat)
    requires Shaped(pg, nf) && t in nf && nf[t].tree == t
    requires leftmost in nf && nf[leftmost].tree == t && pg[leftmost].Leaf? && nf[leftmost].lo == -1
    ensures Chain(pg, leftmost, TOP + 1) == Under(pg, t, nf[t].height)
  {
    ChainFrom(pg, nf, leftmost, TOP + 1);
    InOrderIsRows(pg, nf, t);
    forall c | c in Rows(pg, nf, t) ensures -1 < c.key { var x, i := RowPlace(pg, nf, t, c); assert Ok(pg, nf, x); }
    SortedUnique(Chain(pg, leftmost, TOP + 1), Under(pg, t, nf[t].height));
  }

  // ------------------------------------------------------------ how few rows a tree can hold

  function Pow(b: nat, e: nat): nat {
    if e == 0 then 1 else b * Pow(b, e - 1)
  }

  lemma {:induction false} PowerLaws(b: nat, d: nat, e: nat)
    ensures Pow(b, 0) == 1 && Pow(b, 1) == b && Pow(b, d + e) == Pow(b, d) * Pow(b, e)
    decreases d
  {
    assert Pow(b, 1) == b * Pow(b, 0) == b;
    if d > 0 {
      PowerLaws(b, d - 1, e);
      Regroup(b, Pow(b, d - 1), Pow(b, e));
      assert Pow(b, d + e) == b * Pow(b, d - 1 + e);
    }
  }

  // The fewest children an internal node other than the root may have: half the most keys, rounded up.
  function MinKids(maxKeys: nat): nat {
    (maxKeys + 1) / 2
  }

  lemma {:induction false} KidsHold(pg: seq<Page>, p: nat, h: int, n: nat, x: nat)
    requires p < |pg| && pg[p].Internal? && n <= |pg[p].entries| + 1 && 0 < h
    requires forall i :: 0 <= i < n ==> x <= |Under(pg, Kid(pg[p], i), h - 1)|
    ensures n * x <= |UnderKids(pg, p, h, n)|
  {
    if n > 0 {
      KidsHold(pg, p, h, n - 1, x);
      assert n * x == (n - 1) * x + x;
    }
  }

  lemma {:induction false} NodeHolds(pg: seq<Page>, nf: Nodes, caps: map<nat, nat>, maxKeys: nat, p: nat)
    requires Shaped(pg, nf) && Filled(pg, nf, caps, maxKeys, {}) && p in nf && p != nf[p].tree && nf[p].tree in caps
    requires 0 <= nf[p].height
    ensures Pow(MinKids(maxKeys), nf[p].height) * LeafMin(caps[nf[p].tree]) <= |Under(pg, p, nf[p].height)|
    decreases nf[p].height
  {
    assert Ok(pg, nf, p) && FillAt(pg, nf, caps, maxKeys, p);
    if pg[p].Internal? {
      var h, n := nf[p].height, |pg[p].entries| + 1;
      var x := Pow(MinKids(maxKeys), h - 1) * LeafMin(caps[nf[p].tree]);
      forall i | 0 <= i < n ensures x <= |Under(pg, Kid(pg[p], i), h - 1)| {
        KidInside(pg, nf, p, i);
        KidParent(pg, nf, p, i);
        NodeHolds(pg, nf, caps, maxKeys, Kid(pg[p], i));
      }
      KidsHold(pg, p, h, n, x);
      AtLeastTimes(MinKids(maxKeys), n, x);
      Regroup(MinKids(maxKeys), Pow(MinKids(maxKeys), h - 1), LeafMin(caps[nf[p].tree]));
    }
  }

  lemma AtLeastTimes(a: nat, b: nat, x: nat)
    requires a <= b
    ensures a * x <= b * x
  {
    assert (b - a) * x >= 0;
  }

  lemma Regroup(a: nat, b: nat, c: nat)
    ensures (a * b) * c == a * (b * c)
  {
  }

  /**
   A tree with internal levels holds at least 2 * ceil(K/2)^(h-1) * ceil(M/2) rows, h being
   its number of internal levels: the height, and so the cost of a descent, is logarithmic in the
   number of rows the tree holds now, whatever was inserted and deleted before.
   */
  lemma HeightLogarithmic(pg: seq<Page>, nf: Nodes, caps: map<nat, nat>, maxKeys: nat, t: nat)
    requires Shaped(pg, nf) && Filled(pg, nf, caps, maxKeys, {}) && t in nf && nf[t].tree == t && t in caps
    requires 0 < nf[t].height
    ensures 2 * (Pow((maxKeys + 1) / 2, nf[t].height - 1) * ((caps[t] + 1) / 2)) <= |Rows(pg, nf, t)|
  {
    assert Ok(pg, nf, t) && FillAt(pg, nf, caps, maxKeys, t);
    var h, n := nf[t].height, |pg[t].entries| + 1;
    var x := Pow(MinKids(maxKeys), h - 1) * LeafMin(caps[t]);
    forall i | 0 <= i < n ensures x <= |Under(pg, Kid(pg[t], i), h - 1)| {
      KidInside(pg, nf, t, i);
      KidParent(pg, nf, t, i);
      NodeHolds(pg, nf, caps, maxKeys, Kid(pg[t], i));
    }
    KidsHold(pg, t, h, n, x);
    AtLeastTimes(2, n, x);
    InOrderIsRows(pg, nf, t);
  }

  /** A search that fetched f pages, two or more, found a tree of at least 2 * ceil(K/2)^(f-2) * ceil(M/2) rows:
      the fetches grow with the logarithm of the rows there are, whatever inserts and deletes led to them. */
  lemma FetchesLogarithmic(cursor: Cursor)
    requires IsTree(cursor.pager, cursor.root) && cursor.fetched == cursor.pager.nodes[cursor.root].height + 1
    requires 2 <= cursor.fetched
    ensures cursor.root in cursor.pager.caps
    ensures var pager := cursor.pager;
      2 * (Pow((pager.maxKeys + 1) / 2, cursor.fetched - 2) * ((pager.caps[cursor.root] + 1) / 2))
        <= |Rows(pager.pages, pager.nodes, cursor.root)|
  {
    var pager := cursor.pager;
    assert FillAt(pager.pages, pager.nodes, pager.caps, pager.maxKeys, cursor.root);
    HeightLogarithmic(pager.pages, pager.nodes, pager.caps, pager.maxKeys, cursor.root);
  }
}
