/** Moving the boundary between two sibling nodes, and merging them. */
module Merge {
  import opened Pages
  import opened Shape
  import opened Split
  import opened Boundary

  // p and a are neighbouring children of page u: a at position i - 1, p at position i.
  ghost predicate Siblings(pg: seq<Page>, nf: Nodes, u: nat, i: int, a: nat, p: nat) {
    && Shaped(pg, nf) && u in nf && pg[u].Internal? && 1 <= i <= |pg[u].entries|
    && Kid(pg[u], i - 1) == a && Kid(pg[u], i) == p
  }

  lemma SiblingFacts(pg: seq<Page>, nf: Nodes, u: nat, i: int, a: nat, p: nat)
    requires Siblings(pg, nf, u, i, a, p)
    ensures Ok(pg, nf, u) && a in nf && p in nf && Ok(pg, nf, a) && Ok(pg, nf, p)
    ensures nf[a].tree == nf[p].tree == nf[u].tree && a != nf[u].tree && p != nf[u].tree
    ensures nf[a].height == nf[p].height == nf[u].height - 1
    ensures nf[u].lo <= nf[a].lo < nf[a].hi == pg[u].entries[i - 1].key == nf[p].lo < nf[p].hi <= nf[u].hi
    ensures pg[a].parent == u && pg[p].parent == u
    ensures pg[a].Leaf? <==> pg[p].Leaf?
    ensures a != p && a != u && p != u
    ensures nf[p].hi == HighOf(pg[u], nf[u], i)
    ensures forall j :: 0 <= j <= |pg[u].entries| ==>
      (Kid(pg[u], j) == a ==> j == i - 1) && (Kid(pg[u], j) == p ==> j == i)
    ensures forall j :: 0 <= j <= |pg[u].entries| ==> KidAt(nf, u, pg[u], j)
  {
    KidInside(pg, nf, u, i - 1);
    KidInside(pg, nf, u, i);
    KidParent(pg, nf, u, i - 1);
    KidParent(pg, nf, u, i);
    assert Ok(pg, nf, u) && Ok(pg, nf, a) && Ok(pg, nf, p);
    forall j | 0 <= j <= |pg[u].entries|
      ensures (Kid(pg[u], j) == a ==> j == i - 1) && (Kid(pg[u], j) == p ==> j == i) && KidAt(nf, u, pg[u], j)
    {
      if Kid(pg[u], j) == a { KidOnce(pg, nf, u, j, i - 1); }
      if Kid(pg[u], j) == p { KidOnce(pg, nf, u, j, i); }
    }
  }

  // Only u has a or p as a child.
  lemma OnlyParent(pg: seq<Page>, nf: Nodes, u: nat, i: int, a: nat, p: nat, x: nat)
    requires Siblings(pg, nf, u, i, a, p) && x in nf && x != u && pg[x].Internal?
    ensures Ok(pg, nf, x)
    ensures forall k {:trigger Kid(pg[x], k)} :: 0 <= k <= |pg[x].entries| ==> Kid(pg[x], k) != a && Kid(pg[x], k) != p
  {
    assert Ok(pg, nf, x);
    SiblingFacts(pg, nf, u, i, a, p);
    forall k {:trigger Kid(pg[x], k)} | 0 <= k <= |pg[x].entries| ensures Kid(pg[x], k) != a && Kid(pg[x], k) != p {
      KidParent(pg, nf, x, k);
    }
  }

  // ------------------------------------------------------------ moving the boundary

  ghost function Recut(nf: Nodes, a: nat, p: nat, m: int): Nodes
    requires a in nf && p in nf
  {
    nf[a := nf[a].(hi := m)][p := nf[p].(lo := m)]
  }

  lemma RecutParent(pg: seq<Page>, nf: Nodes, u: nat, i: int, a: nat, p: nat, m: int)
    requires Siblings(pg, nf, u, i, a, p)
    ensures a in nf && p in nf && InnerDown(Recut(nf, a, p, m), u, Relabel(pg[u], i - 1, m))
  {
    SiblingFacts(pg, nf, u, i, a, p);
    var nf', e := Recut(nf, a, p, m), Relabel(pg[u], i - 1, m);
    forall j | 0 <= j <= |e.entries| ensures KidAt(nf', u, e, j) {
      assert Kid(e, j) == Kid(pg[u], j);
      assert KidAt(nf, u, pg[u], j);
    }
  }

  // The only leaf that links to p is its left sibling.
  lemma OnlyLink(pg: seq<Page>, nf: Nodes, u: nat, i: int, a: nat, p: nat, x: nat)
    requires Siblings(pg, nf, u, i, a, p) && p in nf && pg[p].Leaf? && x in nf && a in nf && pg[x].Leaf?
    requires nf[x].hi != TOP && pg[x].next == p
    ensures x == a
  {
    SiblingFacts(pg, nf, u, i, a, p);
    assert Ok(pg, nf, x);
    SameOwner(pg, nf, x, a, nf[a].hi);
  }

  lemma LinkOfLeft(pg: seq<Page>, nf: Nodes, u: nat, i: int, a: nat, p: nat)
    requires Siblings(pg, nf, u, i, a, p) && a in nf && p in nf && pg[p].Leaf?
    ensures pg[a].Leaf? && pg[a].next == p
  {
    SiblingFacts(pg, nf, u, i, a, p);
    var y := pg[a].next;
    assert Ok(pg, nf, y);
    SameOwner(pg, nf, y, p, if nf[y].hi < nf[p].hi then nf[y].hi else nf[p].hi);
  }

  ghost predicate LeafRecut(nf: Nodes, a: nat, p: nat, ca: seq<Cell>, cp: seq<Cell>)
    requires a in nf && p in nf
  {
    && |ca| > 0 && |cp| > 0
    && Ascending(ca + cp) && KeysWithin(ca + cp, nf[a].lo, nf[p].hi)
    && (nf[p].hi < TOP ==> cp[|cp| - 1].key == nf[p].hi)
  }

  ghost function LeafRecutPages(pg: seq<Page>, u: nat, i: int, a: nat, p: nat, ca: seq<Cell>, cp: seq<Cell>): seq<Page>
    requires u < |pg| && pg[u].Internal? && 1 <= i <= |pg[u].entries|
    requires a < |pg| && p < |pg| && pg[a].Leaf? && pg[p].Leaf? && |ca| > 0
  {
    pg[a := pg[a].(cells := ca)][p := pg[p].(cells := cp)][u := Relabel(pg[u], i - 1, ca[|ca| - 1].key)]
  }

  // The cells of both leaves, cut anywhere, fit the intervals either side of the cut.
  lemma RecutCells(nf: Nodes, a: nat, p: nat, ca: seq<Cell>, cp: seq<Cell>)
    requires a in nf && p in nf && LeafRecut(nf, a, p, ca, cp)
    ensures var m := ca[|ca| - 1].key;
      && nf[a].lo < m < nf[p].hi
      && Ascending(ca) && KeysWithin(ca, nf[a].lo, m) && Ascending(cp) && KeysWithin(cp, m, nf[p].hi)
  {
    var c := ca + cp;
    assert forall k :: 0 <= k < |ca| ==> ca[k] == c[k];
    assert forall k :: 0 <= k < |cp| ==> cp[k] == c[k + |ca|];
    assert ca[|ca| - 1].key == c[|ca| - 1].key < c[|ca|].key;
  }

  lemma LeafRecutDown(pg: seq<Page>, nf: Nodes, u: nat, i: int, a: nat, p: nat, ca: seq<Cell>, cp: seq<Cell>, x: nat)
    requires Siblings(pg, nf, u, i, a, p) && a in nf && p in nf && pg[p].Leaf? && pg[a].Leaf?
    requires LeafRecut(nf, a, p, ca, cp) && x in nf
    ensures Down(Recut(nf, a, p, ca[|ca| - 1].key), x, LeafRecutPages(pg, u, i, a, p, ca, cp)[x])
  {
    var m := ca[|ca| - 1].key;
    SiblingFacts(pg, nf, u, i, a, p);
    RecutCells(nf, a, p, ca, cp);
    assert Ok(pg, nf, x);
    if x == u {
      RecutParent(pg, nf, u, i, a, p, m);
    } else if pg[x].Internal? {
      OnlyParent(pg, nf, u, i, a, p, x);
      InnerDownKept(nf, Recut(nf, a, p, m), x, pg[x], pg[x]);
    }
  }

  lemma LeafRecutLinked(pg: seq<Page>, nf: Nodes, u: nat, i: int, a: nat, p: nat, ca: seq<Cell>, cp: seq<Cell>, x: nat)
    requires Siblings(pg, nf, u, i, a, p) && a in nf && p in nf && pg[p].Leaf? && pg[a].Leaf?
    requires LeafRecut(nf, a, p, ca, cp) && x in nf
    ensures Linked(Recut(nf, a, p, ca[|ca| - 1].key), x, LeafRecutPages(pg, u, i, a, p, ca, cp)[x])
  {
    SiblingFacts(pg, nf, u, i, a, p);
    RecutCells(nf, a, p, ca, cp);
    assert Ok(pg, nf, x);
    if x == a {
      LinkOfLeft(pg, nf, u, i, a, p);
    } else if pg[x].Leaf? && nf[x].hi != TOP && pg[x].next == p {
      OnlyLink(pg, nf, u, i, a, p, x);
    }
  }

  lemma LeafRecutUp(pg: seq<Page>, nf: Nodes, u: nat, i: int, a: nat, p: nat, ca: seq<Cell>, cp: seq<Cell>, x: nat)
    requires Siblings(pg, nf, u, i, a, p) && a in nf && p in nf && pg[p].Leaf? && pg[a].Leaf?
    requires LeafRecut(nf, a, p, ca, cp) && x in nf && IsNode(LeafRecutPages(pg, u, i, a, p, ca, cp)[x])
    ensures Up(LeafRecutPages(pg, u, i, a, p, ca, cp), Recut(nf, a, p, ca[|ca| - 1].key), x)
  {
    SiblingFacts(pg, nf, u, i, a, p);
    assert Ok(pg, nf, x);
    if x != nf[x].tree && pg[x].parent == u { RelabelKids(pg[u], i - 1, ca[|ca| - 1].key, x); }
  }

  lemma LeafRecutOk(pg: seq<Page>, nf: Nodes, u: nat, i: int, a: nat, p: nat, ca: seq<Cell>, cp: seq<Cell>, x: nat)
    requires Siblings(pg, nf, u, i, a, p) && a in nf && p in nf && pg[p].Leaf? && pg[a].Leaf?
    requires LeafRecut(nf, a, p, ca, cp) && x in nf
    ensures Ok(LeafRecutPages(pg, u, i, a, p, ca, cp), Recut(nf, a, p, ca[|ca| - 1].key), x)
  {
    SiblingFacts(pg, nf, u, i, a, p);
    RecutCells(nf, a, p, ca, cp);
    assert Ok(pg, nf, x);
    LeafRecutDown(pg, nf, u, i, a, p, ca, cp, x);
    LeafRecutLinked(pg, nf, u, i, a, p, ca, cp, x);
    LeafRecutUp(pg, nf, u, i, a, p, ca, cp, x);
  }

  lemma LeafRecutShaped(pg: seq<Page>, nf: Nodes, u: nat, i: int, a: nat, p: nat, ca: seq<Cell>, cp: seq<Cell>)
    requires Siblings(pg, nf, u, i, a, p) && a in nf && p in nf && pg[p].Leaf? && pg[a].Leaf?
    requires LeafRecut(nf, a, p, ca, cp)
    ensures Shaped(LeafRecutPages(pg, u, i, a, p, ca, cp), Recut(nf, a, p, ca[|ca| - 1].key))
  {
    var nf' := Recut(nf, a, p, ca[|ca| - 1].key);
    forall x | x in nf' ensures Ok(LeafRecutPages(pg, u, i, a, p, ca, cp), nf', x) {
      LeafRecutOk(pg, nf, u, i, a, p, ca, cp, x);
    }
  }

  // ------------------------------------------------------------ internal siblings

  // Two internal siblings as one page, the separator between them pulled down.
  function Join(e: Page, s: int, f: Page): Page
    requires e.Internal? && f.Internal?
  {
    e.(entries := e.entries + [Entry(e.right, s)] + f.entries, right := f.right)
  }

  lemma JoinKids(e: Page, s: int, f: Page, j: int)
    requires e.Internal? && f.Internal? && 0 <= j <= |e.entries| + |f.entries| + 1
    ensures |Join(e, s, f).entries| == |e.entries| + |f.entries| + 1
    ensures Kid(Join(e, s, f), j) == if j <= |e.entries| then Kid(e, j) else Kid(f, j - |e.entries| - 1)
  {
  }

  // The joined page would describe one node owning both intervals.
  ghost predicate Chain(nf: Nodes, t: nat, h: int, lo: int, hi: int, e: Page)
    requires e.Internal?
  {
    forall j {:trigger Kid(e, j)} :: 0 <= j <= |e.entries| ==>
      Kid(e, j) in nf && nf[Kid(e, j)] ==
        Info(t, if j == 0 then lo else e.entries[j - 1].key, if j == |e.entries| then hi else e.entries[j].key, h)
  }

  lemma JoinChain(pg: seq<Page>, nf: Nodes, u: nat, i: int, a: nat, p: nat)
    requires Siblings(pg, nf, u, i, a, p) && a in nf && p in nf && pg[a].Internal? && pg[p].Internal?
    ensures Chain(nf, nf[u].tree, nf[a].height - 1, nf[a].lo, nf[p].hi, Join(pg[a], pg[u].entries[i - 1].key, pg[p]))
  {
    SiblingFacts(pg, nf, u, i, a, p);
    var s := pg[u].entries[i - 1].key;
    var c := Join(pg[a], s, pg[p]);
    var n := |pg[a].entries|;
    forall j {:trigger Kid(c, j)} | 0 <= j <= |c.entries|
      ensures Kid(c, j) in nf && nf[Kid(c, j)] == Info(nf[u].tree, if j == 0 then nf[a].lo else c.entries[j - 1].key,
          if j == |c.entries| then nf[p].hi else c.entries[j].key, nf[a].height - 1)
    {
      JoinKids(pg[a], s, pg[p], j);
      if j <= n { assert KidAt(nf, a, pg[a], j); } else { assert KidAt(nf, p, pg[p], j - n - 1); }
    }
  }

  ghost predicate InnerRecutPre(pg: seq<Page>, nf: Nodes, u: nat, i: int, a: nat, p: nat, j: int) {
    && Siblings(pg, nf, u, i, a, p) && a in nf && p in nf && pg[a].Internal? && pg[p].Internal?
    && 0 <= j < |pg[a].entries| + |pg[p].entries| + 1
  }

  // Page x once siblings a and p have re-divided their children, a keeping the first j + 1.
  ghost function InnerRecutPage(pg: seq<Page>, nf: Nodes, u: nat, i: int, a: nat, p: nat, j: int, x: nat): Page
    requires InnerRecutPre(pg, nf, u, i, a, p, j) && x in nf
  {
    var c := Join(pg[a], pg[u].entries[i - 1].key, pg[p]);
    if x == u then Relabel(pg[u], i - 1, c.entries[j].key)
    else if x == a then LowerHalf(c, j)
    else if x == p then Internal(false, pg[p].parent, c.entries[j + 1..], c.right)
    else if x in KidSet(LowerHalf(c, j)) then SetParent(pg[x], a)
    else if x in KidSet(UpperHalf(c, j)) then SetParent(pg[x], p)
    else pg[x]
  }

  ghost predicate InnerRecut(pg: seq<Page>, nf: Nodes, u: nat, i: int, a: nat, p: nat, j: int, pg': seq<Page>) {
    && InnerRecutPre(pg, nf, u, i, a, p, j)
    && |pg'| == |pg|
    && forall x :: x in nf ==> pg'[x] == InnerRecutPage(pg, nf, u, i, a, p, j, x)
  }

  ghost function CutKey(pg: seq<Page>, nf: Nodes, u: nat, i: int, a: nat, p: nat, j: int): int
    requires InnerRecutPre(pg, nf, u, i, a, p, j)
  {
    Join(pg[a], pg[u].entries[i - 1].key, pg[p]).entries[j].key
  }

  lemma CutInside(pg: seq<Page>, nf: Nodes, u: nat, i: int, a: nat, p: nat, j: int)
    requires InnerRecutPre(pg, nf, u, i, a, p, j)
    ensures nf[a].lo < CutKey(pg, nf, u, i, a, p, j) < nf[p].hi
  {
    SiblingFacts(pg, nf, u, i, a, p);
    var n := |pg[a].entries|;
    if j < n {
      KidInside(pg, nf, a, j);
    } else if j > n {
      KidInside(pg, nf, p, j - n - 1);
      KidInside(pg, nf, p, j - n);
    }
  }

  // Children of the joined page are children of a or of p, hence neither u, a nor p.
  lemma JoinKidFacts(pg: seq<Page>, nf: Nodes, u: nat, i: int, a: nat, p: nat, j: int)
    requires InnerRecutPre(pg, nf, u, i, a, p, 0)
    requires 0 <= j <= |pg[a].entries| + |pg[p].entries| + 1
    ensures var c := Join(pg[a], pg[u].entries[i - 1].key, pg[p]);
      && Kid(c, j) in nf && Kid(c, j) != nf[u].tree && nf[Kid(c, j)].tree == nf[u].tree
      && nf[Kid(c, j)].height == nf[a].height - 1
      && pg[Kid(c, j)].parent == if j <= |pg[a].entries| then a else p
  {
    SiblingFacts(pg, nf, u, i, a, p);
    JoinKids(pg[a], pg[u].entries[i - 1].key, pg[p], j);
    if j <= |pg[a].entries| { KidParent(pg, nf, a, j); } else { KidParent(pg, nf, p, j - |pg[a].entries| - 1); }
  }

  lemma InnerRecutLeft(pg: seq<Page>, nf: Nodes, u: nat, i: int, a: nat, p: nat, j: int, pg': seq<Page>)
    requires InnerRecut(pg, nf, u, i, a, p, j, pg')
    ensures InnerDown(Recut(nf, a, p, CutKey(pg, nf, u, i, a, p, j)), a, pg'[a])
  {
    SiblingFacts(pg, nf, u, i, a, p);
    JoinChain(pg, nf, u, i, a, p);
    var c := Join(pg[a], pg[u].entries[i - 1].key, pg[p]);
    var nf' := Recut(nf, a, p, c.entries[j].key);
    forall k | 0 <= k <= |pg'[a].entries| ensures KidAt(nf', a, pg'[a], k) {
      HalvesKids(c, j, k);
      JoinKidFacts(pg, nf, u, i, a, p, k);
    }
  }

  // Child k of the upper half is in place under p.
  lemma InnerRecutRightKid(pg: seq<Page>, nf: Nodes, u: nat, i: int, a: nat, p: nat, j: int, pg': seq<Page>, k: int)
    requires InnerRecut(pg, nf, u, i, a, p, j, pg') && pg'[p].Internal? && 0 <= k <= |pg'[p].entries|
    ensures KidAt(Recut(nf, a, p, CutKey(pg, nf, u, i, a, p, j)), p, pg'[p], k)
  {
    SiblingFacts(pg, nf, u, i, a, p);
    JoinChain(pg, nf, u, i, a, p);
    HalvesKids(Join(pg[a], pg[u].entries[i - 1].key, pg[p]), j, k);
    JoinKidFacts(pg, nf, u, i, a, p, k + j + 1);
  }

  lemma InnerRecutRight(pg: seq<Page>, nf: Nodes, u: nat, i: int, a: nat, p: nat, j: int, pg': seq<Page>)
    requires InnerRecut(pg, nf, u, i, a, p, j, pg')
    ensures InnerDown(Recut(nf, a, p, CutKey(pg, nf, u, i, a, p, j)), p, pg'[p])
  {
    SiblingFacts(pg, nf, u, i, a, p);
    JoinChain(pg, nf, u, i, a, p);
    var nf' := Recut(nf, a, p, CutKey(pg, nf, u, i, a, p, j));
    forall k | 0 <= k <= |pg'[p].entries| ensures KidAt(nf', p, pg'[p], k) {
      InnerRecutRightKid(pg, nf, u, i, a, p, j, pg', k);
    }
  }

  lemma InnerRecutUpLower(pg: seq<Page>, nf: Nodes, u: nat, i: int, a: nat, p: nat, j: int, pg': seq<Page>, x: nat)
    requires InnerRecut(pg, nf, u, i, a, p, j, pg') && x in nf && x != nf[x].tree
    requires HasKid(LowerHalf(Join(pg[a], pg[u].entries[i - 1].key, pg[p]), j), x)
    ensures Up(pg', Recut(nf, a, p, CutKey(pg, nf, u, i, a, p, j)), x)
  {
    SiblingFacts(pg, nf, u, i, a, p);
    assert Ok(pg, nf, x);
    var c := Join(pg[a], pg[u].entries[i - 1].key, pg[p]);
    LowerHas(c, j, x);
    var k :| 0 <= k <= |LowerHalf(c, j).entries| && Kid(LowerHalf(c, j), k) == x;
    HalvesKids(c, j, k);
    JoinKidFacts(pg, nf, u, i, a, p, k);
  }

  // A child in the upper half: where it was, and that it now names p.
  lemma UpperKid(pg: seq<Page>, nf: Nodes, u: nat, i: int, a: nat, p: nat, j: int, pg': seq<Page>, x: nat)
    requires InnerRecut(pg, nf, u, i, a, p, j, pg') && x in nf
    requires var c :=
      Join(pg[a], pg[u].entries[i - 1].key, pg[p]); !HasKid(LowerHalf(c, j), x) && HasKid(UpperHalf(c, j), x)
    ensures nf[x].tree == nf[u].tree && nf[x].height == nf[p].height - 1 && x != u && x != a && x != p
    ensures pg'[x] == SetParent(pg[x], p)
  {
    SiblingFacts(pg, nf, u, i, a, p);
    var c := Join(pg[a], pg[u].entries[i - 1].key, pg[p]);
    LowerHas(c, j, x);
    UpperHas(c, j, x);
    var k :| 0 <= k <= |UpperHalf(c, j).entries| && Kid(UpperHalf(c, j), k) == x;
    HalvesKids(c, j, k);
    JoinKidFacts(pg, nf, u, i, a, p, k + j + 1);
  }

  lemma InnerRecutUpUpper(pg: seq<Page>, nf: Nodes, u: nat, i: int, a: nat, p: nat, j: int, pg': seq<Page>, x: nat)
    requires InnerRecut(pg, nf, u, i, a, p, j, pg') && x in nf && x != nf[x].tree
    requires var c :=
      Join(pg[a], pg[u].entries[i - 1].key, pg[p]); !HasKid(LowerHalf(c, j), x) && HasKid(UpperHalf(c, j), x)
    ensures Up(pg', Recut(nf, a, p, CutKey(pg, nf, u, i, a, p, j)), x)
  {
    SiblingFacts(pg, nf, u, i, a, p);
    assert Ok(pg, nf, x);
    UpperKid(pg, nf, u, i, a, p, j, pg', x);
    SameKids(UpperHalf(Join(pg[a], pg[u].entries[i - 1].key, pg[p]), j), pg'[p], x);
  }

  lemma InnerRecutUp(pg: seq<Page>, nf: Nodes, u: nat, i: int, a: nat, p: nat, j: int, pg': seq<Page>, x: nat)
    requires InnerRecut(pg, nf, u, i, a, p, j, pg') && x in nf && x != nf[x].tree
    ensures Up(pg', Recut(nf, a, p, CutKey(pg, nf, u, i, a, p, j)), x)
  {
    SiblingFacts(pg, nf, u, i, a, p);
    assert Ok(pg, nf, x);
    var c := Join(pg[a], pg[u].entries[i - 1].key, pg[p]);
    var px := pg[x].parent;
    LowerHas(c, j, x);
    if px == a || px == p {
      JoinHas(pg[a], pg[u].entries[i - 1].key, pg[p], x);
      HalvesHave(c, j, x);
    }
    if HasKid(LowerHalf(c, j), x) {
      InnerRecutUpLower(pg, nf, u, i, a, p, j, pg', x);
    } else if HasKid(UpperHalf(c, j), x) {
      InnerRecutUpUpper(pg, nf, u, i, a, p, j, pg', x);
    } else {
      InnerRecutUpStayed(pg, nf, u, i, a, p, j, pg', x);
    }
  }

  // A node that is a child of neither sibling keeps its parent, which keeps it.
  lemma InnerRecutUpStayed(pg: seq<Page>, nf: Nodes, u: nat, i: int, a: nat, p: nat, j: int, pg': seq<Page>, x: nat)
    requires InnerRecut(pg, nf, u, i, a, p, j, pg') && x in nf && x != nf[x].tree && pg[x].parent != a
    requires pg[x].parent != p
    requires var c :=
      Join(pg[a], pg[u].entries[i - 1].key, pg[p]); !HasKid(LowerHalf(c, j), x) && !HasKid(UpperHalf(c, j), x)
    ensures Up(pg', Recut(nf, a, p, CutKey(pg, nf, u, i, a, p, j)), x)
  {
    SiblingFacts(pg, nf, u, i, a, p);
    assert Ok(pg, nf, x);
    var c := Join(pg[a], pg[u].entries[i - 1].key, pg[p]);
    var px := pg[x].parent;
    LowerHas(c, j, x);
    UpperHas(c, j, x);
    if px == u {
      RelabelKids(pg[u], i - 1, c.entries[j].key, x);
    } else {
      SameKids(pg[px], pg'[px], x);
    }
  }

  lemma UpperHas(c: Page, j: int, x: nat)
    requires c.Internal? && 0 <= j < |c.entries|
    ensures HasKid(UpperHalf(c, j), x) <==> x in KidSet(UpperHalf(c, j))
  {
    if HasKid(UpperHalf(c, j), x) {
      var k :| 0 <= k <= |UpperHalf(c, j).entries| && Kid(UpperHalf(c, j), k) == x;
    }
  }

  lemma LowerHas(c: Page, j: int, x: nat)
    requires c.Internal? && 0 <= j < |c.entries|
    ensures HasKid(LowerHalf(c, j), x) <==> x in KidSet(LowerHalf(c, j))
  {
    if HasKid(LowerHalf(c, j), x) {
      var k :| 0 <= k <= |LowerHalf(c, j).entries| && Kid(LowerHalf(c, j), k) == x;
    }
  }

  lemma JoinHas(e: Page, s: int, f: Page, x: nat)
    requires e.Internal? && f.Internal?
    ensures HasKid(e, x) || HasKid(f, x) ==> HasKid(Join(e, s, f), x)
  {
    if HasKid(e, x) {
      var k :| 0 <= k <= |e.entries| && Kid(e, k) == x;
      JoinKids(e, s, f, k);
      assert Kid(Join(e, s, f), k) == x;
    } else if HasKid(f, x) {
      var k :| 0 <= k <= |f.entries| && Kid(f, k) == x;
      JoinKids(e, s, f, k + |e.entries| + 1);
      assert Kid(Join(e, s, f), k + |e.entries| + 1) == x;
    }
  }

  // Pages other than the siblings and their parent change at most in the parent they name.
  lemma InnerRecutAlike(pg: seq<Page>, nf: Nodes, u: nat, i: int, a: nat, p: nat, j: int, pg': seq<Page>, x: nat)
    requires InnerRecut(pg, nf, u, i, a, p, j, pg') && x in nf && x != u && x != a && x != p
    ensures pg'[x] == pg[x] || pg'[x] == SetParent(pg[x], a) || pg'[x] == SetParent(pg[x], p)
  {
  }

  lemma InnerRecutDown(pg: seq<Page>, nf: Nodes, u: nat, i: int, a: nat, p: nat, j: int, pg': seq<Page>, x: nat)
    requires InnerRecut(pg, nf, u, i, a, p, j, pg') && x in nf
    ensures Down(Recut(nf, a, p, CutKey(pg, nf, u, i, a, p, j)), x, pg'[x])
  {
    var m := CutKey(pg, nf, u, i, a, p, j);
    SiblingFacts(pg, nf, u, i, a, p);
    if x == u {
      RecutParent(pg, nf, u, i, a, p, m);
    } else if x == a {
      InnerRecutLeft(pg, nf, u, i, a, p, j, pg');
    } else if x == p {
      InnerRecutRight(pg, nf, u, i, a, p, j, pg');
    } else {
      InnerRecutAlike(pg, nf, u, i, a, p, j, pg', x);
      RecutDownElsewhere(pg, nf, u, i, a, p, m, x, pg'[x]);
    }
  }

  lemma RecutDownElsewhere(pg: seq<Page>, nf: Nodes, u: nat, i: int, a: nat, p: nat, m: int, x: nat, e: Page)
    requires Siblings(pg, nf, u, i, a, p) && a in nf && p in nf && x in nf && x != u && x != a && x != p
    requires pg[a].Internal? && (e == pg[x] || e == SetParent(pg[x], a) || e == SetParent(pg[x], p))
    ensures Down(Recut(nf, a, p, m), x, e) && Linked(Recut(nf, a, p, m), x, e)
  {
    SiblingFacts(pg, nf, u, i, a, p);
    assert Ok(pg, nf, x);
    if pg[x].Internal? {
      OnlyParent(pg, nf, u, i, a, p, x);
      InnerDownKept(nf, Recut(nf, a, p, m), x, pg[x], e);
    }
  }

  lemma InnerRecutLinked(pg: seq<Page>, nf: Nodes, u: nat, i: int, a: nat, p: nat, j: int, pg': seq<Page>, x: nat)
    requires InnerRecut(pg, nf, u, i, a, p, j, pg') && x in nf
    ensures Linked(Recut(nf, a, p, CutKey(pg, nf, u, i, a, p, j)), x, pg'[x])
  {
    if x != u && x != a && x != p {
      InnerRecutAlike(pg, nf, u, i, a, p, j, pg', x);
      RecutDownElsewhere(pg, nf, u, i, a, p, CutKey(pg, nf, u, i, a, p, j), x, pg'[x]);
    }
  }

  lemma InnerRecutOk(pg: seq<Page>, nf: Nodes, u: nat, i: int, a: nat, p: nat, j: int, pg': seq<Page>, x: nat)
    requires InnerRecut(pg, nf, u, i, a, p, j, pg') && x in nf
    ensures Ok(pg', Recut(nf, a, p, CutKey(pg, nf, u, i, a, p, j)), x)
  {
    SiblingFacts(pg, nf, u, i, a, p);
    CutInside(pg, nf, u, i, a, p, j);
    assert Ok(pg, nf, x);
    InnerRecutDown(pg, nf, u, i, a, p, j, pg', x);
    InnerRecutLinked(pg, nf, u, i, a, p, j, pg', x);
    if x != nf[x].tree {
      InnerRecutUp(pg, nf, u, i, a, p, j, pg', x);
    }
  }

  lemma InnerRecutShaped(pg: seq<Page>, nf: Nodes, u: nat, i: int, a: nat, p: nat, j: int, pg': seq<Page>)
    requires InnerRecut(pg, nf, u, i, a, p, j, pg')
    ensures Shaped(pg', Recut(nf, a, p, CutKey(pg, nf, u, i, a, p, j)))
  {
    var nf' := Recut(nf, a, p, CutKey(pg, nf, u, i, a, p, j));
    forall x | x in nf' ensures Ok(pg', nf', x) { InnerRecutOk(pg, nf, u, i, a, p, j, pg', x); }
    AllOk(pg', nf');
  }

  // ------------------------------------------------------------ merging

  // The parent's page without child i, its left sibling taking over the separator after it.
  function RemoveKid(e: Page, i: int): Page
    requires e.Internal? && 1 <= i <= |e.entries|
  {
    if i == |e.entries| then e.(entries := e.entries[..i - 1], right := e.entries[i - 1].child)
    else e.(entries := e.entries[..i - 1] + [Entry(e.entries[i - 1].child, e.entries[i].key)] + e.entries[i + 1..])
  }

  lemma RemoveKidKids(e: Page, i: int, j: int)
    requires e.Internal? && 1 <= i <= |e.entries| && 0 <= j < |e.entries|
    ensures var s := RemoveKid(e, i);
      && |s.entries| == |e.entries| - 1
      && Kid(s, j) == (if j < i then Kid(e, j) else Kid(e, j + 1))
      && (j < |e.entries| - 1 ==> s.entries[j].key == if j < i - 1 then e.entries[j].key else e.entries[j + 1].key)
  {
  }

  lemma RemoveKidHas(e: Page, i: int, x: nat)
    requires e.Internal? && 1 <= i <= |e.entries| && HasKid(e, x) && Kid(e, i) != x
    ensures HasKid(RemoveKid(e, i), x)
  {
    var j :| 0 <= j <= |e.entries| && Kid(e, j) == x;
    RemoveKidKids(e, i, if j < i then j else j - 1);
    assert Kid(RemoveKid(e, i), if j < i then j else j - 1) == x;
  }

  ghost function MergeNodes(nf: Nodes, a: nat, p: nat): Nodes
    requires a in nf && p in nf
  {
    map x | x in nf && x != p :: if x == a then nf[a].(hi := nf[p].hi) else nf[x]
  }

  lemma MergeParent(pg: seq<Page>, nf: Nodes, u: nat, i: int, a: nat, p: nat)
    requires Siblings(pg, nf, u, i, a, p) && a in nf && p in nf && u != p
    ensures InnerDown(MergeNodes(nf, a, p), u, RemoveKid(pg[u], i))
  {
    SiblingFacts(pg, nf, u, i, a, p);
    var nf', e := MergeNodes(nf, a, p), RemoveKid(pg[u], i);
    forall j | 0 <= j <= |e.entries| ensures KidAt(nf', u, e, j) {
      RemoveKidKids(pg[u], i, j);
      if j > 0 { RemoveKidKids(pg[u], i, j - 1); }
      assert KidAt(nf, u, pg[u], if j < i then j else j + 1);
      assert KidAt(nf, u, pg[u], i);
    }
  }

  // Page x once sibling p has been merged into a and taken out of u.
  ghost function MergePage(pg: seq<Page>, nf: Nodes, u: nat, i: int, a: nat, p: nat, x: nat): Page
    requires Siblings(pg, nf, u, i, a, p) && a in nf && p in nf && x in nf
    requires pg[a].Leaf? <==> pg[p].Leaf?
  {
    if x == u then RemoveKid(pg[u], i)
    else if x == a then
      if pg[a].Leaf? then pg[a].(cells := pg[a].cells + pg[p].cells, next := pg[p].next)
      else Join(pg[a], pg[u].entries[i - 1].key, pg[p])
    else if pg[p].Internal? && x in KidSet(pg[p]) then SetParent(pg[x], a)
    else pg[x]
  }

  ghost predicate Merged(pg: seq<Page>, nf: Nodes, u: nat, i: int, a: nat, p: nat, pg': seq<Page>) {
    && Siblings(pg, nf, u, i, a, p) && a in nf && p in nf && (pg[a].Leaf? <==> pg[p].Leaf?)
    && u != p && a != p && a != u
    && |pg'| == |pg|
    && forall x :: x in nf && x != p ==> pg'[x] == MergePage(pg, nf, u, i, a, p, x)
  }

  lemma MergeLeafSelf(pg: seq<Page>, nf: Nodes, u: nat, i: int, a: nat, p: nat, pg': seq<Page>)
    requires Merged(pg, nf, u, i, a, p, pg') && pg[p].Leaf?
    ensures Down(MergeNodes(nf, a, p), a, pg'[a]) && Linked(MergeNodes(nf, a, p), a, pg'[a])
  {
    SiblingFacts(pg, nf, u, i, a, p);
    assert |pg[p].cells| > 0;
  }

  lemma MergeInnerSelf(pg: seq<Page>, nf: Nodes, u: nat, i: int, a: nat, p: nat, pg': seq<Page>)
    requires Merged(pg, nf, u, i, a, p, pg') && pg[p].Internal?
    ensures Down(MergeNodes(nf, a, p), a, pg'[a])
  {
    SiblingFacts(pg, nf, u, i, a, p);
    JoinChain(pg, nf, u, i, a, p);
    var c := Join(pg[a], pg[u].entries[i - 1].key, pg[p]);
    forall k | 0 <= k <= |c.entries| ensures KidAt(MergeNodes(nf, a, p), a, c, k) {
      JoinKidFacts(pg, nf, u, i, a, p, k);
    }
  }

  lemma MergeUp(pg: seq<Page>, nf: Nodes, u: nat, i: int, a: nat, p: nat, pg': seq<Page>, x: nat)
    requires Merged(pg, nf, u, i, a, p, pg') && x in nf && x != p && x != nf[x].tree
    ensures Up(pg', MergeNodes(nf, a, p), x)
  {
    SiblingFacts(pg, nf, u, i, a, p);
    assert Ok(pg, nf, x);
    var px := pg[x].parent;
    if pg[p].Internal? && HasKid(pg[p], x) {
      var k :| 0 <= k <= |pg[p].entries| && Kid(pg[p], k) == x;
      KidParent(pg, nf, p, k);
      JoinHas(pg[a], pg[u].entries[i - 1].key, pg[p], x);
    } else if px == a {
      JoinHas(pg[a], pg[u].entries[i - 1].key, pg[p], x);
      MergeNotMoved(pg[p], x);
    } else if px == u {
      RemoveKidHas(pg[u], i, x);
      MergeNotMoved(pg[p], x);
    } else {
      SameKids(pg[px], SetParent(pg[px], a), x);
      MergeNotMoved(pg[p], x);
    }
  }

  lemma MergeNotMoved(e: Page, x: nat)
    ensures e.Internal? && x in KidSet(e) ==> HasKid(e, x)
    ensures e.Internal? && HasKid(e, x) ==> x in KidSet(e)
  {
    if e.Internal? && HasKid(e, x) { var k :| 0 <= k <= |e.entries| && Kid(e, k) == x; }
  }

  lemma MergeDown(pg: seq<Page>, nf: Nodes, u: nat, i: int, a: nat, p: nat, pg': seq<Page>, x: nat)
    requires Merged(pg, nf, u, i, a, p, pg') && x in nf && x != p
    ensures Down(MergeNodes(nf, a, p), x, pg'[x]) && Linked(MergeNodes(nf, a, p), x, pg'[x])
  {
    SiblingFacts(pg, nf, u, i, a, p);
    assert Ok(pg, nf, x);
    if x == u {
      MergeParent(pg, nf, u, i, a, p);
    } else if x == a {
      if pg[p].Leaf? { MergeLeafSelf(pg, nf, u, i, a, p, pg'); } else { MergeInnerSelf(pg, nf, u, i, a, p, pg'); }
    } else if pg[x].Internal? {
      OnlyParent(pg, nf, u, i, a, p, x);
      InnerDownKept(nf, MergeNodes(nf, a, p), x, pg[x], pg'[x]);
    } else if nf[x].hi != TOP && pg[x].next == p {
      if pg[p].Leaf? { OnlyLink(pg, nf, u, i, a, p, x); }
    }
  }

  lemma MergeOk(pg: seq<Page>, nf: Nodes, u: nat, i: int, a: nat, p: nat, pg': seq<Page>, x: nat)
    requires Merged(pg, nf, u, i, a, p, pg') && x in nf && x != p
    ensures Ok(pg', MergeNodes(nf, a, p), x)
  {
    SiblingFacts(pg, nf, u, i, a, p);
    assert Ok(pg, nf, x);
    MergeDown(pg, nf, u, i, a, p, pg', x);
    if x != nf[x].tree { MergeUp(pg, nf, u, i, a, p, pg', x); }
  }

  lemma MergeShaped(pg: seq<Page>, nf: Nodes, u: nat, i: int, a: nat, p: nat, pg': seq<Page>)
    requires Merged(pg, nf, u, i, a, p, pg')
    ensures Shaped(pg', MergeNodes(nf, a, p))
  {
    forall x | x in MergeNodes(nf, a, p) ensures Ok(pg', MergeNodes(nf, a, p), x) {
      MergeOk(pg, nf, u, i, a, p, pg', x);
    }
  }
}
