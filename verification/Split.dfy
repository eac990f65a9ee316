/** Splitting a node in two under its parent, and growing a new root. */
module Split {
  import opened Pages
  import opened Shape

  ghost function SplitNodes(nf: Nodes, p: nat, q: nat, m: int): Nodes
    requires p in nf
  {
    nf[p := nf[p].(hi := m)][q := nf[p].(lo := m)]
  }

  // The parent's page once child i has been cut at m, its upper part being page q.
  function SplitKid(e: Page, i: int, m: int, q: nat): Page
    requires e.Internal? && 0 <= i <= |e.entries|
  {
    if i == |e.entries| then e.(entries := e.entries + [Entry(e.right, m)], right := q)
    else e.(entries := e.entries[..i] + [Entry(e.entries[i].child, m), Entry(q, e.entries[i].key)] + e.entries[i + 1..])
  }

  lemma SplitKidKids(e: Page, i: int, m: int, q: nat, j: int)
    requires e.Internal? && 0 <= i <= |e.entries| && 0 <= j <= |e.entries| + 1
    ensures var s := SplitKid(e, i, m, q);
      && |s.entries| == |e.entries| + 1
      && Kid(s, j) == (if j <= i then Kid(e, j) else if j == i + 1 then q else Kid(e, j - 1))
      && (j <= |e.entries| ==>
            s.entries[j].key == if j < i then e.entries[j].key else if j == i then m else e.entries[j - 1].key)
  {
  }

  lemma SplitKidHas(e: Page, i: int, m: int, q: nat, x: nat)
    requires e.Internal? && 0 <= i <= |e.entries|
    ensures HasKid(SplitKid(e, i, m, q), q)
    ensures HasKid(e, x) ==> HasKid(SplitKid(e, i, m, q), x)
  {
    var s := SplitKid(e, i, m, q);
    SplitKidKids(e, i, m, q, i + 1);
    assert Kid(s, i + 1) == q;
    if HasKid(e, x) {
      var j :| 0 <= j <= |e.entries| && Kid(e, j) == x;
      SplitKidKids(e, i, m, q, if j <= i then j else j + 1);
      assert Kid(s, if j <= i then j else j + 1) == x;
    }
  }

  lemma SplitKidDown(nf: Nodes, p: nat, e: Page, i: int, m: int, q: nat)
    requires p in nf && e.Internal? && InnerDown(nf, p, e) && 0 <= i <= |e.entries|
    requires Kid(e, i) in nf && p != Kid(e, i) && p != q && q !in nf
    requires forall j :: 0 <= j <= |e.entries| && j != i ==> Kid(e, j) != Kid(e, i)
    ensures InnerDown(SplitNodes(nf, Kid(e, i), q, m), p, SplitKid(e, i, m, q))
  {
    var nf', s := SplitNodes(nf, Kid(e, i), q, m), SplitKid(e, i, m, q);
    forall j | 0 <= j <= |s.entries| ensures KidAt(nf', p, s, j) {
      SplitKidKids(e, i, m, q, j);
      if j > 0 { SplitKidKids(e, i, m, q, j - 1); }
      assert KidAt(nf, p, e, if j <= i then j else j - 1);
    }
  }

  // Internal nodes whose children's intervals did not change keep their separators.
  lemma InnerDownKept(nf: Nodes, nf': Nodes, p: nat, e: Page, e': Page)
    requires p in nf && p in nf' && nf'[p] == nf[p] && e.Internal? && e'.Internal? && InnerDown(nf, p, e)
    requires e'.entries == e.entries && e'.right == e.right
    requires forall j {:trigger Kid(e, j)} :: 0 <= j <= |e.entries| && Kid(e, j) in nf ==>
      Kid(e, j) in nf' && nf'[Kid(e, j)] == nf[Kid(e, j)]
    ensures InnerDown(nf', p, e')
  {
    forall j | 0 <= j <= |e'.entries| ensures KidAt(nf', p, e', j) {
      assert KidAt(nf, p, e, j) && Kid(e, j) in nf;
    }
  }

  lemma SameKids(e: Page, e': Page, x: nat)
    requires e.Internal? && e'.Internal? && e'.entries == e.entries && e'.right == e.right
    ensures HasKid(e, x) <==> HasKid(e', x)
  {
    if HasKid(e, x) {
      var i :| 0 <= i <= |e.entries| && Kid(e, i) == x;
      assert Kid(e', i) == x;
    }
    if HasKid(e', x) {
      var i :| 0 <= i <= |e'.entries| && Kid(e', i) == x;
      assert Kid(e, i) == x;
    }
  }

  // The pages after leaf p is cut into `left` and `right`, the latter on page q.
  ghost function LeafSplitPages(pg: seq<Page>, p: nat, q: nat, i: int, m: int, left: seq<Cell>,
                                right: seq<Cell>): seq<Page>
    requires p < |pg| && q < |pg| && pg[p].Leaf? && pg[p].parent < |pg|
    requires pg[pg[p].parent].Internal? && 0 <= i <= |pg[pg[p].parent].entries|
  {
    pg[p := pg[p].(cells := left, next := q)]
      [q := Leaf(false, pg[p].parent, right, pg[p].next)]
      [pg[p].parent := SplitKid(pg[pg[p].parent], i, m, q)]
  }

  ghost predicate LeafCut(nf: Nodes, p: nat, m: int, left: seq<Cell>, right: seq<Cell>)
    requires p in nf
  {
    && |left| > 0 && |right| > 0
    && Ascending(left + right) && KeysWithin(left + right, nf[p].lo, nf[p].hi)
    && m == left[|left| - 1].key
    && (nf[p].hi < TOP ==> right[|right| - 1].key == nf[p].hi)
  }

  lemma LeafCutHalves(nf: Nodes, p: nat, m: int, left: seq<Cell>, right: seq<Cell>)
    requires p in nf && LeafCut(nf, p, m, left, right)
    ensures Ascending(left) && Ascending(right)
    ensures KeysWithin(left, nf[p].lo, m) && KeysWithin(right, m, nf[p].hi)
    ensures nf[p].lo < m < nf[p].hi
  {
    var c := left + right;
    assert forall k :: 0 <= k < |left| ==> left[k] == c[k];
    assert forall k :: 0 <= k < |right| ==> right[k] == c[k + |left|];
    assert right[0] == c[|left|] && left[|left| - 1] == c[|left| - 1];
  }

  lemma LeafSplitShaped(pg: seq<Page>, nf: Nodes, p: nat, q: nat, i: int, m: int, left: seq<Cell>, right: seq<Cell>)
    requires Shaped(pg, nf) && p in nf && p != nf[p].tree && pg[p].Leaf?
    requires Ok(pg, nf, p) && 0 <= i <= |pg[pg[p].parent].entries| && Kid(pg[pg[p].parent], i) == p
    requires q !in nf && 0 < q < |pg|
    requires LeafCut(nf, p, m, left, right)
    ensures Shaped(LeafSplitPages(pg, p, q, i, m, left, right), SplitNodes(nf, p, q, m))
  {
    var pg', nf' := LeafSplitPages(pg, p, q, i, m, left, right), SplitNodes(nf, p, q, m);
    var P := pg[p].parent;
    LeafCutHalves(nf, p, m, left, right);
    assert Basic(nf, p) && Linked(nf, p, pg[p]);
    forall x | x in nf' ensures Ok(pg', nf', x) {
      if x == p {
        SplitKidHas(pg[P], i, m, q, p);
        assert Up(pg', nf', x);
      } else if x == q {
        SplitKidHas(pg[P], i, m, q, p);
        assert Up(pg', nf', x);
      } else if x == P {
        LeafSplitParent(pg, nf, p, q, i, m, left, right);
      } else {
        LeafSplitOther(pg, nf, p, q, i, m, left, right, x);
      }
    }
  }

  lemma LeafSplitParent(pg: seq<Page>, nf: Nodes, p: nat, q: nat, i: int, m: int, left: seq<Cell>, right: seq<Cell>)
    requires Shaped(pg, nf) && p in nf && p != nf[p].tree && pg[p].Leaf?
    requires Ok(pg, nf, p) && 0 <= i <= |pg[pg[p].parent].entries| && Kid(pg[pg[p].parent], i) == p
    requires q !in nf && 0 < q < |pg|
    ensures Ok(LeafSplitPages(pg, p, q, i, m, left, right), SplitNodes(nf, p, q, m), pg[p].parent)
  {
    var P := pg[p].parent;
    assert Ok(pg, nf, P);
    forall j | 0 <= j <= |pg[P].entries| && j != i ensures Kid(pg[P], j) != p {
      if Kid(pg[P], j) == p { KidOnce(pg, nf, P, i, j); }
    }
    SplitKidDown(nf, P, pg[P], i, m, q);
  }

  lemma LeafSplitOther(pg: seq<Page>, nf: Nodes, p: nat, q: nat, i: int, m: int, left: seq<Cell>, right: seq<Cell>,
                       x: nat)
    requires Shaped(pg, nf) && p in nf && p != nf[p].tree && pg[p].Leaf?
    requires Ok(pg, nf, p) && 0 <= i <= |pg[pg[p].parent].entries| && Kid(pg[pg[p].parent], i) == p
    requires q !in nf && 0 < q < |pg|
    requires x in nf && x != p && x != pg[p].parent
    ensures Ok(LeafSplitPages(pg, p, q, i, m, left, right), SplitNodes(nf, p, q, m), x)
  {
    var pg', nf' := LeafSplitPages(pg, p, q, i, m, left, right), SplitNodes(nf, p, q, m);
    assert Ok(pg, nf, x);
    if pg[x].Internal? {
      forall j {:trigger Kid(pg[x], j)} | 0 <= j <= |pg[x].entries| && Kid(pg[x], j) in nf
        ensures Kid(pg[x], j) in nf' && nf'[Kid(pg[x], j)] == nf[Kid(pg[x], j)]
      {
        KidParent(pg, nf, x, j);
      }
      InnerDownKept(nf, nf', x, pg[x], pg'[x]);
    }
    SplitKidHas(pg[pg[p].parent], i, m, q, x);
  }

  function KidSet(e: Page): set<nat>
    requires e.Internal?
  {
    set i | 0 <= i <= |e.entries| :: Kid(e, i)
  }

  // Every page in `moved` now names `q` as its parent.
  function Reparent(pg: seq<Page>, moved: set<nat>, q: nat): (r: seq<Page>)
    ensures |r| == |pg|
    ensures forall x :: 0 <= x < |pg| ==> r[x] == if x in moved then SetParent(pg[x], q) else pg[x]
  {
    seq(|pg|, x requires 0 <= x < |pg| => if x in moved then SetParent(pg[x], q) else pg[x])
  }

  function LowerHalf(e: Page, j: int): Page
    requires e.Internal? && 0 <= j < |e.entries|
  {
    e.(entries := e.entries[..j], right := e.entries[j].child)
  }

  function UpperHalf(e: Page, j: int): Page
    requires e.Internal? && 0 <= j < |e.entries|
  {
    Internal(false, e.parent, e.entries[j + 1..], e.right)
  }

  lemma HalvesKids(e: Page, j: int, x: int)
    requires e.Internal? && 0 <= j < |e.entries|
    ensures 0 <= x <= j ==> Kid(LowerHalf(e, j), x) == Kid(e, x)
    ensures 0 <= x <= |e.entries| - j - 1 ==> Kid(UpperHalf(e, j), x) == Kid(e, x + j + 1)
  {
  }

  lemma HalvesHave(e: Page, j: int, x: nat)
    requires e.Internal? && 0 <= j < |e.entries| && HasKid(e, x)
    ensures HasKid(LowerHalf(e, j), x) || HasKid(UpperHalf(e, j), x)
    ensures HasKid(UpperHalf(e, j), x) <==> x in KidSet(UpperHalf(e, j))
  {
    var i :| 0 <= i <= |e.entries| && Kid(e, i) == x;
    if i <= j {
      HalvesKids(e, j, i);
      assert Kid(LowerHalf(e, j), i) == x;
    } else {
      HalvesKids(e, j, i - j - 1);
      assert Kid(UpperHalf(e, j), i - j - 1) == x;
    }
  }

  lemma HalvesDown(nf: Nodes, p: nat, e: Page, q: nat, j: int)
    requires p in nf && e.Internal? && InnerDown(nf, p, e) && 0 <= j < |e.entries|
    requires q !in nf
    requires forall i :: 0 <= i <= |e.entries| ==> Kid(e, i) != p
    ensures InnerDown(SplitNodes(nf, p, q, e.entries[j].key), p, LowerHalf(e, j))
    ensures InnerDown(SplitNodes(nf, p, q, e.entries[j].key), q, UpperHalf(e, j))
  {
    var nf', l, u := SplitNodes(nf, p, q, e.entries[j].key), LowerHalf(e, j), UpperHalf(e, j);
    forall i | 0 <= i <= |l.entries| ensures KidAt(nf', p, l, i) {
      HalvesKids(e, j, i);
      assert KidAt(nf, p, e, i);
    }
    forall i | 0 <= i <= |u.entries| ensures KidAt(nf', q, u, i) {
      HalvesKids(e, j, i);
      assert KidAt(nf, p, e, i + j + 1);
    }
  }

  ghost predicate InnerSplitPre(pg: seq<Page>, p: nat, q: nat, i: int, j: int) {
    && p < |pg| && q < |pg| && pg[p].Internal? && pg[p].parent < |pg| && 0 <= j < |pg[p].entries|
    && pg[pg[p].parent].Internal? && 0 <= i <= |pg[pg[p].parent].entries|
  }

  // Page x after internal node p is cut at its separator j, the upper half moving to page q.
  ghost function InnerSplitPage(pg: seq<Page>, p: nat, q: nat, i: int, j: int, x: nat): Page
    requires InnerSplitPre(pg, p, q, i, j) && x < |pg|
  {
    if x == pg[p].parent then SplitKid(pg[x], i, pg[p].entries[j].key, q)
    else if x == q then UpperHalf(pg[p], j)
    else if x == p then LowerHalf(pg[p], j)
    else if x in KidSet(UpperHalf(pg[p], j)) then SetParent(pg[x], q)
    else pg[x]
  }

  ghost function InnerSplitPages(pg: seq<Page>, p: nat, q: nat, i: int, j: int): (r: seq<Page>)
    requires InnerSplitPre(pg, p, q, i, j)
    ensures |r| == |pg| && forall x :: 0 <= x < |pg| ==> r[x] == InnerSplitPage(pg, p, q, i, j, x)
  {
    seq(|pg|, x requires 0 <= x < |pg| => InnerSplitPage(pg, p, q, i, j, x))
  }

  ghost predicate InnerSplittable(pg: seq<Page>, nf: Nodes, p: nat, q: nat, i: int, j: int) {
    && Shaped(pg, nf) && p in nf && p != nf[p].tree && pg[p].Internal?
    && Ok(pg, nf, p) && 0 <= i <= |pg[pg[p].parent].entries| && Kid(pg[pg[p].parent], i) == p
    && q !in nf && 0 < q < |pg| && 0 <= j < |pg[p].entries|
  }

  lemma InnerSplitSelf(pg: seq<Page>, nf: Nodes, p: nat, q: nat, i: int, j: int)
    requires InnerSplittable(pg, nf, p, q, i, j)
    ensures Ok(InnerSplitPages(pg, p, q, i, j), SplitNodes(nf, p, q, pg[p].entries[j].key), p)
    ensures Ok(InnerSplitPages(pg, p, q, i, j), SplitNodes(nf, p, q, pg[p].entries[j].key), q)
  {
    var P, m := pg[p].parent, pg[p].entries[j].key;
    forall x | 0 <= x <= |pg[p].entries| ensures Kid(pg[p], x) != p {
      KidInside(pg, nf, p, x);
    }
    KidInside(pg, nf, p, j);
    KidInside(pg, nf, p, j + 1);
    HalvesDown(nf, p, pg[p], q, j);
    SplitKidHas(pg[P], i, m, q, p);
  }

  lemma InnerSplitParent(pg: seq<Page>, nf: Nodes, p: nat, q: nat, i: int, j: int)
    requires InnerSplittable(pg, nf, p, q, i, j)
    ensures Ok(InnerSplitPages(pg, p, q, i, j), SplitNodes(nf, p, q, pg[p].entries[j].key), pg[p].parent)
  {
    var P, m := pg[p].parent, pg[p].entries[j].key;
    assert Ok(pg, nf, P);
    forall k | 0 <= k <= |pg[P].entries| && k != i ensures Kid(pg[P], k) != p {
      if Kid(pg[P], k) == p { KidOnce(pg, nf, P, i, k); }
    }
    SplitKidDown(nf, P, pg[P], i, m, q);
    NotMoved(pg, nf, p, j, P);
    if P != nf[P].tree {
      InnerSplitOtherUp(pg, nf, p, q, i, j, P);
    }
  }

  // A node as high as p is no child of p.
  lemma NotMoved(pg: seq<Page>, nf: Nodes, p: nat, j: int, x: nat)
    requires Shaped(pg, nf) && p in nf && pg[p].Internal? && 0 <= j < |pg[p].entries|
    requires x in nf && nf[x].height >= nf[p].height
    ensures x !in KidSet(UpperHalf(pg[p], j))
  {
    if x in KidSet(UpperHalf(pg[p], j)) {
      var k :| 0 <= k <= |UpperHalf(pg[p], j).entries| && Kid(UpperHalf(pg[p], j), k) == x;
      HalvesKids(pg[p], j, k);
      KidInside(pg, nf, p, k + j + 1);
    }
  }

  lemma InnerSplitOther(pg: seq<Page>, nf: Nodes, p: nat, q: nat, i: int, j: int, x: nat)
    requires InnerSplittable(pg, nf, p, q, i, j)
    requires x in nf && x != p && x != pg[p].parent
    ensures Ok(InnerSplitPages(pg, p, q, i, j), SplitNodes(nf, p, q, pg[p].entries[j].key), x)
  {
    var pg', nf' := InnerSplitPages(pg, p, q, i, j), SplitNodes(nf, p, q, pg[p].entries[j].key);
    assert Ok(pg, nf, x);
    if pg[x].Internal? {
      forall k {:trigger Kid(pg[x], k)} | 0 <= k <= |pg[x].entries| && Kid(pg[x], k) in nf
        ensures Kid(pg[x], k) in nf' && nf'[Kid(pg[x], k)] == nf[Kid(pg[x], k)]
      {
        KidParent(pg, nf, x, k);
      }
      InnerDownKept(nf, nf', x, pg[x], pg'[x]);
    }
    SplitKidHas(pg[pg[p].parent], i, pg[p].entries[j].key, q, x);
    if x != nf[x].tree {
      InnerSplitOtherUp(pg, nf, p, q, i, j, x);
    }
  }

  lemma InnerSplitOtherUp(pg: seq<Page>, nf: Nodes, p: nat, q: nat, i: int, j: int, x: nat)
    requires InnerSplittable(pg, nf, p, q, i, j)
    requires x in nf && x != p && x != nf[x].tree
    ensures Up(InnerSplitPages(pg, p, q, i, j), SplitNodes(nf, p, q, pg[p].entries[j].key), x)
  {
    assert Ok(pg, nf, x);
    var px := pg[x].parent;
    if x in KidSet(UpperHalf(pg[p], j)) {
      var k :| 0 <= k <= |UpperHalf(pg[p], j).entries| && Kid(UpperHalf(pg[p], j), k) == x;
      HalvesKids(pg[p], j, k);
      KidParent(pg, nf, p, k + j + 1);
      assert HasKid(UpperHalf(pg[p], j), x);
    } else if px == p {
      HalvesHave(pg[p], j, x);
    } else if px == pg[p].parent {
      SplitKidHas(pg[px], i, pg[p].entries[j].key, q, x);
    } else {
      SameKids(pg[px], SetParent(pg[px], q), x);
    }
  }

  lemma InnerSplitShaped(pg: seq<Page>, nf: Nodes, p: nat, q: nat, i: int, j: int)
    requires InnerSplittable(pg, nf, p, q, i, j)
    ensures Shaped(InnerSplitPages(pg, p, q, i, j), SplitNodes(nf, p, q, pg[p].entries[j].key))
  {
    var pg', nf' := InnerSplitPages(pg, p, q, i, j), SplitNodes(nf, p, q, pg[p].entries[j].key);
    forall x | x in nf' ensures Ok(pg', nf', x) {
      if x == p || x == q {
        InnerSplitSelf(pg, nf, p, q, i, j);
      } else if x == pg[p].parent {
        InnerSplitParent(pg, nf, p, q, i, j);
      } else {
        InnerSplitOther(pg, nf, p, q, i, j, x);
      }
    }
  }
}
