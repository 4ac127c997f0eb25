/** From one ranking of an index's keys to another: nothing about the index changes but the numbers that bound its
    pages. */
module IndexRerank {
  import opened Nodes
  import opened SearchTree
  import opened Cascade
  import opened PageTree
  import opened IndexOrder
  import opened IndexResults

  // ---------------------------------------------------------------- from one order to another

  /** Both orders put the tree's keys in the same sequence. */
  ghost predicate SameOrder(V: map<Page, Node>, sh: Shape, o: Order, o': Order) {
    && !o.Natural? && !o'.Natural?
    && forall j, k {:trigger HasKey(V, sh, j), HasKey(V, sh, k)} :: HasKey(V, sh, j) && HasKey(V, sh, k) ==>
         (Ord(o, j) < Ord(o, k) <==> Ord(o', j) < Ord(o', k))
  }

  /** Every rank has room on both sides. */
  ghost predicate Roomy(V: map<Page, Node>, sh: Shape, o': Order, lo: int, hi: int) {
    && (forall k {:trigger HasKey(V, sh, k)} :: HasKey(V, sh, k) ==> lo < Ord(o', k) && Ord(o', k) + 1 < hi)
    && (forall j, k {:trigger HasKey(V, sh, j), HasKey(V, sh, k)} ::
         HasKey(V, sh, j) && HasKey(V, sh, k) && Ord(o', j) < Ord(o', k) ==>
          Ord(o', j) + 1 < Ord(o', k))
  }

  /** No page but the root is empty. */
  ghost predicate Filled(V: map<Page, Node>, sh: Shape, root: Page) {
    forall p {:trigger V[p]} :: p in sh && p in V && p != root ==> V[p].cells != []
  }

  ghost predicate Inside(V: map<Page, Node>, sh: Shape, o': Order, lo: int, hi: int) {
    lo < hi && forall k {:trigger HasKey(V, sh, k)} :: HasKey(V, sh, k) ==> lo <= Ord(o', k) < hi
  }

  ghost predicate Rerankable(V: map<Page, Node>, sh: Shape, root: Page, o: Order, o': Order, lo: int, hi: int) {
    && Tree(o, V, sh, root) && SameOrder(V, sh, o, o') && Inside(V, sh, o', lo, hi)
    && (Filled(V, sh, root) || Roomy(V, sh, o', lo, hi))
  }

  /** The new number for a lower bound: behind the same separator, or the root's. */
  ghost function LoIn(V: map<Page, Node>, sh: Shape, o: Order, o': Order, lo: int, b: int): int {
    if exists k {:trigger HasKey(V, sh, k)} :: HasKey(V, sh, k) && Ord(o, k) + 1 == b then
      var k :| HasKey(V, sh, k) && Ord(o, k) + 1 == b;
      Ord(o', k) + 1
    else lo
  }

  /** The new number for an upper bound: the same separator's, or the root's. */
  ghost function HiIn(V: map<Page, Node>, sh: Shape, o: Order, o': Order, hi: int, b: int): int {
    if exists k {:trigger HasKey(V, sh, k)} :: HasKey(V, sh, k) && Ord(o, k) == b then
      var k :| HasKey(V, sh, k) && Ord(o, k) == b;
      Ord(o', k)
    else hi
  }

  ghost function Reranked(V: map<Page, Node>, sh: Shape, o: Order, o': Order, lo: int, hi: int): Shape {
    map p | p in sh :: Info(LoIn(V, sh, o, o', lo, sh[p].lo), HiIn(V, sh, o, o', hi, sh[p].hi), sh[p].rank, sh[p].par)
  }

  /** Bounds stay where they were among the keys. */
  lemma LoAmong(V: map<Page, Node>, sh: Shape, root: Page, o: Order, o': Order, lo: int, hi: int, b: int, k: Key)
    requires Rerankable(V, sh, root, o, o', lo, hi) && HasKey(V, sh, k)
    ensures b <= Ord(o, k) ==> LoIn(V, sh, o, o', lo, b) <= Ord(o', k)
    ensures b == Ord(o, k) + 1 ==> LoIn(V, sh, o, o', lo, b) == Ord(o', k) + 1
    ensures lo <= LoIn(V, sh, o, o', lo, b)
  {
    if j :| HasKey(V, sh, j) && Ord(o, j) + 1 == b { RankIsKey(o, V, sh, root, j, k); }
    forall j | HasKey(V, sh, j) && Ord(o, j) == Ord(o, k) ensures j == k { RankIsKey(o, V, sh, root, j, k); }
    hide Tree, HasKey;
  }

  lemma HiAmong(V: map<Page, Node>, sh: Shape, root: Page, o: Order, o': Order, lo: int, hi: int, b: int, k: Key)
    requires Rerankable(V, sh, root, o, o', lo, hi) && HasKey(V, sh, k)
    ensures Ord(o, k) < b ==> Ord(o', k) < HiIn(V, sh, o, o', hi, b)
    ensures b == Ord(o, k) ==> HiIn(V, sh, o, o', hi, b) == Ord(o', k)
  {
    forall j | HasKey(V, sh, j) && Ord(o, j) == Ord(o, k) ensures j == k { RankIsKey(o, V, sh, root, j, k); }
    hide Tree, HasKey;
  }

  lemma BoundsIn(V: map<Page, Node>, sh: Shape, root: Page, o: Order, o': Order, lo: int, hi: int, b: int)
    requires Rerankable(V, sh, root, o, o', lo, hi)
    ensures lo <= LoIn(V, sh, o, o', lo, b) && HiIn(V, sh, o, o', hi, b) <= hi
    ensures root in sh && LoIn(V, sh, o, o', lo, sh[root].lo) == lo && HiIn(V, sh, o, o', hi, sh[root].hi) == hi
  {
    forall k | HasKey(V, sh, k) ensures sh[root].lo <= Ord(o, k) < sh[root].hi { RankIsKey(o, V, sh, root, k, k); }
    hide Tree, HasKey;
  }

  /** No page's span closes. */
  lemma SpanStays(V: map<Page, Node>, sh: Shape, root: Page, o: Order, o': Order, lo: int, hi: int, p: Page)
    requires Rerankable(V, sh, root, o, o', lo, hi) && p in sh
    ensures LoIn(V, sh, o, o', lo, sh[p].lo) < HiIn(V, sh, o, o', hi, sh[p].hi)
  {
    assert Local(o, V, sh, root, p);
    BoundsIn(V, sh, root, o, o', lo, hi, 0);
    if p != root {
      if V[p].cells != [] {
        assert sh[p].lo <= K(o, V[p], 0) < sh[p].hi;
        CellKey(V, sh, p, 0);
        LoAmong(V, sh, root, o, o', lo, hi, sh[p].lo, V[p].cells[0].key);
        HiAmong(V, sh, root, o, o', lo, hi, sh[p].hi, V[p].cells[0].key);
      } else {
        EmptySpan(V, sh, root, o, o', lo, hi, sh[p].lo, sh[p].hi);
      }
    }
  }

  lemma EmptySpan(V: map<Page, Node>, sh: Shape, root: Page, o: Order, o': Order, lo: int, hi: int, b: int, c: int)
    requires Rerankable(V, sh, root, o, o', lo, hi) && Roomy(V, sh, o', lo, hi) && b < c
    ensures LoIn(V, sh, o, o', lo, b) < HiIn(V, sh, o, o', hi, c)
  {
    hide Tree, HasKey, Filled;
  }

  lemma CellKey(V: map<Page, Node>, sh: Shape, p: Page, i: nat)
    requires p in sh && p in V && i < |V[p].cells|
    ensures HasKey(V, sh, V[p].cells[i].key)
  {
    assert KeyIn(V[p], V[p].cells[i].key);
    assert HoldsKey(V, sh, p, V[p].cells[i].key);
  }

  lemma CellRank(V: map<Page, Node>, sh: Shape, root: Page, o: Order, o': Order, lo: int, hi: int, p: Page, i: nat)
    requires Rerankable(V, sh, root, o, o', lo, hi) && p in sh && p in V && i < |V[p].cells|
      && sh[p].lo <= K(o, V[p], i) < sh[p].hi
    ensures LoIn(V, sh, o, o', lo, sh[p].lo) <= K(o', V[p], i) < HiIn(V, sh, o, o', hi, sh[p].hi)
    ensures LoIn(V, sh, o, o', lo, K(o, V[p], i) + 1) == K(o', V[p], i) + 1
    ensures HiIn(V, sh, o, o', hi, K(o, V[p], i)) == K(o', V[p], i)
  {
    var k := V[p].cells[i].key;
    CellKey(V, sh, p, i);
    hide *;
    CellK(o, V[p], i);
    CellK(o', V[p], i);
    LoAmong(V, sh, root, o, o', lo, hi, sh[p].lo, k);
    HiAmong(V, sh, root, o, o', lo, hi, sh[p].hi, k);
    LoAmong(V, sh, root, o, o', lo, hi, Ord(o, k) + 1, k);
    HiAmong(V, sh, root, o, o', lo, hi, Ord(o, k), k);
  }

  lemma CellK(o: Order, n: Node, i: nat)
    requires i < |n.cells|
    ensures K(o, n, i) == Ord(o, n.cells[i].key)
  {}

  lemma SortedAgain(V: map<Page, Node>, sh: Shape, o: Order, o': Order, p: Page)
    requires SameOrder(V, sh, o, o') && p in sh && p in V && Sorted(o, V[p])
    ensures Sorted(o', V[p])
  {
    forall i, j | 0 <= i < j < |V[p].cells| ensures K(o', V[p], i) < K(o', V[p], j) {
      CellKey(V, sh, p, i);
      CellKey(V, sh, p, j);
      assert K(o, V[p], i) < K(o, V[p], j);
    }
  }

  lemma KidAgain(V: map<Page, Node>, sh: Shape, root: Page, o: Order, o': Order, lo: int, hi: int, p: Page, i: nat)
    requires Rerankable(V, sh, root, o, o', lo, hi) && p in sh && root in sh && p in V && Local(o, V, sh, root, p)
      && !IsLeaf(V[p]) && i <= |V[p].cells|
    requires !o.Natural? && !o'.Natural?
    ensures p in Reranked(V, sh, o, o', lo, hi) && |V[p].kids| == |V[p].cells| + 1
      && KidOk(o', V[p], p, Reranked(V, sh, o, o', lo, hi), i)
  {
    hide *;
    var n := V[p];
    KidFacts(o, V, sh, root, p, i);
    if i > 0 { CellRank(V, sh, root, o, o', lo, hi, p, i - 1); }
    if i < |n.cells| { CellRank(V, sh, root, o, o', lo, hi, p, i); }
    RerankedAt(V, sh, o, o', lo, hi, p);
    RerankedAt(V, sh, o, o', lo, hi, n.kids[i]);
    KidNow(o', n, p, Reranked(V, sh, o, o', lo, hi), i);
  }

  lemma KidFacts(o: Order, V: map<Page, Node>, sh: Shape, root: Page, p: Page, i: nat)
    requires p in sh && root in sh && Local(o, V, sh, root, p) && !IsLeaf(V[p]) && i <= |V[p].cells| && !o.Natural?
    ensures var n := V[p];
      && |n.kids| == |n.cells| + 1 && n.kids[i] in sh && sh[n.kids[i]].rank < sh[p].rank && sh[n.kids[i]].par == p
      && sh[n.kids[i]].lo == (if i == 0 then sh[p].lo else K(o, n, i - 1) + 1)
      && sh[n.kids[i]].hi == (if i == |n.cells| then sh[p].hi else K(o, n, i))
      && (i > 0 ==> sh[p].lo <= K(o, n, i - 1) < sh[p].hi) && (i < |n.cells| ==> sh[p].lo <= K(o, n, i) < sh[p].hi)
  {
    assert KidOk(o, V[p], p, sh, i);
  }

  lemma KidNow(o: Order, n: Node, p: Page, sh: Shape, i: nat)
    requires p in sh && i <= |n.cells| && |n.kids| == |n.cells| + 1 && !o.Natural?
    requires n.kids[i] in sh && sh[n.kids[i]].rank < sh[p].rank && sh[n.kids[i]].par == p
    requires sh[n.kids[i]].lo == if i == 0 then sh[p].lo else K(o, n, i - 1) + 1
    requires sh[n.kids[i]].hi == if i == |n.cells| then sh[p].hi else K(o, n, i)
    ensures KidOk(o, n, p, sh, i)
  {}

  lemma RerankedAt(V: map<Page, Node>, sh: Shape, o: Order, o': Order, lo: int, hi: int, p: Page)
    requires p in sh
    ensures var sh' := Reranked(V, sh, o, o', lo, hi);
      p in sh' && sh'[p] == Info(LoIn(V, sh, o, o', lo, sh[p].lo), HiIn(V, sh, o, o', hi, sh[p].hi), sh[p].rank,
        sh[p].par)
  {
    hide LoIn, HiIn;
  }

  lemma LocalAgain(V: map<Page, Node>, sh: Shape, root: Page, o: Order, o': Order, lo: int, hi: int, p: Page)
    requires Rerankable(V, sh, root, o, o', lo, hi) && p in sh && root in sh
    ensures Local(o', V, Reranked(V, sh, o, o', lo, hi), root, p)
  {
    hide *;
    var sh' := Reranked(V, sh, o, o', lo, hi);
    PageFacts(V, sh, root, o, o', lo, hi, p);
    WithinAgain(V, sh, root, o, o', lo, hi, p);
    SortedAgain(V, sh, o, o', p);
    RerankedAt(V, sh, o, o', lo, hi, p);
    RerankedAt(V, sh, o, o', lo, hi, root);
    if !IsLeaf(V[p]) {
      forall i | 0 <= i <= |V[p].cells|
        ensures KidOk(o', V[p], p, sh', i)
      {
        KidAgain(V, sh, root, o, o', lo, hi, p, i);
      }
    }
    LinkedAgain(V, sh, root, o, o', lo, hi, p);
    LocalNow(o', V, sh', root, p);
  }

  lemma PageFacts(V: map<Page, Node>, sh: Shape, root: Page, o: Order, o': Order, lo: int, hi: int, p: Page)
    requires Rerankable(V, sh, root, o, o', lo, hi) && p in sh && root in sh
    ensures p in V && Local(o, V, sh, root, p) && Sorted(o, V[p]) && SameOrder(V, sh, o, o') && !o.Natural?
      && !o'.Natural?
    ensures KindOk(o', V[p]) && (!IsLeaf(V[p]) ==> |V[p].kids| == |V[p].cells| + 1) && Linked(V, sh, root, p)
    ensures Within(o, V[p], sh[p].lo, sh[p].hi)
  {
    assert Local(o, V, sh, root, p);
    hide Sorted, KidsOk, Within, Linked;
  }

  lemma WithinAgain(V: map<Page, Node>, sh: Shape, root: Page, o: Order, o': Order, lo: int, hi: int, p: Page)
    requires Rerankable(V, sh, root, o, o', lo, hi) && p in sh && p in V && Within(o, V[p], sh[p].lo, sh[p].hi)
    ensures Within(o', V[p], LoIn(V, sh, o, o', lo, sh[p].lo), HiIn(V, sh, o, o', hi, sh[p].hi))
  {
    SpanStays(V, sh, root, o, o', lo, hi, p);
    hide Rerankable, LoIn, HiIn;
    forall i | 0 <= i < |V[p].cells|
      ensures LoIn(V, sh, o, o', lo, sh[p].lo) <= K(o', V[p], i) < HiIn(V, sh, o, o', hi, sh[p].hi)
    {
      assert sh[p].lo <= K(o, V[p], i) < sh[p].hi;
      CellRank(V, sh, root, o, o', lo, hi, p, i);
    }
  }

  lemma LinkedAgain(V: map<Page, Node>, sh: Shape, root: Page, o: Order, o': Order, lo: int, hi: int, p: Page)
    requires Rerankable(V, sh, root, o, o', lo, hi) && p in sh && root in sh && Linked(V, sh, root, p)
    ensures var sh' := Reranked(V, sh, o, o', lo, hi); p in sh' && root in sh' && Linked(V, sh', root, p)
  {
    BoundsIn(V, sh, root, o, o', lo, hi, sh[p].lo);
    BoundsIn(V, sh, root, o, o', lo, hi, sh[p].hi);
    hide Rerankable, LoIn, HiIn;
  }

  lemma LocalNow(o: Order, V: map<Page, Node>, sh: Shape, root: Page, p: Page)
    requires p in sh && root in sh && p in V && KindOk(o, V[p]) && Sorted(o, V[p])
      && Within(o, V[p], sh[p].lo, sh[p].hi)
    requires !IsLeaf(V[p]) ==> |V[p].kids| == |V[p].cells| + 1 && forall i {:trigger KidOk(o, V[p], p, sh, i)} ::
      0 <= i <= |V[p].cells| ==> KidOk(o, V[p], p, sh, i)
    requires Linked(V, sh, root, p)
    ensures Local(o, V, sh, root, p)
  {
    hide Linked, Within, Sorted, KidOk;
  }

  /** If the new order puts the tree's keys in the same sequence as the old one, the same pages are a search tree in it:
      with the same heights and the same parents, and with any root span that holds its keys. */
  lemma RerankKeepsTree(V: map<Page, Node>, sh: Shape, root: Page, o: Order, o': Order, lo: int, hi: int)
    returns (sh': Shape)
    requires Rerankable(V, sh, root, o, o', lo, hi)
    ensures Tree(o', V, sh', root) && root in sh' && sh'[root].lo == lo && sh'[root].hi == hi
    ensures sh'.Keys == sh.Keys && forall p {:trigger sh'[p]} :: p in sh' ==>
      sh'[p].rank == sh[p].rank && sh'[p].par == sh[p].par
    ensures WellParented(V, sh', root) <==> WellParented(V, sh, root)
    ensures LegalBut(V, sh', {}) <==> LegalBut(V, sh, {})
    ensures forall k {:trigger HasKey(V, sh', k)} {:trigger HasKey(V, sh, k)} :: HasKey(V, sh', k) <==> HasKey(V, sh, k)
  {
    sh' := Reranked(V, sh, o, o', lo, hi);
    forall p | p in sh' ensures Local(o', V, sh', root, p) { LocalAgain(V, sh, root, o, o', lo, hi, p); }
    BoundsIn(V, sh, root, o, o', lo, hi, 0);
    forall k ensures HasKey(V, sh', k) <==> HasKey(V, sh, k) { KeysOf(V, sh, sh', k); }
    SameParents(V, sh, sh', root);
  }

  lemma KeysOf(V: map<Page, Node>, sh: Shape, sh': Shape, k: Key)
    requires sh'.Keys == sh.Keys
    ensures HasKey(V, sh', k) <==> HasKey(V, sh, k)
  {
    hide KeyIn;
    if p :| HoldsKey(V, sh', p, k) { assert HoldsKey(V, sh, p, k); }
    if p :| HoldsKey(V, sh, p, k) { assert HoldsKey(V, sh', p, k); }
  }

  lemma SameParents(V: map<Page, Node>, sh: Shape, sh': Shape, root: Page)
    requires sh'.Keys == sh.Keys && forall p {:trigger sh'[p]} {:trigger sh[p]} :: p in sh' ==>
      sh'[p].rank == sh[p].rank && sh'[p].par == sh[p].par
    ensures WellParented(V, sh', root) <==> WellParented(V, sh, root)
    ensures LegalBut(V, sh', {}) <==> LegalBut(V, sh, {})
  {
    hide LegalNode;
    assert forall p {:trigger sh[p]} :: p in sh ==> sh'[p] == sh'[p];
  }

  /** Nor does the sequence of its keys change. */
  lemma RerankKeepsOrder(V: map<Page, Node>, sh: Shape, root: Page, o: Order, o': Order, lo: int, hi: int, sh': Shape)
    requires Rerankable(V, sh, root, o, o', lo, hi)
    requires Tree(o', V, sh', root) && root in sh' && sh'[root].lo == lo && sh'[root].hi == hi
    requires forall k {:trigger HasKey(V, sh', k)} {:trigger HasKey(V, sh, k)} :: HasKey(V, sh', k) <==>
      HasKey(V, sh, k)
    ensures root in sh && InOrder(o', V, sh', root, root) == InOrder(o, V, sh, root, root)
  {
    hide *;
    RootIn(V, sh, root, o, o', lo, hi);
    var was, now := InOrder(o, V, sh, root, root), InOrder(o', V, sh', root, root);
    InOrderClimbs(o, V, sh, root, root);
    InOrderClimbs(o', V, sh', root, root);
    forall k ensures (k in was <==> HasKey(V, sh, k)) && (k in now <==> HasKey(V, sh, k)) {
      InOrderLists(o, V, sh, root, root, k);
      InOrderLists(o', V, sh', root, root, k);
      SpanIs(o, sh, root, Ord(o, k));
      SpanIs(o', sh', root, Ord(o', k));
      if HasKey(V, sh, k) {
        RankIsKey(o, V, sh, root, k, k);
        RankIsKey(o', V, sh', root, k, k);
      }
    }
    ByOtherRank(V, sh, o, o', was, sh[root].lo, sh[root].hi, lo, hi);
    MembersAre(now, was);
    SameByRank(o', now, was, lo, hi);
  }

  lemma RootIn(V: map<Page, Node>, sh: Shape, root: Page, o: Order, o': Order, lo: int, hi: int)
    requires Rerankable(V, sh, root, o, o', lo, hi)
    ensures root in sh && Tree(o, V, sh, root) && SameOrder(V, sh, o, o') && Inside(V, sh, o', lo, hi) && !o.Natural?
      && !o'.Natural?
  {}

  lemma ByOtherRank(V: map<Page, Node>, sh: Shape, o: Order, o': Order, keys: seq<Key>, a: int, b: int, lo: int,
                    hi: int)
    requires ByRank(o, keys, a, b) && SameOrder(V, sh, o, o') && Inside(V, sh, o', lo, hi)
    requires forall k :: k in keys ==> HasKey(V, sh, k)
    ensures ByRank(o', keys, lo, hi)
  {
    hide HasKey, Ord;
    forall i | 0 <= i < |keys| ensures HasKey(V, sh, keys[i]) { assert keys[i] in keys; }
  }
}
