/** What a leaf insert owes to the tree around it, whichever order the tree is in: the leaf with its new cell,
    and if it must be cut, the halves, the separator that goes up, and the stored parents. */
module LeafInsert {
  import opened Nodes
  import opened Codec
  import opened MemNodes
  import opened Disk
  import opened SearchTree
  import opened Cascade
  import opened PageTree

  /** The pages that the leaf's new contents are written to can hold them. */
  ghost predicate CanHold(m: Node, l: Page, root: Page) {
    if |m.cells| < ORDER then Fits(m, Cap(l))
    else Saturated(m) && Fits(SplitRight(m), PAGE_SIZE)
         && forall q: Page {:trigger SplitLeft(m, q)} :: q < PAGE_LIMIT ==>
              Fits(SplitLeft(m, q), if l == root then PAGE_SIZE else Cap(l))
  }

  /** What a leaf insert starts from: the tree with the row in place at `l`. */
  ghost predicate Placed(o: Order, n0: map<Page, Node>, live0: set<Page>, sh: Shape, root: Page, l: Page, m: Node) {
    && l in sh && l in n0 && n0[l].kind == m.kind && IsLeaf(m) && KindOk(o, m)
    && |m.cells| == |n0[l].cells| + 1 <= ORDER
    && m.parent == n0[l].parent && sh.Keys <= n0.Keys <= live0 && root in sh && root in n0
    && n0[root].parent == NO_PAGE && LegalBut(n0, sh, {}) && Tree(o, n0[l := m], sh, root)
    && ShortKeys(m)
  }

  /** Once `m'` is written at `page` the insert is done. */
  ghost predicate LeafSettled(o: Order, n0: map<Page, Node>, live0: set<Page>, sh: Shape, n1: map<Page, Node>,
                              page: Page, m': Node, sh': Shape, root: Page, l: Page, m: Node, lp: Page, q: Page)
  {
    && page in n1 && Fits(m', Cap(page))
    && LeafDone(o, n0, live0, sh, n1[page := m'], sh', root, l, m, lp, q)
  }

  /** The parent of `l` has no room for one more separator. */
  ghost predicate ParentFull(n0: map<Page, Node>, sh: Shape, l: Page) {
    l in sh && sh[l].par in n0 && |n0[sh[l].par].cells| == ORDER - 1
  }

  /** How far above the leaf's stored parent the root is. */
  ghost function Climb(n0: map<Page, Node>, sh: Shape, root: Page, l: Page): nat {
    if l in n0 && n0[l].parent in sh && root in sh && sh[n0[l].parent].rank <= sh[root].rank
    then sh[root].rank - sh[n0[l].parent].rank else 0
  }

  lemma PlacedFacts(o: Order, n0: map<Page, Node>, live0: set<Page>, sh: Shape, root: Page, l: Page, m: Node)
    requires Placed(o, n0, live0, sh, root, l, m)
    ensures (if o.Natural? then m.kind == TableLeaf else m.kind == IndexLeaf) && IsLeaf(m) && root in sh && l in sh
      && l in n0 && root in n0 && (l == root ==> m.parent == NO_PAGE)
    ensures n0.Keys <= live0
  {}

  lemma HalfFits(m: Node, l: Page, root: Page)
    requires CanHold(m, l, root) && |m.cells| == ORDER
    ensures Fits(SplitRight(m), PAGE_SIZE)
    ensures forall q: Page {:trigger SplitLeft(m, q)} :: q < PAGE_LIMIT ==>
      Fits(SplitLeft(m, q), if l == root then PAGE_SIZE else Cap(l))
  {}

  lemma LeafRaise(o: Order, n0: map<Page, Node>, live0: set<Page>, sh: Shape, root: Page, l: Page, q: Page, m: Node)
    returns (a: Page, pos: nat, s2: Shape)
    requires Placed(o, n0, live0, sh, root, l, m) && |m.cells| == ORDER && l != root
      && Upward(o, n0, sh, root, l, m.parent)
    requires q !in live0 && q < PAGE_LIMIT
    ensures Saturated(m) && a == m.parent
    ensures a in sh && SplitReady(o, n0[l := m], sh, root, l, a, pos, q, LeafSpine(sh, root, l, a))
    ensures s2 == NewShape(o, n0[l := m], sh, l, a, q, LeafSpine(sh, root, l, a))
    ensures CanInsert(o, n0[q := SplitRight(m)], a, SplitKey(m), q, root, s2, pos, map[l := SplitLeft(m, q)])
    ensures WithKid(o, n0[q := SplitRight(m)], a, SplitKey(m), q, pos, map[l := SplitLeft(m, q)])
      == AfterSplit(n0[l := m], l, a, pos, q)
    ensures Growth(s2, root, a, n0[q := SplitRight(m)][a]) <= Climb(n0, sh, root, l) + 2
    ensures Growth(s2, root, a, n0[q := SplitRight(m)][a]) == 0 <==> |n0[a].cells| < ORDER - 1
  {
    hide *;
    a := m.parent;
    var W := n0[l := m];
    RaiseFrom(o, n0, live0, sh, root, l, q, m);
    pos := LeafCut(o, W, sh, root, l, a, q);
    LeafCutStep(o, W, sh, root, l, a, pos, q);
    s2 := NewShape(o, W, sh, l, a, q, LeafSpine(sh, root, l, a));
    RaisedRanks(o, W, sh, root, l, a, pos, q, s2);
    RaisedPlace(o, W, a, pos, SplitKey(m));
    LeafCanInsert(o, n0, l, a, q, pos, m, s2, SplitLeft(m, q), AfterSplit(W, l, a, pos, q), root);
    RaisedGrowth(n0, sh, root, l, a, q, m, s2);
  }

  lemma RaiseFrom(o: Order, n0: map<Page, Node>, live0: set<Page>, sh: Shape, root: Page, l: Page, q: Page, m: Node)
    requires Placed(o, n0, live0, sh, root, l, m) && |m.cells| == ORDER && l != root
      && Upward(o, n0, sh, root, l, m.parent) && q !in live0
    ensures var W, a := n0[l := m], m.parent;
      && Tree(o, W, sh, root) && Upward(o, W, sh, root, l, a) && IsLeaf(W[l]) && LegalBut(W, sh, {l}) && q !in sh
      && q !in W
      && a in sh && a in n0 && root in sh && a != l && n0[l].parent == a && l in sh && l in n0
      && sh[a].rank <= sh[root].rank
      && W[l] == m && ShortKeys(m) && W[a] == n0[a]
  {
    var W, a := n0[l := m], m.parent;
    assert Local(o, W, sh, root, a) && Local(o, W, sh, root, l);
    RaiseApart(o, W, sh, root, l, a);
    hide Tree, KidsOk, Sorted, Within, KindOk;
  }

  lemma RaiseApart(o: Order, W: map<Page, Node>, sh: Shape, root: Page, l: Page, a: Page)
    requires Tree(o, W, sh, root) && l in sh && a in sh && l != root && (a == sh[l].par || a == root)
    ensures a != l
  {
    assert Local(o, W, sh, root, l);
    if a != root { var i := ParentSlot(o, W, sh, root, l); }
  }

  lemma RaisedRanks(o: Order, W: map<Page, Node>, sh: Shape, root: Page, l: Page, a: Page, pos: nat, q: Page, s2: Shape)
    requires l in sh && root in sh && a in sh && l in W && Saturated(W[l]) && sh[a].rank <= sh[root].rank
    requires SplitReady(o, W, sh, root, l, a, pos, q, LeafSpine(sh, root, l, a))
      && s2 == NewShape(o, W, sh, l, a, q, LeafSpine(sh, root, l, a))
    ensures a in s2 && l in s2 && root in s2 && s2[l].rank < s2[a].rank <= s2[root].rank
    ensures s2[a].rank == sh[a].rank && s2[root].rank == sh[root].rank
  {
    hide Tree, SpineOk, LeafSpine, Moved, SplitKey;
  }

  lemma RaisedPlace(o: Order, W: map<Page, Node>, a: Page, pos: nat, key: Key)
    requires a in W && KindOk(o, W[a]) && !IsLeaf(W[a]) && PosFor(o, W[a], pos, key)
    ensures pos <= |W[a].cells| && |W[a].kids| == |W[a].cells| + 1
  {}

  lemma RaisedGrowth(n0: map<Page, Node>, sh: Shape, root: Page, l: Page, a: Page, q: Page, m: Node, s2: Shape)
    requires Saturated(m) && l in n0 && a in n0 && a in sh && root in sh && n0[l].parent == a
      && sh[a].rank <= sh[root].rank && q !in n0
    requires a in s2 && root in s2 && s2[a].rank == sh[a].rank && s2[root].rank == sh[root].rank
    ensures a in n0[q := SplitRight(m)]
    ensures Growth(s2, root, a, n0[q := SplitRight(m)][a]) <= Climb(n0, sh, root, l) + 2
    ensures Growth(s2, root, a, n0[q := SplitRight(m)][a]) == 0 <==> |n0[a].cells| < ORDER - 1
  {
    hide SplitRight;
  }

  lemma LeafCanInsert(o: Order, n0: map<Page, Node>, l: Page, a: Page, q: Page, pos: nat, m: Node, s2: Shape,
                      left: Node, X: map<Page, Node>, root: Page)
    requires Saturated(m) && l in n0 && a in n0 && a != l && q !in n0 && left == SplitLeft(m, q) && ShortKeys(m)
      && q < PAGE_LIMIT
    requires KindOk(o, n0[a]) && !IsLeaf(n0[a]) && |n0[a].cells| < ORDER && PosFor(o, n0[a], pos, SplitKey(m))
    requires X == AfterSplit(n0[l := m], l, a, pos, q) && Ready(o, X, s2, root, a)
    requires a in s2 && l in s2 && s2[l].rank < s2[a].rank <= s2[root].rank && root in s2
    ensures CanInsert(o, n0[q := SplitRight(m)], a, SplitKey(m), q, root, s2, pos, map[l := left])
    ensures WithKid(o, n0[q := SplitRight(m)], a, SplitKey(m), q, pos, map[l := left]) == X
  {
    var n1 := n0[q := SplitRight(m)];
    hide Ready, SplitLeft, SplitRight;
    assert KidPlace(o, n1[a], pos, SplitKey(m));
    assert WithKid(o, n1, a, SplitKey(m), q, pos, map[l := left]) == X;
  }

  lemma LeafLowered(o: Order, n0: map<Page, Node>, live0: set<Page>, sh: Shape, root: Page, l: Page, a: Page, pos: nat,
                    q: Page, m: Node, s2: Shape, n1: map<Page, Node>, n2: map<Page, Node>, s': Shape)
    requires Placed(o, n0, live0, sh, root, l, m) && |m.cells| == ORDER && l != root
      && Upward(o, n0, sh, root, l, m.parent)
    requires Saturated(m) && a == m.parent && q !in live0 && q < PAGE_LIMIT && CanHold(m, l, root)
    requires SplitReady(o, n0[l := m], sh, root, l, a, pos, q, LeafSpine(sh, root, l, a))
    requires s2 == NewShape(o, n0[l := m], sh, l, a, q, LeafSpine(sh, root, l, a)) && n1 == n0[q := SplitRight(m)]
    requires Grown(o, AfterSplit(n0[l := m], l, a, pos, q), s2, n2 + map[l := SplitLeft(m, q)], s', root, a)
    requires Framed(n1, live0 + {q}, n2, s2, s')
    ensures LeafSettled(o, n0, live0, sh, n2, l, SplitLeft(m, q), s', root, l, m, l, q)
    ensures WellParented(n0, sh, root) ==>
      (WellParented(n2[l := SplitLeft(m, q)], s', root) <==> !ParentFull(n0, sh, l))
  {
    var W, left, T := n0[l := m], SplitLeft(m, q), LeafSpine(sh, root, l, a);
    var X, n3 := AfterSplit(W, l, a, pos, q), n2[l := left];
    LeafCutHasDone(o, n0, sh, root, l, a, pos, q, m);
    assert Fits(left, Cap(l)) && l in n2;
    MergeOne(n2, l, left);
    hide Tree, SplitReady, Fits, SplitLeft, SplitRight, NewShape, AfterSplit, LeafCutDone, Grown, Framed, LeafDone,
      WellParented, ParentFull;
    LeafDoneBelow(o, n0, live0, sh, X, s2, root, l, a, q, m, n2, s');
    if WellParented(n0, sh, root) {
      LeafParents(o, n0, live0, sh, root, l, a, pos, q, m, s2, n3, s');
    }
  }

  lemma MergeOne(n: map<Page, Node>, l: Page, left: Node)
    ensures n[l := left] == n + map[l := left]
  {}

  lemma LeafParents(o: Order, n0: map<Page, Node>, live0: set<Page>, sh: Shape, root: Page, l: Page, a: Page, pos: nat,
                    q: Page, m: Node, s2: Shape, n3: map<Page, Node>, s': Shape)
    requires Placed(o, n0, live0, sh, root, l, m) && |m.cells| == ORDER && l != root && a == m.parent && Saturated(m)
    requires SplitReady(o, n0[l := m], sh, root, l, a, pos, q, LeafSpine(sh, root, l, a))
    requires s2 == NewShape(o, n0[l := m], sh, l, a, q, LeafSpine(sh, root, l, a))
    requires Grown(o, AfterSplit(n0[l := m], l, a, pos, q), s2, n3, s', root, a)
    requires WellParented(n0, sh, root)
    ensures WellParented(n3, s', root) <==> !ParentFull(n0, sh, l)
  {
    var W := n0[l := m];
    assert WellParented(W, sh, root);
    assert a == sh[l].par by { assert sh[l].rank >= 0; }
    SplitKeepsTree(o, W, sh, root, l, a, pos, q, LeafSpine(sh, root, l, a));
    assert |AfterSplit(W, l, a, pos, q)[a].cells| == |n0[a].cells| + 1;
    assert LegalNode(n0[a]) by { assert sh[a].rank >= 0; }
    hide Tree, SplitReady, NewShape, AfterSplit, Placed, WellParented;
    if |n0[a].cells| < ORDER - 1 {
      CutKeepsParents(o, W, sh, root, l, a, pos, q);
    } else {
      StaleIsNotParented(o, W, sh, root, l, a, pos, q, n3, s');
    }
  }

  lemma LeafOnly(n: Node)
    ensures n.kind == TableLeaf ==> IsLeaf(n)
  {}

  lemma RootLeafHalvedNow(o: Order, n0: map<Page, Node>, live0: set<Page>, sh: Shape, root: Page, q: Page, home: Page,
                          m: Node, n2: map<Page, Node>)
    requires Placed(o, n0, live0, sh, root, root, m) && |m.cells| == ORDER && Saturated(m)
    requires q !in live0 && home !in live0 + {q} && home != 0 && q < PAGE_LIMIT && root < PAGE_LIMIT
    requires n2 == Rehome(o, n0[q := SplitRight(m)], root, home, SplitLeft(m, q), q)
    ensures RootLeafHalved(o, n0, live0, sh, root, q, home, m, n2)
  {}

  ghost predicate RootLeafHalved(o: Order, n0: map<Page, Node>, live0: set<Page>, sh: Shape, root: Page, q: Page,
                                 home: Page, m: Node, n2: map<Page, Node>)
  {
    && Placed(o, n0, live0, sh, root, root, m) && |m.cells| == ORDER && Saturated(m)
    && q !in live0 && home !in live0 && q != home && home != 0 && q < PAGE_LIMIT && root < PAGE_LIMIT
    && n2 == Rehome(o, n0[q := SplitRight(m)], root, home, SplitLeft(m, q), q)
  }

  lemma RootLeafRaise(o: Order, n0: map<Page, Node>, live0: set<Page>, sh: Shape, root: Page, q: Page, home: Page,
                      m: Node, n2: map<Page, Node>)
    returns (s2: Shape)
    requires RootLeafHalved(o, n0, live0, sh, root, q, home, m, n2)
    ensures CanInsert(o, n2, root, SplitKey(m), q, root, s2, 0, map[home := SplitLeft(m, q).(parent := root)])
    ensures WithKid(o, n2, root, SplitKey(m), q, 0, map[home := SplitLeft(m, q).(parent := root)])
      == LeafRootGraph(o, n0, root, q, home, m)
    ensures root in s2 && Growth(s2, root, root, n2[root]) == 0
    ensures RootEffect(o, n0[root := m], sh, LeafRootGraph(o, n0, root, q, home, m), s2, root, home, q)
    ensures Halves(o, sh, root, m, LeafRootGraph(o, n0, root, q, home, m), s2, home, q)
  {
    s2 := LeafRootStep(o, n0, sh, root, q, home, m);
    LeafRootPass(o, n0, sh, s2, root, q, home, m);
    hide Tree, Ready, RootEffect, Halves, SplitLeft, SplitRight, Rehome, Virtual, LeafRootGraph;
    RootCanInsert(o, n2, root, home, SplitKey(m), q, s2, map[home := SplitLeft(m, q).(parent := root)]);
  }

  lemma RootLeafLowered(o: Order, n0: map<Page, Node>, live0: set<Page>, sh: Shape, root: Page, q: Page, home: Page,
                        m: Node, s2: Shape, n2: map<Page, Node>, n3: map<Page, Node>, s': Shape)
    requires RootLeafHalved(o, n0, live0, sh, root, q, home, m, n2) && CanHold(m, root, root)
    requires RootEffect(o, n0[root := m], sh, LeafRootGraph(o, n0, root, q, home, m), s2, root, home, q)
    requires Halves(o, sh, root, m, LeafRootGraph(o, n0, root, q, home, m), s2, home, q)
    requires Grown(o, LeafRootGraph(o, n0, root, q, home, m), s2, n3 + map[home := SplitLeft(m, q).(parent := root)],
      s', root, root)
    requires Framed(n2, live0 + {q, home}, n3, s2, s')
    ensures LeafSettled(o, n0, live0, sh, n3, home, SplitLeft(m, q).(parent := root), s', root, root, m, home, q)
    ensures WellParented(n3[home := SplitLeft(m, q).(parent := root)], s', root) && s'.Keys == {root, home, q}
  {
    hide *;
    HalvedFacts(o, n0, live0, sh, root, q, home, m, n2);
    var X, left := LeafRootGraph(o, n0, root, q, home, m), SplitLeft(m, q).(parent := root);
    LoneRoot(o, n0, live0, sh, root, m);
    HomeFits(m, root, home, q);
    RootStays(o, n0, root, q, home, m, sh, X, s2, n3, left, s');
    HalvesHome(o, n0, root, q, home, m);
    LeafRootMaps(o, n0, root, q, home, m);
    StillThere(n2, live0 + {q, home}, n3, s2, s', home);
    LeafRootDone(o, n0, live0, sh, s2, root, q, home, m, n2, n3, s');
    LoneParents(o, n0[root := m], sh, X, s2, root, q, home);
    RootSettled(o, n0, live0, sh, n3, home, left, s', root, m, q);
  }

  lemma HalvedFacts(o: Order, n0: map<Page, Node>, live0: set<Page>, sh: Shape, root: Page, q: Page, home: Page,
                    m: Node, n2: map<Page, Node>)
    requires RootLeafHalved(o, n0, live0, sh, root, q, home, m, n2)
    ensures Saturated(m) && IsLeaf(m) && |m.cells| == ORDER && root in sh && root in n0 && root < PAGE_LIMIT
      && q < PAGE_LIMIT
    ensures q !in live0 && home !in live0 && q != home && home != 0 && n0.Keys <= live0
      && Placed(o, n0, live0, sh, root, root, m)
    ensures n2 == Rehome(o, n0[q := SplitRight(m)], root, home, SplitLeft(m, q), q)
  {
    hide Tree, LegalBut, Rehome;
  }

  lemma HomeFits(m: Node, root: Page, home: Page, q: Page)
    requires CanHold(m, root, root) && |m.cells| == ORDER && Saturated(m) && home != 0 && root < PAGE_LIMIT
      && q < PAGE_LIMIT
    ensures Fits(SplitLeft(m, q).(parent := root), Cap(home))
  {
    hide Fits, SplitLeft, SplitRight;
    ReparentFits(SplitLeft(m, q), root, PAGE_SIZE);
  }

  /** The new root has one separator, so there is nothing more to grow. */
  lemma RootStays(o: Order, n0: map<Page, Node>, root: Page, q: Page, home: Page, m: Node, sh: Shape,
                  X: map<Page, Node>, s2: Shape, n3: map<Page, Node>, left: Node, s': Shape)
    requires Saturated(m) && X == LeafRootGraph(o, n0, root, q, home, m)
      && RootEffect(o, n0[root := m], sh, X, s2, root, home, q)
    requires Grown(o, X, s2, n3 + map[home := left], s', root, root) && sh.Keys == {root}
    ensures n3[home := left] == X && s' == s2 && s'.Keys == {root, home, q}
  {
    MergeOne(n3, home, left);
    hide Tree, LegalBut, KeysKept, LeafRootGraph, NewInterior, StillInterior, LastKidStale;
  }

  lemma HalvesHome(o: Order, n0: map<Page, Node>, root: Page, q: Page, home: Page, m: Node)
    requires Saturated(m) && q !in n0 && home !in n0 && q != home && root in n0 && IsLeaf(m)
    ensures var X := LeafRootGraph(o, n0, root, q, home, m);
      home in X && q in X && X[home] == SplitLeft(m, q).(parent := root) && IsLeaf(X[home]) && IsLeaf(X[q])
        && X[home].parent == root && X[q].parent == root
  {
    SplitKinds(m, q);
    hide SplitLeft, SplitRight;
  }

  lemma StillThere(n2: map<Page, Node>, live: set<Page>, n3: map<Page, Node>, s2: Shape, s': Shape, home: Page)
    requires Framed(n2, live, n3, s2, s') && home in n2
    ensures home in n3
  {}

  lemma RootSettled(o: Order, n0: map<Page, Node>, live0: set<Page>, sh: Shape, n3: map<Page, Node>, home: Page,
                    left: Node, s': Shape, root: Page, m: Node, q: Page)
    requires home in n3 && Fits(left, Cap(home))
      && LeafDone(o, n0, live0, sh, n3[home := left], s', root, root, m, home, q)
    ensures LeafSettled(o, n0, live0, sh, n3, home, left, s', root, root, m, home, q)
  {}

  lemma LoneRoot(o: Order, n0: map<Page, Node>, live0: set<Page>, sh: Shape, root: Page, m: Node)
    requires Placed(o, n0, live0, sh, root, root, m)
    ensures sh.Keys == {root}
  {
    forall p | p in sh ensures p == root {
      if p != root { RootInterior(o, n0[root := m], sh, root, p); }
    }
  }

  lemma LoneParents(o: Order, W: map<Page, Node>, sh: Shape, X: map<Page, Node>, s2: Shape, root: Page, q: Page,
                    home: Page)
    requires RootEffect(o, W, sh, X, s2, root, home, q) && sh.Keys == {root}
    requires IsLeaf(X[home]) && IsLeaf(X[q]) && X[home].parent == root && X[q].parent == root
    ensures WellParented(X, s2, root)
  {
    assert Local(o, X, s2, root, home) && Local(o, X, s2, root, q);
  }

  lemma RoomSettled(o: Order, n0: map<Page, Node>, live0: set<Page>, sh: Shape, root: Page, l: Page, m: Node)
    requires Placed(o, n0, live0, sh, root, l, m) && |m.cells| < ORDER && CanHold(m, l, root)
    ensures LeafSettled(o, n0, live0, sh, n0, l, m, sh, root, l, m, l, l)
    ensures WellParented(n0, sh, root) ==> WellParented(n0[l := m], sh, root)
  {
    LeafDoneRoom(o, n0, live0, sh, root, l, m);
  }

  method WriteLeaf(ghost o: Order, db: Db, node: MemNode, page: Page, ghost n0: map<Page, Node>, ghost live0: set<Page>,
                   ghost sh: Shape, ghost sh': Shape, ghost root: Page, ghost l: Page, ghost m: Node, ghost lp: Page,
                   ghost q: Page) returns (ret: int)
    requires db.Valid() && node.Valid()
    requires LeafSettled(o, n0, live0, sh, db.nodes, page, node.Val(), sh', root, l, m, lp, q)
    modifies db`cache, db`cacheSize, db`pages, db`nodes
    ensures ret == 0 && db.Valid() && db.nodes == old(db.nodes)[page := node.Val()]
    ensures LeafDone(o, n0, live0, sh, db.nodes, sh', root, l, m, lp, q)
  {
    assert page in db.nodes && Fits(node.Val(), Cap(page));
    assert LeafDone(o, n0, live0, sh, db.nodes[page := node.Val()], sh', root, l, m, lp, q);
    db.LiveBound(page);
    hide *;
    ret := db.WriteNode(node, page);
  }
}
