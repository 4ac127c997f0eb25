/** One step of a split cascade, seen on the page graph: what holds when a parent is about to be
    updated, and how that is passed on to the parent's parent or to a re-homed root. */
module Cascade {
  import opened Nodes
  import opened SearchTree

  /** Stored parent links that the cascade will follow: every page at least as high as rank `r` names its parent. */
  ghost predicate Parented(V: map<Page, Node>, sh: Shape, root: Page, r: nat) {
    forall p {:trigger sh[p]} :: p in sh && p in V && sh[p].rank >= r ==>
      V[p].parent == if p == root then NO_PAGE else sh[p].par
  }

  predicate LegalNode(n: Node) {
    |n.cells| < ORDER && (!IsLeaf(n) ==> n.cells != [])
  }

  ghost predicate LegalBut(V: map<Page, Node>, sh: Shape, over: set<Page>) {
    forall p {:trigger sh[p]} :: p in sh && p in V && p !in over ==> LegalNode(V[p])
  }

  /** The graph as it will be once `addr` is written with its new separator: a search tree in which only
      `addr` may be saturated. */
  ghost predicate Ready(o: Order, W: map<Page, Node>, sh: Shape, root: Page, addr: Page) {
    && Tree(o, W, sh, root)
    && addr in sh && addr in W && !IsLeaf(W[addr])
    && 1 <= |W[addr].cells| <= ORDER
    && LegalBut(W, sh, {addr})
    && Parented(W, sh, root, sh[addr].rank)
  }

  /** The pages that a cascade above them leaves alone, but for the stored parent link. */
  predicate Kept(V: map<Page, Node>, sh: Shape, V': map<Page, Node>, sh': Shape, root: Page, p: Page)
    requires p in sh && root in sh
  {
    && p in sh' && p in V && p in V'
    && sh'[p].lo == sh[p].lo && sh'[p].hi == sh[p].hi && sh'[p].rank == sh[p].rank
    && SameButParent(V'[p], V[p])
    && (sh[p].hi == sh[root].hi ==> V'[p].parent == V[p].parent)
  }

  /** Grandchildren and below keep even their parent links, stored and real. */
  predicate Fixed(V: map<Page, Node>, sh: Shape, V': map<Page, Node>, sh': Shape, p: Page)
    requires p in sh
  {
    p in sh' && p in V && p in V' && sh'[p] == sh[p] && V'[p] == V[p]
  }

  predicate StillInterior(V: map<Page, Node>, V': map<Page, Node>, p: Page) {
    p in V && p in V' && (!IsLeaf(V[p]) ==> !IsLeaf(V'[p]))
  }

  predicate NewInterior(V: map<Page, Node>, V': map<Page, Node>, p: Page) {
    p !in V && p in V' && !IsLeaf(V'[p])
  }

  /** What the cascade that starts at `addr` has done once it is over. */
  ghost predicate Grown(o: Order, V: map<Page, Node>, sh: Shape, V': map<Page, Node>, sh': Shape, root: Page,
                        addr: Page)
  {
    && Tree(o, V', sh', root) && LegalBut(V', sh', {}) && KeysKept(V, sh, V', sh')
    && root in sh && addr in sh && addr in V
    && sh.Keys <= sh'.Keys
    && (forall p {:trigger NewInterior(V, V', p)} :: p in sh' && p !in sh ==> NewInterior(V, V', p))
    && (forall p {:trigger StillInterior(V, V', p)} :: p in sh ==> StillInterior(V, V', p))
    && root in sh' && sh'[root].lo == sh[root].lo && sh'[root].hi == sh[root].hi
    && root in V' && V'[root].parent == NO_PAGE
    && (forall p {:trigger Kept(V, sh, V', sh', root, p)} ::
         p in sh && p in V && (sh[p].rank < sh[addr].rank || IsLeaf(V[p])) ==>
          Kept(V, sh, V', sh', root, p))
    && (forall p {:trigger Fixed(V, sh, V', sh', p)} ::
         p in sh && p != root && sh[p].par in sh && sh[sh[p].par].rank < sh[addr].rank ==>
          Fixed(V, sh, V', sh', p))
    && (|V[addr].cells| < ORDER ==> V' == V && sh' == sh)
    && (|V[addr].cells| == ORDER ==> LastKidStale(V, V', sh', addr))
  }

  /** The last child of a page that was split now belongs to a new page, and its stored link does not say so. */
  ghost predicate LastKidStale(V: map<Page, Node>, V': map<Page, Node>, sh': Shape, addr: Page)
    requires addr in V
  {
    && |V[addr].kids| == ORDER + 1
    && var c := V[addr].kids[ORDER];
      c in sh' && c in V && c in V' && sh'[c].par !in V && V'[c].parent == V[c].parent
  }

  predicate PosFor(o: Order, n: Node, pos: nat, k: Key) {
    && pos <= |n.cells|
    && (forall j {:trigger K(o, n, j)} :: 0 <= j < pos ==> K(o, n, j) < Ord(o, k))
    && (pos < |n.cells| ==> Ord(o, k) < K(o, n, pos))
  }

  // ---------------------------------------------------------------- a split below the root

  /** `p` is the child at `pos` of its real parent `a`. */
  ghost predicate Slot(o: Order, V: map<Page, Node>, sh: Shape, p: Page, a: Page, pos: nat) {
    && p in sh && a == sh[p].par && a in sh && a in V && !IsLeaf(V[a]) && KindOk(o, V[a])
    && sh[p].rank < sh[a].rank
    && pos <= |V[a].cells| && V[a].kids[pos] == p && KidOk(o, V[a], a, sh, pos)
  }

  lemma ParentSlot(o: Order, V: map<Page, Node>, sh: Shape, root: Page, p: Page) returns (pos: nat)
    requires Tree(o, V, sh, root) && p in sh && p != root
    ensures Slot(o, V, sh, p, sh[p].par, pos)
  {
    assert Local(o, V, sh, root, p);
    var a := sh[p].par;
    assert Local(o, V, sh, root, a);
    pos :| 0 <= pos < |V[a].kids| && V[a].kids[pos] == p;
    assert KidOk(o, V[a], a, sh, pos);
  }

  /** A saturated page below the root can be cut next to its real parent. */
  lemma CutReady(o: Order, V: map<Page, Node>, sh: Shape, root: Page, p: Page, pos: nat, q: Page)
    requires Tree(o, V, sh, root) && p in sh && p in V && p != root && |V[p].cells| == ORDER
    requires Slot(o, V, sh, p, sh[p].par, pos)
    requires q !in sh && q !in V
    ensures Saturated(V[p]) && SplitReady(o, V, sh, root, p, sh[p].par, pos, q, {p})
    ensures PosFor(o, V[sh[p].par], pos, SplitKey(V[p]))
  {
    var a := sh[p].par;
    assert Local(o, V, sh, root, p) && Local(o, V, sh, root, a);
    assert SpineMember(V, sh, p, a, pos, {p}, p);
    SplitHalves(o, V[p], q, sh[p].lo, sh[p].hi);
    assert forall j {:trigger K(o, V[a], j)} :: 0 <= j < pos - 1 ==> K(o, V[a], j) < K(o, V[a], pos - 1);
  }

  lemma SplitPartsLegal(n: Node, q: Page)
    requires Saturated(n)
    ensures LegalNode(SplitLeft(n, q)) && LegalNode(SplitRight(n))
  {}

  /** Cutting a page below the root leaves its parent ready for the next step. */
  lemma CutStep(o: Order, W: map<Page, Node>, sh: Shape, root: Page, addr: Page, pos: nat, q: Page)
    requires Ready(o, W, sh, root, addr) && addr != root && |W[addr].cells| == ORDER
    requires Slot(o, W, sh, addr, sh[addr].par, pos)
    requires q !in sh && q !in W
    ensures var a := sh[addr].par;
      && W[addr].parent == a && Saturated(W[addr])
      && PosFor(o, W[a], pos, SplitKey(W[addr]))
      && SplitReady(o, W, sh, root, addr, a, pos, q, {addr})
      && Ready(o, AfterSplit(W, addr, a, pos, q), NewShape(o, W, sh, addr, a, q, {addr}), root, a)
  {
    var a := sh[addr].par;
    CutReady(o, W, sh, root, addr, pos, q);
    SplitKeepsTree(o, W, sh, root, addr, a, pos, q, {addr});
    var W2, s2 := AfterSplit(W, addr, a, pos, q), NewShape(o, W, sh, addr, a, q, {addr});
    SplitPartsLegal(W[addr], q);
    assert LegalNode(W[a]) by { assert sh[a].rank >= 0; }
    hide Tree, SplitReady, SplitLeft, SplitRight;
    assert LegalBut(W2, s2, {a});
    assert W[a].parent == if a == root then NO_PAGE else sh[a].par;
    assert Parented(W2, s2, root, s2[a].rank) by {
      MovedBelow(o, W, sh, root, addr, a, pos, q);
    }
  }

  /** The children that move with the right half are all below the cut page. */
  lemma MovedBelow(o: Order, W: map<Page, Node>, sh: Shape, root: Page, p: Page, a: Page, pos: nat, q: Page)
    requires SplitReady(o, W, sh, root, p, a, pos, q, {p})
    ensures forall c :: c in Moved(W[p]) ==> c in sh && sh[c].rank < sh[p].rank && sh[c].par == p
  {
    assert Local(o, W, sh, root, p);
    if !IsLeaf(W[p]) {
      assert KidOk(o, W[p], p, sh, 3) && KidOk(o, W[p], p, sh, 4);
    }
  }

  lemma SpansPages(o: Order, V: map<Page, Node>, sh: Shape, root: Page)
    requires Tree(o, V, sh, root)
    ensures root in sh && sh.Keys <= V.Keys
  {
    forall p | p in sh ensures p in V { assert Local(o, V, sh, root, p); }
  }

  /** What cutting `p` below `a` changes on the graph: the pages p, a and the new q, and the parents of the moved
      children. */
  ghost predicate CutEffect(W: map<Page, Node>, sh: Shape, W2: map<Page, Node>, s2: Shape, root: Page, p: Page, a: Page,
                            q: Page)
  {
    && p in W && p in sh && a in W && a in sh && root in sh && a == sh[p].par && a != p && p != root
    && sh[p].rank < sh[a].rank
    && sh.Keys <= W.Keys && q !in W && q !in sh
    && (a != root ==> sh[a].par in sh && sh[a].rank < sh[sh[a].par].rank)
    && W2.Keys == W.Keys + {q} && s2.Keys == sh.Keys + {q} && KeysKept(W, sh, W2, s2)
    && !IsLeaf(W[p]) && !IsLeaf(W[a]) && !IsLeaf(W2[q]) && !IsLeaf(W2[p]) && !IsLeaf(W2[a])
    && (forall x {:trigger W2[x]} :: x in W && x != p && x != a ==> W2[x] == W[x])
    && (forall x {:trigger s2[x]} :: x in sh && sh[x].par != p && x != p ==> s2[x] == sh[x])
    && (forall x {:trigger s2[x]} :: x in sh && x != p ==>
         s2[x].lo == sh[x].lo && s2[x].hi == sh[x].hi && s2[x].rank == sh[x].rank)
    && s2[q].par == a && s2[q].rank == sh[p].rank && s2[p].rank == sh[p].rank
    && s2[root] == sh[root] && s2[a] == sh[a] && |W2[a].cells| == |W[a].cells| + 1
    && |W[p].kids| == ORDER + 1
    && var c := W[p].kids[ORDER]; c in sh && c != root && c != p && c != a && s2[c].par == q && sh[c].rank < sh[p].rank
  }

  lemma CutHasEffect(o: Order, W: map<Page, Node>, sh: Shape, root: Page, p: Page, a: Page, pos: nat, q: Page)
    requires SplitReady(o, W, sh, root, p, a, pos, q, {p}) && !IsLeaf(W[p]) && Slot(o, W, sh, p, a, pos)
    ensures CutEffect(W, sh, AfterSplit(W, p, a, pos, q), NewShape(o, W, sh, p, a, q, {p}), root, p, a, q)
  {
    hide *;
    CutPlace(o, W, sh, root, p, a, pos, q);
    var s2 := NewShape(o, W, sh, p, a, q, {p});
    LastMoved(o, W, sh, root, p);
    MovedBelow(o, W, sh, root, p, a, pos, q);
    CutGraph(W, p, a, pos, q);
    CutShape(o, W, sh, root, p, a, q);
    SplitKeepsKeys(W, sh, p, a, pos, q, s2);
    CutEffectNow(W, sh, AfterSplit(W, p, a, pos, q), s2, root, p, a, q);
  }

  lemma CutPlace(o: Order, W: map<Page, Node>, sh: Shape, root: Page, p: Page, a: Page, pos: nat, q: Page)
    requires SplitReady(o, W, sh, root, p, a, pos, q, {p}) && !IsLeaf(W[p]) && Slot(o, W, sh, p, a, pos)
    ensures p in W && p in sh && a in W && a in sh && root in sh && a == sh[p].par && a != p && p != root
      && sh[p].rank < sh[a].rank
    ensures sh.Keys <= W.Keys && q !in W && q !in sh && Tree(o, W, sh, root) && Saturated(W[p])
    ensures a != root ==> sh[a].par in sh && sh[a].rank < sh[sh[a].par].rank
    ensures !IsLeaf(W[p]) && !IsLeaf(W[a]) && |W[a].kids| == |W[a].cells| + 1 && pos <= |W[a].cells|
  {
    SpansPages(o, W, sh, root);
    if a != root { var i := ParentSlot(o, W, sh, root, a); }
    assert Local(o, W, sh, root, a);
    hide Tree, Local, Sorted, Within, SplitLeft, SplitRight, KidsOk, Moved;
  }

  lemma CutGraph(W: map<Page, Node>, p: Page, a: Page, pos: nat, q: Page)
    requires p in W && a in W && a != p && q !in W && Saturated(W[p]) && !IsLeaf(W[p]) && !IsLeaf(W[a])
    requires |W[a].kids| == |W[a].cells| + 1 && pos <= |W[a].cells|
    ensures var W2 := AfterSplit(W, p, a, pos, q);
      && W2.Keys == W.Keys + {q} && !IsLeaf(W2[q]) && !IsLeaf(W2[p]) && !IsLeaf(W2[a])
      && |W2[a].cells| == |W[a].cells| + 1 && |W[p].kids| == ORDER + 1
      && (forall x {:trigger W2[x]} :: x in W && x != p && x != a ==> W2[x] == W[x])
  {
    SplitKinds(W[p], q);
    hide SplitLeft, SplitRight;
  }

  lemma CutShape(o: Order, W: map<Page, Node>, sh: Shape, root: Page, p: Page, a: Page, q: Page)
    requires p in W && p in sh && a in sh && root in sh && a != p && p != root && q !in sh && Saturated(W[p])
      && !IsLeaf(W[p]) && a == sh[p].par
    requires sh[p].rank < sh[a].rank && (a != root ==> sh[a].par in sh && sh[a].rank < sh[sh[a].par].rank)
    requires forall c :: c in Moved(W[p]) ==> c in sh && sh[c].rank < sh[p].rank && sh[c].par == p
    requires root !in Moved(W[p])
    requires var c := W[p].kids[ORDER]; c in Moved(W[p]) && c in sh && c != root && c != p && sh[c].rank < sh[p].rank
    ensures var s2 := NewShape(o, W, sh, p, a, q, {p});
      && s2.Keys == sh.Keys + {q}
      && (forall x {:trigger s2[x]} :: x in sh && sh[x].par != p && x != p ==> s2[x] == sh[x])
      && (forall x {:trigger s2[x]} :: x in sh && x != p ==>
           s2[x].lo == sh[x].lo && s2[x].hi == sh[x].hi && s2[x].rank == sh[x].rank)
      && s2[q].par == a && s2[q].rank == sh[p].rank && s2[p].rank == sh[p].rank && s2[root] == sh[root]
      && s2[a] == sh[a]
      && var c := W[p].kids[ORDER]; c != a && s2[c].par == q
  {
    hide Moved, SplitKey;
    assert a !in Moved(W[p]);
  }

  lemma CutEffectNow(W: map<Page, Node>, sh: Shape, W2: map<Page, Node>, s2: Shape, root: Page, p: Page, a: Page,
                     q: Page)
    requires p in W && p in sh && a in W && a in sh && root in sh && a == sh[p].par && a != p && p != root
      && sh[p].rank < sh[a].rank
    requires sh.Keys <= W.Keys && q !in W && q !in sh
      && (a != root ==> sh[a].par in sh && sh[a].rank < sh[sh[a].par].rank)
    requires W2.Keys == W.Keys + {q} && s2.Keys == sh.Keys + {q} && KeysKept(W, sh, W2, s2)
    requires !IsLeaf(W[p]) && !IsLeaf(W[a]) && !IsLeaf(W2[q]) && !IsLeaf(W2[p]) && !IsLeaf(W2[a])
    requires forall x {:trigger W2[x]} :: x in W && x != p && x != a ==> W2[x] == W[x]
    requires forall x {:trigger s2[x]} :: x in sh && sh[x].par != p && x != p ==> s2[x] == sh[x]
    requires forall x {:trigger s2[x]} :: x in sh && x != p ==>
      s2[x].lo == sh[x].lo && s2[x].hi == sh[x].hi && s2[x].rank == sh[x].rank
    requires s2[q].par == a && s2[q].rank == sh[p].rank && s2[p].rank == sh[p].rank
    requires s2[root] == sh[root] && s2[a] == sh[a] && |W2[a].cells| == |W[a].cells| + 1 && |W[p].kids| == ORDER + 1
    requires var c := W[p].kids[ORDER];
      c in sh && c != root && c != p && c != a && s2[c].par == q && sh[c].rank < sh[p].rank
    ensures CutEffect(W, sh, W2, s2, root, p, a, q)
  {
    hide KeysKept;
  }

  lemma LastMoved(o: Order, W: map<Page, Node>, sh: Shape, root: Page, p: Page)
    requires Tree(o, W, sh, root) && p in sh && p in W && !IsLeaf(W[p]) && Saturated(W[p])
    ensures var c := W[p].kids[ORDER];
      c in Moved(W[p]) && c in sh && c != root && c != p && sh[c].rank < sh[p].rank
    ensures root !in Moved(W[p])
  {
    assert Local(o, W, sh, root, p);
    assert KidOk(o, W[p], p, sh, 3) && KidOk(o, W[p], p, sh, 4);
    assert Moved(W[p])[1] == W[p].kids[ORDER];
  }

  lemma KeptThrough(o: Order, W: map<Page, Node>, sh: Shape, W2: map<Page, Node>, s2: Shape, root: Page, addr: Page,
                    a: Page, q: Page, V': map<Page, Node>, s': Shape, p: Page)
    requires CutEffect(W, sh, W2, s2, root, addr, a, q) && Grown(o, W2, s2, V', s', root, a)
    requires p in sh && (sh[p].rank < sh[addr].rank || IsLeaf(W[p]))
    ensures Kept(W, sh, V', s', root, p)
  {
    hide Tree, LegalBut, LastKidStale;
    assert W2[p] == W[p];
    assert Kept(W2, s2, V', s', root, p);
  }

  lemma FixedThrough(o: Order, W: map<Page, Node>, sh: Shape, W2: map<Page, Node>, s2: Shape, root: Page, addr: Page,
                     a: Page, q: Page, V': map<Page, Node>, s': Shape, p: Page)
    requires CutEffect(W, sh, W2, s2, root, addr, a, q) && Grown(o, W2, s2, V', s', root, a)
    requires p in sh && p != root && sh[p].par in sh && sh[sh[p].par].rank < sh[addr].rank
    ensures Fixed(W, sh, V', s', p)
  {
    hide Tree, LegalBut, LastKidStale;
    assert p != addr && p != a;
    assert s2[p] == sh[p] && W2[p] == W[p];
    assert Fixed(W2, s2, V', s', p);
  }

  lemma StaleThrough(o: Order, W: map<Page, Node>, sh: Shape, W2: map<Page, Node>, s2: Shape, root: Page, addr: Page,
                     a: Page, q: Page, V': map<Page, Node>, s': Shape)
    requires CutEffect(W, sh, W2, s2, root, addr, a, q) && Grown(o, W2, s2, V', s', root, a)
    ensures LastKidStale(W, V', s', addr)
  {
    hide Tree, LegalBut;
    var c := W[addr].kids[ORDER];
    assert W2[c] == W[c];
    assert Fixed(W2, s2, V', s', c);
  }

  /** What the cascade from the parent did is what the cascade from the cut page did. */
  lemma ThroughCut(o: Order, W: map<Page, Node>, sh: Shape, W2: map<Page, Node>, s2: Shape, root: Page, addr: Page,
                   a: Page, q: Page, V': map<Page, Node>, s': Shape)
    requires CutEffect(W, sh, W2, s2, root, addr, a, q) && Grown(o, W2, s2, V', s', root, a)
    requires |W[addr].cells| == ORDER
    ensures Grown(o, W, sh, V', s', root, addr)
  {
    forall p | p in s' && p !in sh ensures NewInterior(W, V', p) {
      if p == q { assert Kept(W2, s2, V', s', root, q); } else { assert NewInterior(W2, V', p); }
    }
    forall p | p in sh ensures StillInterior(W, V', p) {
      assert StillInterior(W2, V', p);
    }
    forall p | p in sh && p in W && (sh[p].rank < sh[addr].rank || IsLeaf(W[p])) ensures Kept(W, sh, V', s', root, p) {
      KeptThrough(o, W, sh, W2, s2, root, addr, a, q, V', s', p);
    }
    forall p | p in sh && p != root && sh[p].par in sh && sh[sh[p].par].rank < sh[addr].rank
      ensures Fixed(W, sh, V', s', p)
    {
      FixedThrough(o, W, sh, W2, s2, root, addr, a, q, V', s', p);
    }
    StaleThrough(o, W, sh, W2, s2, root, addr, a, q, V', s');
    KeysThrough(W, sh, W2, s2, V', s');
  }

  // ---------------------------------------------------------------- a split of the root

  ghost function RootCut(o: Order, W: map<Page, Node>, root: Page, home: Page, q: Page): map<Page, Node>
    requires root in W && Saturated(W[root]) && home != root && q != home && q != root
  {
    AfterSplit(AfterMove(o, W, root, home), home, root, 0, q)
  }

  ghost function RootShape(o: Order, W: map<Page, Node>, sh: Shape, root: Page, home: Page, q: Page): Shape
    requires root in W && root in sh && Saturated(W[root]) && home != root
  {
    NewShape(o, AfterMove(o, W, root, home), MoveShape(sh, root, home), home, root, q, {home})
  }

  lemma RootCutReady(o: Order, W: map<Page, Node>, sh: Shape, root: Page, home: Page, q: Page)
    requires Tree(o, W, sh, root) && root in W && |W[root].cells| == ORDER
    requires home !in sh && home !in W && q !in sh && q !in W && q != home
    ensures Saturated(W[root]) && root in sh
    ensures SplitReady(o, AfterMove(o, W, root, home), MoveShape(sh, root, home), root, home, root, 0, q, {home})
  {
    assert Local(o, W, sh, root, root);
    MoveKeepsTree(o, W, sh, root, home);
    var W1, s1 := AfterMove(o, W, root, home), MoveShape(sh, root, home);
    assert Local(o, W1, s1, root, root);
    assert KidOk(o, W1[root], root, s1, 0);
    var pos := 0;
    CutReady(o, W1, s1, root, home, pos, q);
  }

  /** The graph after a root split: the moved halves, the new root above them, and any stored parents. */
  ghost predicate RootEffect(o: Order, W: map<Page, Node>, sh: Shape, X: map<Page, Node>, s2: Shape, root: Page,
                             home: Page, q: Page)
  {
    && root in W && root in sh && sh.Keys <= W.Keys && X.Keys == W.Keys + {home, q} && s2.Keys == sh.Keys + {home, q}
    && home !in W && q !in W && q != home
    && Tree(o, X, s2, root) && LegalBut(X, s2, {}) && KeysKept(W, sh, X, s2)
    && X[root].parent == NO_PAGE && !IsLeaf(X[root]) && |X[root].cells| == 1
    && s2[root].lo == sh[root].lo && s2[root].hi == sh[root].hi && s2[root].rank == sh[root].rank + 1
    && (forall x {:trigger X[x]} :: x in W && x != root ==> SameButParent(X[x], W[x]))
    && (forall x {:trigger s2[x]} :: x in sh && x != root ==>
          s2[x].lo == sh[x].lo && s2[x].hi == sh[x].hi && s2[x].rank == sh[x].rank && s2[x].rank < s2[root].rank)
    && (forall x {:trigger s2[x]} :: x in sh && x != root && sh[x].par != root ==> s2[x] == sh[x])
    && s2[home].rank == s2[q].rank == sh[root].rank
  }

  lemma RootStep(o: Order, W: map<Page, Node>, sh: Shape, root: Page, home: Page, q: Page, X: map<Page, Node>)
    requires Tree(o, W, sh, root) && root in W && |W[root].cells| == ORDER && LegalBut(W, sh, {root})
    requires home !in sh && home !in W && q !in sh && q !in W && q != home
    requires Saturated(W[root]) && home != root && q != root && root in sh
    requires X.Keys == W.Keys + {home, q}
    requires forall x {:trigger X[x]} :: x in X ==> SameButParent(X[x], RootCut(o, W, root, home, q)[x])
    requires X[root].parent == NO_PAGE
    ensures RootEffect(o, W, sh, X, RootShape(o, W, sh, root, home, q), root, home, q)
  {
    var W1, s1 := AfterMove(o, W, root, home), MoveShape(sh, root, home);
    var W2, s2 := RootCut(o, W, root, home, q), RootShape(o, W, sh, root, home, q);
    RootCutReady(o, W, sh, root, home, q);
    SplitKeepsTree(o, W1, s1, root, home, root, 0, q, {home});
    SpansPages(o, W, sh, root);
    SpansPages(o, W2, s2, root);
    TreeFrame(o, W2, X, s2, root);
    RootCutAt(o, W, root, home, q);
    RootShapeFacts(o, W, sh, root, home, q);
    RootKeys(o, W, sh, root, home, q, X);
    hide RootCut, RootShape, LegalBut, KeysKept, Tree, SplitReady, SplitLeft, SplitRight, NewShape, MoveShape;
    RootLegal(o, W, sh, root, home, q, X, W2, s2);
  }

  /** Neither half of the root is saturated, and the new root holds one separator. */
  lemma RootLegal(o: Order, W: map<Page, Node>, sh: Shape, root: Page, home: Page, q: Page, X: map<Page, Node>,
                  W2: map<Page, Node>, s2: Shape)
    requires root in W && Saturated(W[root]) && LegalBut(W, sh, {root}) && s2.Keys == sh.Keys + {home, q}
      && sh.Keys <= W.Keys
    requires W2.Keys == X.Keys == W.Keys + {home, q} && home !in W && q !in W && home != q
    requires forall x {:trigger X[x]} :: x in X ==> SameButParent(X[x], W2[x])
    requires forall x {:trigger W2[x]} :: x in W && x != root ==> W2[x] == W[x]
    requires W2[home] == SplitLeft(W[root], q) && W2[q] == SplitRight(W[root])
      && W2[root] == InsertKid(EmptyRoot(o, home), 0, SplitKey(W[root]), q)
    ensures LegalBut(X, s2, {}) && !IsLeaf(X[root]) && |X[root].cells| == 1
  {
    SplitPartsLegal(W[root], q);
    hide SplitLeft, SplitRight;
    forall x | x in s2 && x in X ensures LegalNode(X[x]) {
      assert SameButParent(X[x], W2[x]);
      if x != home && x != q && x != root { assert LegalNode(W[x]) by { assert sh[x].rank >= 0; } }
    }
  }

  lemma RootKeys(o: Order, W: map<Page, Node>, sh: Shape, root: Page, home: Page, q: Page, X: map<Page, Node>)
    requires root in W && root in sh && Saturated(W[root]) && home !in sh && home !in W && q !in sh && q !in W
      && q != home
    requires X.Keys == W.Keys + {home, q} && forall x {:trigger X[x]} :: x in X ==>
      SameButParent(X[x], RootCut(o, W, root, home, q)[x])
    ensures KeysKept(W, sh, X, RootShape(o, W, sh, root, home, q))
  {
    var W1, s1 := AfterMove(o, W, root, home), MoveShape(sh, root, home);
    var W2, s2 := RootCut(o, W, root, home, q), RootShape(o, W, sh, root, home, q);
    MoveKeepsKeys(o, W, sh, root, home);
    SplitKeepsKeys(W1, s1, home, root, 0, q, s2);
    KeysThrough(W, sh, W1, s1, W2, s2);
    RootCutAt(o, W, root, home, q);
    hide RootCut, RootShape, MoveShape, AfterMove, KeysKept, SplitLeft, SplitRight;
    SameNodesKeepKeys(W2, X, s2);
    KeysThrough(W, sh, W2, s2, X, s2);
  }

  lemma RootShapeFacts(o: Order, W: map<Page, Node>, sh: Shape, root: Page, home: Page, q: Page)
    requires Tree(o, W, sh, root) && root in W && |W[root].cells| == ORDER
    requires home !in sh && home !in W && q !in sh && q !in W && q != home
    requires Saturated(W[root]) && home != root && q != root && root in sh
    ensures var s2 := RootShape(o, W, sh, root, home, q);
      && s2.Keys == sh.Keys + {home, q}
      && s2[root].lo == sh[root].lo && s2[root].hi == sh[root].hi && s2[root].rank == sh[root].rank + 1
      && (forall x {:trigger s2[x]} :: x in sh && x != root ==>
            s2[x].lo == sh[x].lo && s2[x].hi == sh[x].hi && s2[x].rank == sh[x].rank && s2[x].rank < s2[root].rank)
      && (forall x {:trigger s2[x]} :: x in sh && x != root && sh[x].par != root ==> s2[x] == sh[x])
      && s2[home].rank == s2[q].rank == sh[root].rank
  {
    var s1, s2 := MoveShape(sh, root, home), RootShape(o, W, sh, root, home, q);
    forall x | x in sh && x != root ensures sh[x].rank <= sh[root].rank { assert Local(o, W, sh, root, x); }
    forall x | x in sh && x != root && sh[x].par != root ensures x !in Moved(W[root]) {
      assert Local(o, W, sh, root, root);
      if !IsLeaf(W[root]) {
        assert KidOk(o, W[root], root, sh, 3) && KidOk(o, W[root], root, sh, 4);
      }
    }
  }

  /** The re-homed root is ready to take the one separator between its two halves. */
  lemma RootReady(o: Order, W: map<Page, Node>, sh: Shape, X: map<Page, Node>, s2: Shape, root: Page, home: Page,
                  q: Page)
    requires RootEffect(o, W, sh, X, s2, root, home, q)
    ensures Ready(o, X, s2, root, root)
  {
    assert Parented(X, s2, root, s2[root].rank);
  }

  /** Only the left half's children are told about their new parent. */
  ghost predicate Retold(W: map<Page, Node>, X: map<Page, Node>, root: Page)
    requires root in W
  {
    |W[root].kids| == ORDER + 1
    && forall x {:trigger X[x]} :: x in W && x in X && x != root && X[x].parent != W[x].parent ==>
         x in W[root].kids[..3]
  }

  /** The root's children, for all their new parents, keep spans, cells and links; deeper pages keep everything. */
  lemma RootKept(o: Order, W: map<Page, Node>, sh: Shape, X: map<Page, Node>, s2: Shape, root: Page, home: Page,
                 q: Page, p: Page)
    requires RootEffect(o, W, sh, X, s2, root, home, q) && Retold(W, X, root) && p in sh && p != root
    requires forall i {:trigger W[root].kids[i]} :: 0 <= i < ORDER ==>
      W[root].kids[i] in sh && sh[W[root].kids[i]].par == root && sh[W[root].kids[i]].hi < sh[root].hi
    ensures p in W && p in X && Kept(W, sh, X, s2, root, p)
    ensures sh[p].par != root ==> Fixed(W, sh, X, s2, p)
  {
    hide Tree, LegalBut, KeysKept;
    assert SameButParent(X[p], W[p]);
    assert p in W[root].kids[..3] ==> exists i :: 0 <= i < 3 && W[root].kids[i] == p;
  }

  lemma RootGrown(o: Order, W: map<Page, Node>, sh: Shape, X: map<Page, Node>, root: Page, home: Page, q: Page)
    requires Tree(o, W, sh, root) && root in W && |W[root].cells| == ORDER && !IsLeaf(W[root])
    requires home !in sh && home !in W && q !in sh && q !in W && q != home && home != root && q != root && root in sh
    requires Saturated(W[root]) && RootEffect(o, W, sh, X, RootShape(o, W, sh, root, home, q), root, home, q)
    requires Retold(W, X, root) && !IsLeaf(X[home]) && !IsLeaf(X[q])
    ensures Grown(o, W, sh, X, RootShape(o, W, sh, root, home, q), root, root)
  {
    hide *;
    var s2 := RootShape(o, W, sh, root, home, q);
    RootKids(o, W, sh, root, home, q);
    forall p | p in sh && p != root
      ensures p in W && p in X && Kept(W, sh, X, s2, root, p) && (sh[p].par != root ==> Fixed(W, sh, X, s2, p))
    {
      RootKept(o, W, sh, X, s2, root, home, q, p);
    }
    RootLastKid(o, W, sh, X, s2, root, home, q);
    RootStill(o, W, sh, X, s2, root, home, q);
    RootGrownNow(o, W, sh, X, s2, root, home, q);
  }

  lemma RootLastKid(o: Order, W: map<Page, Node>, sh: Shape, X: map<Page, Node>, s2: Shape, root: Page, home: Page,
                    q: Page)
    requires RootEffect(o, W, sh, X, s2, root, home, q) && Retold(W, X, root)
    requires forall i {:trigger W[root].kids[i]} :: 0 <= i <= ORDER ==> W[root].kids[i] in W && W[root].kids[i] != root
    requires forall i, j :: 0 <= i < j <= ORDER ==> W[root].kids[i] != W[root].kids[j]
    requires var c := W[root].kids[ORDER]; c in s2 && s2[c].par == q
    ensures LastKidStale(W, X, s2, root)
  {
    var c := W[root].kids[ORDER];
    assert c !in W[root].kids[..3];
    hide Tree, LegalBut, KeysKept;
  }

  lemma RootStill(o: Order, W: map<Page, Node>, sh: Shape, X: map<Page, Node>, s2: Shape, root: Page, home: Page,
                  q: Page)
    requires RootEffect(o, W, sh, X, s2, root, home, q) && !IsLeaf(X[home]) && !IsLeaf(X[q])
    ensures forall p {:trigger StillInterior(W, X, p)} :: p in sh ==> StillInterior(W, X, p)
    ensures forall p {:trigger NewInterior(W, X, p)} :: p in s2 && p !in sh ==> NewInterior(W, X, p)
  {
    hide Tree, LegalBut, KeysKept;
    forall p | p in sh ensures StillInterior(W, X, p) {
      if p != root { assert SameButParent(X[p], W[p]); }
    }
  }

  lemma RootGrownNow(o: Order, W: map<Page, Node>, sh: Shape, X: map<Page, Node>, s2: Shape, root: Page, home: Page,
                     q: Page)
    requires RootEffect(o, W, sh, X, s2, root, home, q) && |W[root].cells| == ORDER && LastKidStale(W, X, s2, root)
    requires forall p {:trigger StillInterior(W, X, p)} :: p in sh ==> StillInterior(W, X, p)
    requires forall p {:trigger NewInterior(W, X, p)} :: p in s2 && p !in sh ==> NewInterior(W, X, p)
    requires forall p {:trigger Kept(W, sh, X, s2, root, p)} :: p in sh && p != root ==> Kept(W, sh, X, s2, root, p)
    requires forall p {:trigger Fixed(W, sh, X, s2, p)} :: p in sh && p != root && sh[p].par != root ==>
      Fixed(W, sh, X, s2, p)
    requires !IsLeaf(W[root])
    ensures Grown(o, W, sh, X, s2, root, root)
  {
    hide Tree, LegalBut, KeysKept, Kept, Fixed, StillInterior, NewInterior, LastKidStale;
  }

  lemma RootKids(o: Order, W: map<Page, Node>, sh: Shape, root: Page, home: Page, q: Page)
    requires Tree(o, W, sh, root) && root in W && |W[root].cells| == ORDER && !IsLeaf(W[root])
    requires home !in sh && home !in W && q !in sh && q !in W && q != home && home != root && q != root && root in sh
    requires Saturated(W[root])
    ensures forall i {:trigger W[root].kids[i]} :: 0 <= i <= ORDER ==>
      W[root].kids[i] in sh && W[root].kids[i] != root && sh[W[root].kids[i]].par == root && W[root].kids[i] in W
      && (i < ORDER ==> sh[W[root].kids[i]].hi < sh[root].hi)
    ensures forall i, j :: 0 <= i < j <= ORDER ==> W[root].kids[i] != W[root].kids[j]
    ensures var c := W[root].kids[ORDER];
      c in RootShape(o, W, sh, root, home, q) && RootShape(o, W, sh, root, home, q)[c].par == q
  {
    KidsDistinct(o, W, sh, root, root);
    SpansPages(o, W, sh, root);
    forall i | 0 <= i <= ORDER
      ensures W[root].kids[i] in sh && W[root].kids[i] != root && sh[W[root].kids[i]].par == root
        && W[root].kids[i] in W
      ensures i < ORDER ==> sh[W[root].kids[i]].hi < sh[root].hi
    {
      KidSpan(o, W, sh, root, root, i);
      assert Local(o, W, sh, root, root);
      if i < ORDER { assert K(o, W[root], i) < sh[root].hi; }
    }
    assert Moved(W[root])[1] == W[root].kids[ORDER];
  }

  lemma GrownNothing(o: Order, W: map<Page, Node>, sh: Shape, root: Page, addr: Page)
    requires Ready(o, W, sh, root, addr) && |W[addr].cells| < ORDER
    ensures Grown(o, W, sh, W, sh, root, addr)
  {
    SpansPages(o, W, sh, root);
    assert sh[addr].rank <= sh[root].rank by { assert Local(o, W, sh, root, addr); }
    assert W[root].parent == NO_PAGE;
  }

  // ---------------------------------------------------------------- nodes still in memory

  /** Pages below `addr` whose new contents have not been written yet: the graph to reason about is `nodes + pend`. */
  ghost predicate Pending(nodes: map<Page, Node>, pend: map<Page, Node>, sh: Shape, addr: Page) {
    && addr in nodes && addr in sh && addr !in pend && pend.Keys <= nodes.Keys
    && forall x {:trigger x in pend} :: x in pend ==> x in sh && sh[x].rank < sh[addr].rank
  }

  ghost function Virtual(nodes: map<Page, Node>, pend: map<Page, Node>, addr: Page, m: Node): map<Page, Node> {
    (nodes + pend)[addr := m]
  }

  /** Pages outside the tree are as they were, and the tree grew by pages that were not in use. */
  ghost predicate Framed(n0: map<Page, Node>, live0: set<Page>, n1: map<Page, Node>, sh: Shape, sh': Shape) {
    && n1.Keys == n0.Keys + (sh'.Keys - sh.Keys)
    && (forall p {:trigger n1[p]} :: p in n0 && p !in sh ==> n1[p] == n0[p])
    && (forall p {:trigger p in live0} :: p in sh' && p !in sh ==> p !in live0)
  }

  /** Writing a pending page last makes it real. */
  lemma Settle(n1: map<Page, Node>, pend: map<Page, Node>, addr: Page, left: Node)
    requires addr !in pend && addr in n1
    ensures n1[addr := left] + pend == n1 + pend[addr := left]
  {}

  lemma PendingUp(nodes: map<Page, Node>, pend: map<Page, Node>, sh: Shape, addr: Page, a: Page, q: Page, pos: nat,
                  M: Node, W: map<Page, Node>)
    requires Pending(nodes, pend, sh, addr) && W == Virtual(nodes, pend, addr, M) && Saturated(M)
    requires a in sh && sh[addr].rank < sh[a].rank && q !in nodes && q !in sh && a in nodes
    requires pos <= |W[a].cells| && |W[a].kids| == |W[a].cells| + 1
    ensures var n1, p1 := nodes[q := SplitRight(M)], pend[addr := SplitLeft(M, q)];
      && a !in pend && n1[a] == nodes[a] == W[a]
      && Virtual(n1, p1, a, InsertKid(n1[a], pos, SplitKey(M), q)) == AfterSplit(W, addr, a, pos, q)
  {
    var n1, p1 := nodes[q := SplitRight(M)], pend[addr := SplitLeft(M, q)];
    var X, Y := Virtual(n1, p1, a, InsertKid(n1[a], pos, SplitKey(M), q)), AfterSplit(W, addr, a, pos, q);
    assert X.Keys == Y.Keys;
    assert forall x :: x in X ==> X[x] == Y[x];
  }

  /** The step below the root: what to promise the parent's insert, and what it gives back. */
  lemma PassUp(o: Order, nodes: map<Page, Node>, pend: map<Page, Node>, sh: Shape, root: Page, addr: Page, pos: nat,
               q: Page, M: Node, W: map<Page, Node>)
    requires Pending(nodes, pend, sh, addr) && W == Virtual(nodes, pend, addr, M) && q !in nodes
    requires Ready(o, W, sh, root, addr) && addr != root && |M.cells| == ORDER
    requires Slot(o, W, sh, addr, sh[addr].par, pos)
    ensures Saturated(M) && q !in sh
    ensures var a := sh[addr].par;
      var n1, p1, s1 := nodes[q := SplitRight(M)], pend[addr := SplitLeft(M, q)],
        NewShape(o, W, sh, addr, a, q, {addr});
      && M.parent == a && a in nodes && Pending(n1, p1, s1, a)
      && KindOk(o, n1[a]) && !IsLeaf(n1[a]) && |n1[a].cells| < ORDER && n1[a] == nodes[a]
      && PosFor(o, n1[a], pos, SplitKey(M))
      && Ready(o, Virtual(n1, p1, a, InsertKid(n1[a], pos, SplitKey(M), q)), s1, root, a)
      && s1[root].rank - s1[a].rank < sh[root].rank - sh[addr].rank && s1[a].rank <= s1[root].rank
      && s1.Keys == sh.Keys + {q}
      && CutEffect(W, sh, Virtual(n1, p1, a, InsertKid(n1[a], pos, SplitKey(M), q)), s1, root, addr, a, q)
  {
    SpansPages(o, W, sh, root);
    var a := sh[addr].par;
    assert W.Keys == nodes.Keys;
    CutStep(o, W, sh, root, addr, pos, q);
    CutHasEffect(o, W, sh, root, addr, a, pos, q);
    PendingUp(nodes, pend, sh, addr, a, q, pos, M, W);
    assert LegalNode(W[a]) by { assert sh[a].rank >= 0; }
    assert KindOk(o, W[a]) && sh[a].rank <= sh[root].rank by { assert Local(o, W, sh, root, a); }
    var s1 := NewShape(o, W, sh, addr, a, q, {addr});
    hide *;
    PendingBelow(nodes, pend, sh, addr, a, q, M, W, AfterSplit(W, addr, a, pos, q), s1, root);
  }

  lemma PendingBelow(nodes: map<Page, Node>, pend: map<Page, Node>, sh: Shape, addr: Page, a: Page, q: Page, M: Node,
                     W: map<Page, Node>, W2: map<Page, Node>, s1: Shape, root: Page)
    requires Pending(nodes, pend, sh, addr) && W.Keys == nodes.Keys && Saturated(M)
    requires CutEffect(W, sh, W2, s1, root, addr, a, q) && sh[a].rank <= sh[root].rank
    ensures Pending(nodes[q := SplitRight(M)], pend[addr := SplitLeft(M, q)], s1, a)
    ensures a in s1 && root in s1 && s1[root].rank - s1[a].rank < sh[root].rank - sh[addr].rank
      && s1[a].rank <= s1[root].rank
    ensures a in nodes && s1.Keys == sh.Keys + {q}
  {}

  function Reparent(nodes: map<Page, Node>, kids: seq<Page>, home: Page): map<Page, Node> {
    map p | p in nodes :: if p in kids then nodes[p].(parent := home) else nodes[p]
  }

  /** The pages after `create_root`: the old contents at `home`, an empty root, and children told of their parent. */
  function Rehome(o: Order, nodes: map<Page, Node>, page: Page, home: Page, left: Node, sibling: Page): map<Page, Node>
    requires sibling in nodes
  {
    var m := nodes[page := EmptyRoot(o, home)][home := left.(parent := page)][sibling :=
      nodes[sibling].(parent := page)];
    if IsLeaf(left) then m else Reparent(m, left.kids, home)
  }

  /** The root step: everything a re-homed root needs before it takes its one separator. */
  lemma PassRoot(o: Order, nodes: map<Page, Node>, pend: map<Page, Node>, sh: Shape, root: Page, q: Page, home: Page,
                 M: Node, W: map<Page, Node>)
    requires Pending(nodes, pend, sh, root) && W == Virtual(nodes, pend, root, M) && q !in nodes && home !in nodes
      && q != home
    requires Ready(o, W, sh, root, root) && |M.cells| == ORDER
    ensures Saturated(M) && q !in sh && home !in sh && root in nodes
    ensures
      var n2 := Rehome(o, nodes[q := SplitRight(M)], root, home, SplitLeft(M, q), q);
      var p2, s2 := pend[home := SplitLeft(M, q).(parent := root)], RootShape(o, W, sh, root, home, q);
      && n2.Keys == nodes.Keys + {q, home} && n2[root] == EmptyRoot(o, home) && Pending(n2, p2, s2, root)
      && s2.Keys == sh.Keys + {q, home}
      && Ready(o, Virtual(n2, p2, root, InsertKid(EmptyRoot(o, home), 0, SplitKey(M), q)), s2, root, root)
      && Grown(o, W, sh, Virtual(n2, p2, root, InsertKid(EmptyRoot(o, home), 0, SplitKey(M), q)), s2, root, root)
      && (forall p {:trigger n2[p]} :: p in nodes && p !in sh ==> n2[p] == nodes[p])
  {
    SpansPages(o, W, sh, root);
    assert W.Keys == nodes.Keys && W[root] == M;
    assert KindOk(o, M) by { assert Local(o, W, sh, root, root); }
    var n2 := Rehome(o, nodes[q := SplitRight(M)], root, home, SplitLeft(M, q), q);
    var p2, s2 := pend[home := SplitLeft(M, q).(parent := root)], RootShape(o, W, sh, root, home, q);
    var X := Virtual(n2, p2, root, InsertKid(EmptyRoot(o, home), 0, SplitKey(M), q));
    RootKids(o, W, sh, root, home, q);
    RehomeFacts(o, nodes, pend, sh, root, q, home, M, W);
    hide Rehome, RootShape;
    RootStep(o, W, sh, root, home, q, X);
    RootReady(o, W, sh, X, s2, root, home, q);
    RootGrown(o, W, sh, X, root, home, q);
    PendingRoot(nodes, pend, sh, o, root, q, home, M, W, X, s2, n2);
  }

  lemma PendingRoot(nodes: map<Page, Node>, pend: map<Page, Node>, sh: Shape, o: Order, root: Page, q: Page, home: Page,
                    M: Node, W: map<Page, Node>, X: map<Page, Node>, s2: Shape, n2: map<Page, Node>)
    requires Pending(nodes, pend, sh, root) && Saturated(M) && W.Keys == nodes.Keys
    requires RootEffect(o, W, sh, X, s2, root, home, q) && n2.Keys == nodes.Keys + {q, home}
    ensures Pending(n2, pend[home := SplitLeft(M, q).(parent := root)], s2, root)
    ensures s2.Keys == sh.Keys + {q, home}
  {}

  /** Page by page, what `create_root` leaves behind. */
  lemma RehomeFacts(o: Order, nodes: map<Page, Node>, pend: map<Page, Node>, sh: Shape, root: Page, q: Page, home: Page,
                    M: Node, W: map<Page, Node>)
    requires Pending(nodes, pend, sh, root) && W == Virtual(nodes, pend, root, M) && q !in nodes && home !in nodes
      && q != home
    requires Saturated(M) && !IsLeaf(M) && W.Keys == nodes.Keys && sh.Keys <= nodes.Keys
    requires forall i {:trigger M.kids[i]} :: 0 <= i <= ORDER ==> M.kids[i] in sh && M.kids[i] != root
    ensures
      var n2 := Rehome(o, nodes[q := SplitRight(M)], root, home, SplitLeft(M, q), q);
      var p2 := pend[home := SplitLeft(M, q).(parent := root)];
      var X := Virtual(n2, p2, root, InsertKid(EmptyRoot(o, home), 0, SplitKey(M), q));
      && n2.Keys == nodes.Keys + {q, home} && n2[root] == EmptyRoot(o, home)
      && (forall p {:trigger n2[p]} :: p in nodes && p !in sh ==> n2[p] == nodes[p])
      && X.Keys == W.Keys + {home, q} && X[root].parent == NO_PAGE && Retold(W, X, root)
      && !IsLeaf(X[home]) && !IsLeaf(X[q])
      && forall x {:trigger X[x]} :: x in X ==> SameButParent(X[x], RootCut(o, W, root, home, q)[x])
  {
    RehomeAt(o, nodes, sh, root, q, home, M);
    var n2 := Rehome(o, nodes[q := SplitRight(M)], root, home, SplitLeft(M, q), q);
    VirtualRetold(o, nodes, pend, sh, root, q, home, M, W, n2);
    VirtualSame(o, nodes, pend, sh, root, q, home, M, W, n2);
    assert root in sh;
    hide Rehome, Virtual, RootCut, Retold, SplitLeft, SplitRight;
  }

  ghost predicate Rehomed(o: Order, nodes: map<Page, Node>, root: Page, q: Page, home: Page, M: Node,
                          n2: map<Page, Node>)
    requires Saturated(M) && M.kind != TableLeaf
  {
    && root in nodes && n2.Keys == nodes.Keys + {q, home} && n2[root] == EmptyRoot(o, home)
    && n2[q] == SplitRight(M).(parent := root)
    && forall x {:trigger n2[x]} :: x in nodes && x != root ==>
         n2[x] == if x in M.kids[..3] then nodes[x].(parent := home) else nodes[x]
  }

  lemma RehomeAt(o: Order, nodes: map<Page, Node>, sh: Shape, root: Page, q: Page, home: Page, M: Node)
    requires Saturated(M) && !IsLeaf(M) && root in nodes && q !in nodes && home !in nodes && q != home
      && sh.Keys <= nodes.Keys
    requires forall i {:trigger M.kids[i]} :: 0 <= i <= ORDER ==> M.kids[i] in sh && M.kids[i] != root
    ensures Rehomed(o, nodes, root, q, home, M, Rehome(o, nodes[q := SplitRight(M)], root, home, SplitLeft(M, q), q))
  {
    var kids := SplitLeft(M, q).kids;
    assert kids == M.kids[..3];
    assert forall p :: p in kids ==> p in sh && p != root;
    assert q !in kids && home !in kids && root !in kids;
  }

  lemma VirtualRetold(o: Order, nodes: map<Page, Node>, pend: map<Page, Node>, sh: Shape, root: Page, q: Page,
                      home: Page, M: Node, W: map<Page, Node>, n2: map<Page, Node>)
    requires Pending(nodes, pend, sh, root) && W == Virtual(nodes, pend, root, M) && q !in nodes && home !in nodes
      && q != home
    requires Saturated(M) && !IsLeaf(M) && W.Keys == nodes.Keys && Rehomed(o, nodes, root, q, home, M, n2)
    requires sh.Keys <= nodes.Keys
    requires forall i {:trigger M.kids[i]} :: 0 <= i <= ORDER ==> M.kids[i] in sh && M.kids[i] != root
    ensures
      var p2 := pend[home := SplitLeft(M, q).(parent := root)];
      var X := Virtual(n2, p2, root, InsertKid(EmptyRoot(o, home), 0, SplitKey(M), q));
      && X.Keys == W.Keys + {home, q} && X[root].parent == NO_PAGE && Retold(W, X, root)
      && !IsLeaf(X[home]) && !IsLeaf(X[q])
  {
    VirtualAt(nodes, pend, n2, q, home, root, SplitLeft(M, q).(parent := root),
      InsertKid(EmptyRoot(o, home), 0, SplitKey(M), q));
    assert forall x {:trigger W[x]} :: x in W && x != root ==> W[x] == if x in pend then pend[x] else nodes[x];
    assert M.kind != TableLeaf && W[root] == M;
    SplitKinds(M, q);
    hide Virtual, SplitLeft, SplitRight, Pending;
  }

  lemma VirtualSame(o: Order, nodes: map<Page, Node>, pend: map<Page, Node>, sh: Shape, root: Page, q: Page, home: Page,
                    M: Node, W: map<Page, Node>, n2: map<Page, Node>)
    requires Pending(nodes, pend, sh, root) && W == Virtual(nodes, pend, root, M) && q !in nodes && home !in nodes
      && q != home
    requires Saturated(M) && !IsLeaf(M) && W.Keys == nodes.Keys && Rehomed(o, nodes, root, q, home, M, n2)
    requires sh.Keys <= nodes.Keys
    requires forall i {:trigger M.kids[i]} :: 0 <= i <= ORDER ==> M.kids[i] in sh && M.kids[i] != root
    ensures
      var p2 := pend[home := SplitLeft(M, q).(parent := root)];
      var X := Virtual(n2, p2, root, InsertKid(EmptyRoot(o, home), 0, SplitKey(M), q));
      X.Keys == W.Keys + {home, q}
      && forall x {:trigger X[x]} :: x in X ==> SameButParent(X[x], RootCut(o, W, root, home, q)[x])
  {
    hide *;
    InteriorKinds(M, home, o);
    PendedAt(nodes, pend, sh, root, M, W);
    RehomedAt(o, nodes, root, q, home, M, n2);
    VirtualAt(nodes, pend, n2, q, home, root, SplitLeft(M, q).(parent := root),
      InsertKid(EmptyRoot(o, home), 0, SplitKey(M), q));
    SplitKinds(M, q);
    RootCutAt(o, W, root, home, q);
    var X := Virtual(n2, pend[home := SplitLeft(M, q).(parent := root)], root,
      InsertKid(EmptyRoot(o, home), 0, SplitKey(M), q));
    var C := RootCut(o, W, root, home, q);
    forall x | x in X ensures SameButParent(X[x], C[x]) {
      CutPage(X, C, W, nodes, pend, n2, M, root, home, q, SplitLeft(M, q), SplitRight(M), x);
    }
  }

  lemma InteriorKinds(M: Node, home: Page, o: Order)
    ensures !IsLeaf(M) ==> M.kind != TableLeaf
    ensures |EmptyRoot(o, home).kids| == |EmptyRoot(o, home).cells| + 1
    ensures forall a: Node, b: Node {:trigger SameButParent(a, b)} :: SameButParent(a, b) <==>
      a.kind == b.kind && a.cells == b.cells && a.kids == b.kids
  {}

  lemma PendedAt(nodes: map<Page, Node>, pend: map<Page, Node>, sh: Shape, root: Page, M: Node, W: map<Page, Node>)
    requires Pending(nodes, pend, sh, root) && W == Virtual(nodes, pend, root, M)
    ensures root in nodes && root !in pend && pend.Keys <= nodes.Keys && root in W && W[root] == M
    ensures forall x {:trigger W[x]} :: x in W && x != root ==> W[x] == if x in pend then pend[x] else nodes[x]
  {}

  lemma RehomedAt(o: Order, nodes: map<Page, Node>, root: Page, q: Page, home: Page, M: Node, n2: map<Page, Node>)
    requires Saturated(M) && M.kind != TableLeaf && Rehomed(o, nodes, root, q, home, M, n2)
    ensures root in nodes && n2.Keys == nodes.Keys + {q, home} && n2[q] == SplitRight(M).(parent := root)
    ensures forall x {:trigger n2[x]} :: x in nodes && x != root ==> SameButParent(n2[x], nodes[x])
  {}

  lemma CutPage(X: map<Page, Node>, C: map<Page, Node>, W: map<Page, Node>, nodes: map<Page, Node>,
                pend: map<Page, Node>, n2: map<Page, Node>, M: Node, root: Page, home: Page, q: Page, left: Node,
                right: Node, x: Page)
    requires C.Keys == X.Keys == W.Keys + {home, q} && W.Keys == nodes.Keys && pend.Keys <= nodes.Keys && x in X
    requires root in X && home in X && q in X && C[root] == X[root]
    requires X[home] == left.(parent := root) && C[home] == left && X[q] == right.(parent := root) && C[q] == right
    requires nodes.Keys <= n2.Keys
    requires x in W && x != root ==> C[x] == W[x] && W[x] == (if x in pend then pend[x] else nodes[x])
    requires x in W && x != root ==> X[x] == (if x in pend then pend[x] else n2[x]) && SameButParent(n2[x], nodes[x])
    ensures SameButParent(X[x], C[x])
  {}

  lemma SplitKinds(n: Node, q: Page)
    requires Saturated(n)
    ensures SplitRight(n).kind == n.kind && SplitLeft(n, q).kind == n.kind
  {}

  lemma VirtualAt(nodes: map<Page, Node>, pend: map<Page, Node>, n2: map<Page, Node>, q: Page, home: Page, root: Page,
                  left: Node, r: Node)
    requires pend.Keys <= nodes.Keys && n2.Keys == nodes.Keys + {q, home} && root in nodes && root !in pend
    requires q !in nodes && home !in nodes && q != home
    ensures var X := Virtual(n2, pend[home := left], root, r);
      && X.Keys == nodes.Keys + {q, home} && X[root] == r && X[home] == left && X[q] == n2[q]
      && forall x {:trigger X[x]} :: x in nodes && x != root ==> X[x] == if x in pend then pend[x] else n2[x]
  {}

  lemma RootCutAt(o: Order, W: map<Page, Node>, root: Page, home: Page, q: Page)
    requires root in W && Saturated(W[root]) && home !in W && q !in W && q != home
    ensures var C, M := RootCut(o, W, root, home, q), W[root];
      && C.Keys == W.Keys + {home, q}
      && (forall x {:trigger C[x]} :: x in W && x != root ==> C[x] == W[x])
      && C[home] == SplitLeft(M, q) && C[q] == SplitRight(M)
      && C[root] == InsertKid(EmptyRoot(o, home), 0, SplitKey(M), q)
  {}

  lemma FramedUp(n0: map<Page, Node>, live0: set<Page>, q: Page, right: Node, n2: map<Page, Node>, addr: Page,
                 left: Node, sh: Shape, s1: Shape, s': Shape)
    requires Framed(n0[q := right], live0 + {q}, n2, s1, s') && s1.Keys == sh.Keys + {q} && q !in sh && q !in n0
      && q !in live0
    requires addr in n0 && addr in sh && s1.Keys <= s'.Keys
    ensures Framed(n0, live0, n2[addr := left], sh, s')
  {
    var n3 := n2[addr := left];
    assert addr in n2;
    assert n3.Keys == n0.Keys + (s'.Keys - sh.Keys);
    forall p | p in s' && p !in sh ensures p !in live0 {
      if p != q { assert p !in s1; }
    }
  }

  lemma FramedRoot(n0: map<Page, Node>, live0: set<Page>, q: Page, home: Page, n2: map<Page, Node>, n3: map<Page, Node>,
                   left: Node, sh: Shape, s2: Shape)
    requires n2.Keys == n0.Keys + {q, home} && s2.Keys == sh.Keys + {q, home}
    requires q !in sh && home !in sh && q !in live0 && home !in live0 && sh.Keys <= n0.Keys
    requires forall p {:trigger n2[p]} :: p in n0 && p !in sh ==> n2[p] == n0[p]
    requires Framed(n2, live0 + {q, home}, n3, s2, s2) && n0.Keys <= live0
    ensures Framed(n0, live0, n3[home := left], sh, s2)
  {
    assert n3.Keys == n2.Keys;
    assert (s2.Keys - sh.Keys) == {q, home};
    assert forall p :: p in n0 && p !in sh ==> n3[p] == n2[p] == n0[p];
  }

  // ---------------------------------------------------------------- a split leaf

  /** Where a saturated leaf's separator may go: to its real parent, or to the root when the leaf is the rightmost
      one. */
  ghost predicate Upward(o: Order, W: map<Page, Node>, sh: Shape, root: Page, l: Page, a: Page) {
    && l in sh && a in sh && root in sh && l != root
    && (a == sh[l].par || (o.Natural? && a == root && sh[l].hi == sh[root].hi))
    && Parented(W, sh, root, sh[a].rank)
  }

  ghost function LeafSpine(sh: Shape, root: Page, l: Page, a: Page): set<Page>
    requires l in sh && root in sh
  {
    if a == sh[l].par then {l} else RightEdge(sh, root)
  }

  lemma LeafCut(o: Order, W: map<Page, Node>, sh: Shape, root: Page, l: Page, a: Page, q: Page) returns (pos: nat)
    requires Tree(o, W, sh, root) && Upward(o, W, sh, root, l, a) && l in W && IsLeaf(W[l]) && |W[l].cells| == ORDER
    requires LegalBut(W, sh, {l}) && q !in sh && q !in W
    ensures Saturated(W[l]) && a in W && !IsLeaf(W[a]) && KindOk(o, W[a]) && |W[a].cells| < ORDER
    ensures PosFor(o, W[a], pos, SplitKey(W[l]))
    ensures SplitReady(o, W, sh, root, l, a, pos, q, LeafSpine(sh, root, l, a))
  {
    assert Local(o, W, sh, root, l) && Local(o, W, sh, root, a);
    if a == sh[l].par {
      pos := ParentSlot(o, W, sh, root, l);
      CutReady(o, W, sh, root, l, pos, q);
    } else {
      pos := |W[root].cells|;
      RightCutReady(W, sh, root, l, q);
      RightPlace(W, sh, root, l, q);
    }
    assert LegalNode(W[a]) by { assert sh[a].rank >= 0; }
  }

  lemma RightPlace(W: map<Page, Node>, sh: Shape, root: Page, l: Page, q: Page)
    requires Tree(Natural, W, sh, root) && root in W && l in W && Saturated(W[l])
    requires SplitReady(Natural, W, sh, root, l, root, |W[root].cells|, q, RightEdge(sh, root))
    ensures PosFor(Natural, W[root], |W[root].cells|, SplitKey(W[l]))
  {
    hide *;
    SpansPages(Natural, W, sh, root);
    var pos, T := |W[root].cells|, RightEdge(sh, root);
    SpineLow(Natural, W, sh, root, l, root, pos, q, T);
    RootReadyFor(Natural, W, sh, root, l, pos, q, T);
    ReadySpine(Natural, W, sh, root, l, root, pos, q, T, root);
    LastKid(Natural, W, sh, root, root);
    EdgeKid(W, sh, l, root, pos, T);
    PlaceAtEnd(W[root], SplitKey(W[l]));
  }

  lemma RootReadyFor(o: Order, W: map<Page, Node>, sh: Shape, root: Page, l: Page, pos: nat, q: Page, T: set<Page>)
    requires SplitReady(o, W, sh, root, l, root, pos, q, T)
    ensures root in sh && root in W && !IsLeaf(W[root])
  {
    hide Tree, SpineOk;
  }

  lemma EdgeKid(W: map<Page, Node>, sh: Shape, l: Page, a: Page, pos: nat, T: set<Page>)
    requires l in sh && a in W && SpineOk(W, sh, l, a, pos, T)
    ensures pos < |W[a].kids| && W[a].kids[pos] in sh && sh[W[a].kids[pos]].lo <= sh[l].lo
  {}

  lemma PlaceAtEnd(n: Node, key: Key)
    requires Sorted(Natural, n) && (|n.cells| > 0 ==> K(Natural, n, |n.cells| - 1) < Ord(Natural, key))
    ensures PosFor(Natural, n, |n.cells|, key)
  {
    var last := |n.cells| - 1;
    assert forall j {:trigger K(Natural, n, j)} :: 0 <= j < last ==> K(Natural, n, j) < K(Natural, n, last);
  }

  /** With the leaf cut, the page that takes the separator is ready. */
  lemma LeafCutStep(o: Order, W: map<Page, Node>, sh: Shape, root: Page, l: Page, a: Page, pos: nat, q: Page)
    requires Tree(o, W, sh, root) && Upward(o, W, sh, root, l, a) && l in W && IsLeaf(W[l]) && |W[l].cells| == ORDER
    requires LegalBut(W, sh, {l}) && q !in sh && q !in W && Saturated(W[l])
    requires SplitReady(o, W, sh, root, l, a, pos, q, LeafSpine(sh, root, l, a)) && |W[a].cells| < ORDER
    ensures Ready(o, AfterSplit(W, l, a, pos, q), NewShape(o, W, sh, l, a, q, LeafSpine(sh, root, l, a)), root, a)
  {
    hide *;
    UpwardIs(o, W, sh, root, l, a);
    var T := LeafSpine(sh, root, l, a);
    SplitKeepsTree(o, W, sh, root, l, a, pos, q, T);
    LeafCutLegal(o, W, sh, root, l, a, pos, q, T);
    LeafCutParents(o, W, sh, root, l, a, pos, q, T);
    ReadyNow(o, AfterSplit(W, l, a, pos, q), NewShape(o, W, sh, l, a, q, T), root, a);
  }

  lemma UpwardIs(o: Order, W: map<Page, Node>, sh: Shape, root: Page, l: Page, a: Page)
    requires Upward(o, W, sh, root, l, a)
    ensures l in sh && a in sh && root in sh && Parented(W, sh, root, sh[a].rank)
  {}

  lemma ReadyNow(o: Order, W: map<Page, Node>, sh: Shape, root: Page, a: Page)
    requires Tree(o, W, sh, root) && a in sh && a in W && !IsLeaf(W[a]) && 1 <= |W[a].cells| <= ORDER
    requires LegalBut(W, sh, {a}) && Parented(W, sh, root, sh[a].rank)
    ensures Ready(o, W, sh, root, a)
  {}

  lemma LeafCutLegal(o: Order, W: map<Page, Node>, sh: Shape, root: Page, l: Page, a: Page, pos: nat, q: Page,
                     T: set<Page>)
    requires SplitReady(o, W, sh, root, l, a, pos, q, T) && l in W && Saturated(W[l]) && LegalBut(W, sh, {l})
      && |W[a].cells| < ORDER
    ensures var W2, s2 := AfterSplit(W, l, a, pos, q), NewShape(o, W, sh, l, a, q, T);
      a in s2 && a in W2 && !IsLeaf(W2[a]) && 1 <= |W2[a].cells| <= ORDER && LegalBut(W2, s2, {a})
    ensures a in W && pos <= |W[a].cells| && |W[a].kids| == |W[a].cells| + 1
  {
    SplitPartsLegal(W[l], q);
    hide Tree, SplitLeft, SplitRight, SpineOk, LegalNode;
    assert W[a].kids == W[a].kids && sh[a] == sh[a];
    var W2, s2 := AfterSplit(W, l, a, pos, q), NewShape(o, W, sh, l, a, q, T);
    forall p | p in s2 && p in W2 && p !in {a} ensures LegalNode(W2[p]) {
      if p != l && p != q { assert sh[p] == sh[p]; }
    }
  }

  lemma LeafCutParents(o: Order, W: map<Page, Node>, sh: Shape, root: Page, l: Page, a: Page, pos: nat, q: Page,
                       T: set<Page>)
    requires SplitReady(o, W, sh, root, l, a, pos, q, T) && l in W && IsLeaf(W[l]) && Parented(W, sh, root, sh[a].rank)
    ensures var W2, s2 := AfterSplit(W, l, a, pos, q), NewShape(o, W, sh, l, a, q, T);
      a in s2 && Parented(W2, s2, root, s2[a].rank)
  {
    var W2, s2 := AfterSplit(W, l, a, pos, q), NewShape(o, W, sh, l, a, q, T);
    hide Tree, SplitLeft, SplitRight, SpineOk, SplitKey;
    forall p | p in s2 && p in W2 && s2[p].rank >= s2[a].rank
      ensures W2[p].parent == if p == root then NO_PAGE else s2[p].par
    {
      assert p in sh && sh[p].rank >= sh[a].rank;
    }
  }

  /** Another leaf after an insert: same span, same cells and right neighbour, and the same stored parent on the right
      edge. */
  predicate LeafKept(n0: map<Page, Node>, sh: Shape, n1: map<Page, Node>, sh': Shape, root: Page, x: Page)
    requires x in sh && root in sh
  {
    && x in sh' && x in n0 && x in n1
    && sh'[x].lo == sh[x].lo && sh'[x].hi == sh[x].hi && SameButParent(n1[x], n0[x])
    && (sh[x].hi == sh[root].hi ==> n1[x].parent == n0[x].parent)
  }

  /** The two halves of the leaf that `m` was, at `lp` and `q`. */
  ghost predicate Halves(o: Order, sh: Shape, l: Page, m: Node, n1: map<Page, Node>, sh': Shape, lp: Page, q: Page)
    requires Saturated(m) && l in sh
  {
    && lp in sh' && q in sh' && lp != q && lp in n1 && q in n1
    && SameButParent(n1[lp], SplitLeft(m, q)) && SameButParent(n1[q], SplitRight(m))
    && sh'[lp].lo == sh[l].lo && sh'[lp].hi == Ord(o, SplitKey(m))
    && sh'[q].lo == Ord(o, SplitKey(m)) + Gap(o) && sh'[q].hi == sh[l].hi
  }

  /** One key inserted at leaf `l`, whose new contents are `m`: either `l` has room, or its halves are at `lp` and
      `q`. */
  ghost predicate LeafDone(o: Order, n0: map<Page, Node>, live0: set<Page>, sh: Shape, n1: map<Page, Node>, sh': Shape,
                           root: Page, l: Page, m: Node, lp: Page, q: Page) {
    && l in sh && root in sh && l in n0
    && Tree(o, n1, sh', root) && LegalBut(n1, sh', {}) && Framed(n0, live0, n1, sh, sh')
    && KeysKept(n0[l := m], sh, n1, sh')
    && sh.Keys <= sh'.Keys && sh'[root].lo == sh[root].lo && sh'[root].hi == sh[root].hi
    && root in n1 && n1[root].parent == NO_PAGE
    && (|m.cells| < ORDER ==> n1 == n0[l := m] && sh' == sh)
    && (|m.cells| == ORDER ==>
          && Saturated(m) && Halves(o, sh, l, m, n1, sh', lp, q)
          && q !in sh && (if l == root then lp !in sh else lp == l)
          && !IsLeaf(n1[root])
          && (sh[l].hi == sh[root].hi ==> n1[q].parent == if l == root then root else m.parent)
          && (forall x {:trigger LeafKept(n0, sh, n1, sh', root, x)} ::
               x in sh && x in n0 && x != l && IsLeaf(n0[x]) ==>
                LeafKept(n0, sh, n1, sh', root, x))
          && (forall x {:trigger NewInterior(n0, n1, x)} :: x in sh' && x !in sh && x != lp && x != q ==>
               NewInterior(n0, n1, x))
          && (forall x {:trigger StillInterior(n0, n1, x)} :: x in sh ==> StillInterior(n0, n1, x)))
  }

  lemma LeafDoneRoom(o: Order, n0: map<Page, Node>, live0: set<Page>, sh: Shape, root: Page, l: Page, m: Node)
    requires l in sh && l in n0 && IsLeaf(n0[l]) && IsLeaf(m) && |m.cells| < ORDER
      && (l == root ==> m.parent == NO_PAGE)
    requires Tree(o, n0[l := m], sh, root) && LegalBut(n0, sh, {}) && root in n0 && n0[root].parent == NO_PAGE
    ensures LeafDone(o, n0, live0, sh, n0[l := m], sh, root, l, m, l, l)
  {
    assert sh.Keys - sh.Keys == {};
  }

  lemma {:induction false} RootInterior(o: Order, V: map<Page, Node>, sh: Shape, root: Page, p: Page)
    requires Tree(o, V, sh, root) && p in sh && p != root
    ensures root in V && !IsLeaf(V[root])
    decreases sh[root].rank - sh[p].rank
  {
    assert Local(o, V, sh, root, p);
    var i := ParentSlot(o, V, sh, root, p);
    if sh[p].par != root {
      assert Local(o, V, sh, root, sh[p].par);
      RootInterior(o, V, sh, root, sh[p].par);
    }
  }

  /** What cutting the leaf `l` below `a` changes on the graph. */
  ghost predicate LeafCutDone(o: Order, n0: map<Page, Node>, sh: Shape, X: map<Page, Node>, s2: Shape, root: Page,
                              l: Page, a: Page, q: Page, m: Node)
  {
    && Saturated(m) && IsLeaf(m) && l in sh && l in n0 && root in sh && l != root && a in sh && sh.Keys <= n0.Keys
    && q !in n0 && q !in sh
    && a != l && a != q && a in X && !IsLeaf(X[a]) && IsLeaf(n0[l])
    && X.Keys == n0.Keys + {q} && s2.Keys == sh.Keys + {q} && KeysKept(n0[l := m], sh, X, s2)
    && X[l] == SplitLeft(m, q) && X[q] == SplitRight(m)
    && s2[root].lo == sh[root].lo && s2[root].hi == sh[root].hi
    && s2[l].lo == sh[l].lo && s2[l].hi == Ord(o, SplitKey(m)) && s2[q].lo == Ord(o, SplitKey(m)) + Gap(o)
    && s2[q].hi == sh[l].hi
    && (forall x {:trigger X[x]} :: x in n0 && x != l && x != a ==> X[x] == n0[x])
    && (forall x {:trigger s2[x]} :: x in sh && x in n0 && x != l && IsLeaf(n0[x]) ==> s2[x] == sh[x] && x != a)
  }

  lemma LeafCutHasDone(o: Order, n0: map<Page, Node>, sh: Shape, root: Page, l: Page, a: Page, pos: nat, q: Page,
                       m: Node)
    requires l in n0 && IsLeaf(n0[l]) && l in sh && l != root && IsLeaf(m) && |m.cells| == ORDER && Saturated(m)
      && root in sh && q !in n0
    requires var W := n0[l := m]; SplitReady(o, W, sh, root, l, a, pos, q, LeafSpine(sh, root, l, a))
    requires a == sh[l].par || (o.Natural? && sh[l].hi == sh[root].hi)
    ensures var W, T := n0[l := m], LeafSpine(sh, root, l, a);
      LeafCutDone(o, n0, sh, AfterSplit(W, l, a, pos, q), NewShape(o, W, sh, l, a, q, T), root, l, a, q, m)
  {
    hide *;
    LeafCutOthers(o, n0, sh, root, l, a, pos, q, m);
    LeafCutKeys(o, n0, sh, root, l, a, pos, q, m);
    LeafCutPages(o, n0, sh, root, l, a, pos, q, m);
    var T := LeafSpine(sh, root, l, a);
    LeafCutNow(o, n0, sh, AfterSplit(n0[l := m], l, a, pos, q), NewShape(o, n0[l := m], sh, l, a, q, T), root, l, a, q,
      m);
  }

  lemma LeafCutNow(o: Order, n0: map<Page, Node>, sh: Shape, X: map<Page, Node>, s2: Shape, root: Page, l: Page,
                   a: Page, q: Page, m: Node)
    requires Saturated(m) && IsLeaf(m) && l in sh && l in n0 && root in sh && l != root && a in sh && sh.Keys <= n0.Keys
      && q !in n0 && q !in sh
    requires a != l && a != q && a in X && !IsLeaf(X[a]) && IsLeaf(n0[l])
    requires X.Keys == n0.Keys + {q} && s2.Keys == sh.Keys + {q} && KeysKept(n0[l := m], sh, X, s2)
    requires X[l] == SplitLeft(m, q) && X[q] == SplitRight(m)
    requires s2[root].lo == sh[root].lo && s2[root].hi == sh[root].hi
    requires s2[l].lo == sh[l].lo && s2[l].hi == Ord(o, SplitKey(m)) && s2[q].lo == Ord(o, SplitKey(m)) + Gap(o)
      && s2[q].hi == sh[l].hi
    requires forall x {:trigger X[x]} :: x in n0 && x != l && x != a ==> X[x] == n0[x]
    requires forall x {:trigger s2[x]} :: x in sh && x in n0 && x != l && IsLeaf(n0[x]) ==> s2[x] == sh[x] && x != a
    ensures LeafCutDone(o, n0, sh, X, s2, root, l, a, q, m)
  {
    hide KeysKept, SplitLeft, SplitRight, SplitKey;
  }

  lemma LeafCutKeys(o: Order, n0: map<Page, Node>, sh: Shape, root: Page, l: Page, a: Page, pos: nat, q: Page, m: Node)
    requires l in n0 && l in sh && Saturated(m) && root in sh && q !in n0
    requires var W := n0[l := m]; SplitReady(o, W, sh, root, l, a, pos, q, LeafSpine(sh, root, l, a))
    ensures var W, T := n0[l := m], LeafSpine(sh, root, l, a);
      KeysKept(W, sh, AfterSplit(W, l, a, pos, q), NewShape(o, W, sh, l, a, q, T))
  {
    var W, T := n0[l := m], LeafSpine(sh, root, l, a);
    var s2 := NewShape(o, W, sh, l, a, q, T);
    assert |W[a].kids| == |W[a].cells| + 1 && s2.Keys == sh.Keys + {q};
    hide Tree, SpineOk, SplitLeft, SplitRight, KeysKept, AfterSplit, NewShape, LeafSpine;
    SplitKeepsKeys(W, sh, l, a, pos, q, s2);
  }

  lemma LeafCutPages(o: Order, n0: map<Page, Node>, sh: Shape, root: Page, l: Page, a: Page, pos: nat, q: Page, m: Node)
    requires l in n0 && IsLeaf(n0[l]) && l in sh && l != root && IsLeaf(m) && |m.cells| == ORDER && Saturated(m)
      && root in sh && q !in n0
    requires var W := n0[l := m]; SplitReady(o, W, sh, root, l, a, pos, q, LeafSpine(sh, root, l, a))
    ensures var W, T := n0[l := m], LeafSpine(sh, root, l, a);
      var X, s2 := AfterSplit(W, l, a, pos, q), NewShape(o, W, sh, l, a, q, T);
      && a in sh && a in W && pos <= |W[a].cells| && |W[a].kids| == |W[a].cells| + 1
      && sh.Keys <= n0.Keys && q !in sh && a != l && a != q && a in X && !IsLeaf(X[a])
      && X.Keys == n0.Keys + {q} && s2.Keys == sh.Keys + {q} && X[l] == SplitLeft(m, q) && X[q] == SplitRight(m)
      && s2[root].lo == sh[root].lo && s2[root].hi == sh[root].hi
      && s2[l].lo == sh[l].lo && s2[l].hi == Ord(o, SplitKey(m)) && s2[q].lo == Ord(o, SplitKey(m)) + Gap(o)
      && s2[q].hi == sh[l].hi
      && forall x {:trigger X[x]} :: x in n0 && x != l && x != a ==> X[x] == n0[x]
  {
    var W, T := n0[l := m], LeafSpine(sh, root, l, a);
    SpansPages(o, W, sh, root);
    assert l in T;
    hide Tree, SplitLeft, SplitRight;
  }

  lemma LeafCutOthers(o: Order, n0: map<Page, Node>, sh: Shape, root: Page, l: Page, a: Page, pos: nat, q: Page,
                      m: Node)
    requires l in n0 && IsLeaf(n0[l]) && l in sh && l != root && IsLeaf(m) && |m.cells| == ORDER && Saturated(m)
      && root in sh && q !in n0
    requires var W := n0[l := m]; SplitReady(o, W, sh, root, l, a, pos, q, LeafSpine(sh, root, l, a))
    requires a == sh[l].par || (o.Natural? && sh[l].hi == sh[root].hi)
    ensures var W, T := n0[l := m], LeafSpine(sh, root, l, a);
      var s2 := NewShape(o, W, sh, l, a, q, T);
      forall x {:trigger s2[x]} :: x in sh && x in n0 && x != l && IsLeaf(n0[x]) ==> s2[x] == sh[x] && x != a
  {
    var W, T := n0[l := m], LeafSpine(sh, root, l, a);
    var s2 := NewShape(o, W, sh, l, a, q, T);
    forall x | x in sh && x in n0 && x != l && IsLeaf(n0[x]) ensures s2[x] == sh[x] && x != a {
      if a != sh[l].par && x in RightEdge(sh, root) { RightEdgeNested(W, sh, root, l, x); }
    }
  }

  lemma LeafDoneBelow(o: Order, n0: map<Page, Node>, live0: set<Page>, sh: Shape, X: map<Page, Node>, s2: Shape,
                      root: Page, l: Page, a: Page, q: Page, m: Node, n2: map<Page, Node>, s': Shape)
    requires LeafCutDone(o, n0, sh, X, s2, root, l, a, q, m)
    requires Grown(o, X, s2, n2[l := SplitLeft(m, q)], s', root, a)
    requires Framed(n0[q := SplitRight(m)], live0 + {q}, n2, s2, s')
    requires q !in live0 && n0.Keys <= live0
    ensures LeafDone(o, n0, live0, sh, n2[l := SplitLeft(m, q)], s', root, l, m, l, q)
  {
    hide *;
    assert Saturated(m) by { CutIsFull(o, n0, sh, X, s2, root, l, a, q, m); }
    var n3 := n2[l := SplitLeft(m, q)];
    BelowFacts(o, n0, sh, X, s2, root, l, a, q, m, n3, s');
    BelowHalves(o, n0, sh, X, s2, root, l, a, q, m, n3, s');
    FramedUp(n0, live0, q, SplitRight(m), n2, l, SplitLeft(m, q), sh, s2, s');
    RootInterior(o, n3, s', root, l);
    KeysThrough(n0[l := m], sh, X, s2, n3, s');
    OtherLeaves(o, n0, sh, X, s2, root, l, a, q, m, n3, s');
    LeafDoneNow(o, n0, live0, sh, n3, s', root, l, m, q);
  }

  lemma CutIsFull(o: Order, n0: map<Page, Node>, sh: Shape, X: map<Page, Node>, s2: Shape, root: Page, l: Page, a: Page,
                  q: Page, m: Node)
    requires LeafCutDone(o, n0, sh, X, s2, root, l, a, q, m)
    ensures Saturated(m)
  {}

  lemma BelowFacts(o: Order, n0: map<Page, Node>, sh: Shape, X: map<Page, Node>, s2: Shape, root: Page, l: Page,
                   a: Page, q: Page, m: Node, n3: map<Page, Node>, s': Shape)
    requires LeafCutDone(o, n0, sh, X, s2, root, l, a, q, m) && Grown(o, X, s2, n3, s', root, a)
    ensures l in sh && l in n0 && root in sh && l != root && Saturated(m) && q !in sh && q !in n0
      && s2.Keys == sh.Keys + {q}
    ensures Tree(o, n3, s', root) && LegalBut(n3, s', {}) && s2.Keys <= s'.Keys && sh.Keys <= s'.Keys && l in s'
      && l in n3
    ensures root in s' && s'[root].lo == sh[root].lo && s'[root].hi == sh[root].hi && root in n3
      && n3[root].parent == NO_PAGE
    ensures KeysKept(n0[l := m], sh, X, s2) && KeysKept(X, s2, n3, s')
  {
    hide Tree, LegalBut, KeysKept, SplitLeft, SplitRight, Kept, Fixed, NewInterior, LastKidStale;
    assert StillInterior(X, n3, l);
  }

  /** The cascade above leaves the two halves where they are. */
  lemma BelowHalves(o: Order, n0: map<Page, Node>, sh: Shape, X: map<Page, Node>, s2: Shape, root: Page, l: Page,
                    a: Page, q: Page, m: Node, n3: map<Page, Node>, s': Shape)
    requires LeafCutDone(o, n0, sh, X, s2, root, l, a, q, m) && Grown(o, X, s2, n3, s', root, a)
    ensures Saturated(m) && l in sh && root in sh && Halves(o, sh, l, m, n3, s', l, q)
    ensures q in n3 && (sh[l].hi == sh[root].hi ==> n3[q].parent == m.parent)
  {
    SplitKinds(m, q);
    SplitParents(m, q);
    hide Tree, LegalBut, KeysKept, SplitLeft, SplitRight, Fixed, NewInterior, StillInterior, LastKidStale;
    assert Kept(X, s2, n3, s', root, l) && Kept(X, s2, n3, s', root, q);
  }

  lemma LeafDoneNow(o: Order, n0: map<Page, Node>, live0: set<Page>, sh: Shape, n1: map<Page, Node>, sh': Shape,
                    root: Page, l: Page, m: Node, q: Page)
    requires l in sh && l in n0 && root in sh && l != root && Saturated(m) && q !in sh && sh.Keys <= sh'.Keys
    requires Tree(o, n1, sh', root) && LegalBut(n1, sh', {}) && Framed(n0, live0, n1, sh, sh')
      && KeysKept(n0[l := m], sh, n1, sh')
    requires root in sh' && sh'[root].lo == sh[root].lo && sh'[root].hi == sh[root].hi && root in n1
      && n1[root].parent == NO_PAGE && !IsLeaf(n1[root])
    requires Halves(o, sh, l, m, n1, sh', l, q) && q in n1 && (sh[l].hi == sh[root].hi ==> n1[q].parent == m.parent)
    requires forall x {:trigger LeafKept(n0, sh, n1, sh', root, x)} :: x in sh && x in n0 && x != l && IsLeaf(n0[x]) ==>
      LeafKept(n0, sh, n1, sh', root, x)
    requires forall x {:trigger NewInterior(n0, n1, x)} :: x in sh' && x !in sh && x != l && x != q ==>
      NewInterior(n0, n1, x)
    requires forall x {:trigger StillInterior(n0, n1, x)} :: x in sh ==> StillInterior(n0, n1, x)
    ensures LeafDone(o, n0, live0, sh, n1, sh', root, l, m, l, q)
  {
    hide Tree, LegalBut, Framed, KeysKept, Halves, LeafKept, NewInterior, StillInterior;
  }

  /** What the cascade above a cut leaf leaves of every other page. */
  lemma OtherLeaves(o: Order, n0: map<Page, Node>, sh: Shape, X: map<Page, Node>, s2: Shape, root: Page, l: Page,
                    a: Page, q: Page, m: Node, n3: map<Page, Node>, s': Shape)
    requires LeafCutDone(o, n0, sh, X, s2, root, l, a, q, m) && Grown(o, X, s2, n3, s', root, a)
    ensures forall x {:trigger LeafKept(n0, sh, n3, s', root, x)} :: x in sh && x in n0 && x != l && IsLeaf(n0[x]) ==>
      LeafKept(n0, sh, n3, s', root, x)
    ensures forall x {:trigger NewInterior(n0, n3, x)} :: x in s' && x !in sh && x != l && x != q ==>
      NewInterior(n0, n3, x)
    ensures forall x {:trigger StillInterior(n0, n3, x)} :: x in sh ==> StillInterior(n0, n3, x)
  {
    hide KeysKept, Tree, SplitLeft, SplitRight, LegalBut;
    forall x | x in sh && x in n0 && x != l && IsLeaf(n0[x]) ensures LeafKept(n0, sh, n3, s', root, x) {
      assert X[x] == n0[x] && s2[x] == sh[x];
      assert Kept(X, s2, n3, s', root, x);
    }
    forall x | x in s' && x !in sh && x != q ensures NewInterior(n0, n3, x) {
      assert NewInterior(X, n3, x);
    }
    forall x | x in sh ensures StillInterior(n0, n3, x) {
      assert StillInterior(X, n3, x);
    }
  }

  lemma SplitParents(n: Node, q: Page)
    requires Saturated(n)
    ensures SplitRight(n).parent == n.parent && SplitLeft(n, q).parent == n.parent
  {}

  // ---------------------------------------------------------------- a split root leaf

  /** The graph after the root, while a leaf, was split. */
  ghost function LeafRootGraph(o: Order, n0: map<Page, Node>, root: Page, q: Page, home: Page, m: Node): map<Page, Node>
    requires Saturated(m)
  {
    n0[root := InsertKid(EmptyRoot(o, home), 0, SplitKey(m), q)][home := SplitLeft(m, q).(parent := root)][q :=
      SplitRight(m).(parent := root)]
  }

  lemma LeafRootStep(o: Order, n0: map<Page, Node>, sh: Shape, root: Page, q: Page, home: Page, m: Node)
    returns (s2: Shape)
    requires Tree(o, n0[root := m], sh, root) && root in n0 && IsLeaf(m) && |m.cells| == ORDER
      && LegalBut(n0[root := m], sh, {root})
    requires q !in n0 && home !in n0 && q != home
    ensures Saturated(m) && root in sh && sh.Keys <= n0.Keys && q !in sh && home !in sh
    ensures RootEffect(o, n0[root := m], sh, LeafRootGraph(o, n0, root, q, home, m), s2, root, home, q)
    ensures Halves(o, sh, root, m, LeafRootGraph(o, n0, root, q, home, m), s2, home, q)
  {
    var W := n0[root := m];
    SpansPages(o, W, sh, root);
    assert Local(o, W, sh, root, root);
    var X := LeafRootGraph(o, n0, root, q, home, m);
    s2 := RootShape(o, W, sh, root, home, q);
    assert Halves(o, sh, root, m, X, s2, home, q) by { hide Tree, Local; }
    LeafRootCut(o, n0, root, q, home, m);
    hide LeafRootGraph, RootCut, RootShape, Tree, Halves, Local;
    RootStep(o, W, sh, root, home, q, X);
  }

  lemma LeafRootCut(o: Order, n0: map<Page, Node>, root: Page, q: Page, home: Page, m: Node)
    requires Saturated(m) && root in n0 && q !in n0 && home !in n0 && q != home
    ensures var W, X := n0[root := m], LeafRootGraph(o, n0, root, q, home, m);
      && X.Keys == W.Keys + {home, q} && X[root].parent == NO_PAGE
      && forall x {:trigger X[x]} :: x in X ==> SameButParent(X[x], RootCut(o, W, root, home, q)[x])
  {
    RootCutAt(o, n0[root := m], root, home, q);
    hide RootCut, SplitLeft, SplitRight;
  }

  lemma LeafRootPass(o: Order, n0: map<Page, Node>, sh: Shape, s2: Shape, root: Page, q: Page, home: Page, m: Node)
    requires Saturated(m) && IsLeaf(m) && root in sh && root in n0 && sh.Keys <= n0.Keys && q !in n0 && home !in n0
      && q != home
    requires RootEffect(o, n0[root := m], sh, LeafRootGraph(o, n0, root, q, home, m), s2, root, home, q)
    ensures
      var n2 := Rehome(o, n0[q := SplitRight(m)], root, home, SplitLeft(m, q), q);
      var p2 := map[home := SplitLeft(m, q).(parent := root)];
      && Pending(n2, p2, s2, root) && n2[root] == EmptyRoot(o, home) && home in n2
      && Virtual(n2, p2, root, InsertKid(EmptyRoot(o, home), 0, SplitKey(m), q))
           == LeafRootGraph(o, n0, root, q, home, m)
      && Ready(o, LeafRootGraph(o, n0, root, q, home, m), s2, root, root)
      && n2.Keys == n0.Keys + {q, home} && (forall p {:trigger n2[p]} :: p in n0 && p != root ==> n2[p] == n0[p])
  {
    LeafRootMaps(o, n0, root, q, home, m);
    RootReady(o, n0[root := m], sh, LeafRootGraph(o, n0, root, q, home, m), s2, root, home, q);
    hide Ready, Tree, Rehome, LeafRootGraph, Virtual, SplitLeft, SplitRight, SplitKey;
  }

  lemma LeafRootMaps(o: Order, n0: map<Page, Node>, root: Page, q: Page, home: Page, m: Node)
    requires Saturated(m) && IsLeaf(m) && root in n0 && q !in n0 && home !in n0 && q != home
    ensures
      var n2 := Rehome(o, n0[q := SplitRight(m)], root, home, SplitLeft(m, q), q);
      var p2 := map[home := SplitLeft(m, q).(parent := root)];
      && n2[root] == EmptyRoot(o, home) && home in n2
      && Virtual(n2, p2, root, InsertKid(EmptyRoot(o, home), 0, SplitKey(m), q))
           == LeafRootGraph(o, n0, root, q, home, m)
      && n2.Keys == n0.Keys + {q, home} && (forall p {:trigger n2[p]} :: p in n0 && p != root ==> n2[p] == n0[p])
  {
    SplitKinds(m, q);
    hide SplitLeft, SplitRight;
  }

  lemma LeafRootDone(o: Order, n0: map<Page, Node>, live0: set<Page>, sh: Shape, s2: Shape, root: Page, q: Page,
                     home: Page, m: Node, n2: map<Page, Node>, n3: map<Page, Node>, s': Shape)
    requires Saturated(m) && IsLeaf(m) && root in sh && root in n0 && sh.Keys == {root} && q !in live0 && home !in live0
      && q != home && n0.Keys <= live0
    requires var X := LeafRootGraph(o, n0, root, q, home, m);
      && RootEffect(o, n0[root := m], sh, X, s2, root, home, q)
      && Halves(o, sh, root, m, X, s2, home, q)
      && Grown(o, X, s2, n3 + map[home := SplitLeft(m, q).(parent := root)], s', root, root)
    requires n2.Keys == n0.Keys + {q, home} && (forall p {:trigger n2[p]} :: p in n0 && p != root ==> n2[p] == n0[p])
    requires Framed(n2, live0 + {q, home}, n3, s2, s')
    ensures LeafDone(o, n0, live0, sh, n3[home := SplitLeft(m, q).(parent := root)], s', root, root, m, home, q)
  {
    hide *;
    var X, left := LeafRootGraph(o, n0, root, q, home, m), SplitLeft(m, q).(parent := root);
    LeafRootFull(o, n0, root, q, home, m);
    NothingGrown(o, X, s2, n3 + map[home := left], s', root);
    assert n3[home := left] == n3 + map[home := left];
    TwoNewPages(o, n0[root := m], sh, X, s2, root, home, q);
    FramedRoot(n0, live0, q, home, n2, n3, left, sh, s2);
    LeafRootNow(o, n0, live0, sh, s2, root, q, home, m, X);
  }

  /** A page with room takes its separator and that is all. */
  lemma NothingGrown(o: Order, X: map<Page, Node>, s2: Shape, Y: map<Page, Node>, s': Shape, root: Page)
    requires Grown(o, X, s2, Y, s', root, root) && root in X && |X[root].cells| < ORDER
    ensures Y == X && s' == s2
  {
    hide Tree, LegalBut, KeysKept, NewInterior, StillInterior, Kept, Fixed, LastKidStale;
  }

  lemma TwoNewPages(o: Order, W: map<Page, Node>, sh: Shape, X: map<Page, Node>, s2: Shape, root: Page, home: Page,
                    q: Page)
    requires RootEffect(o, W, sh, X, s2, root, home, q)
    ensures s2.Keys == sh.Keys + {home, q} && home !in W && q !in W && q != home && sh.Keys <= W.Keys
  {
    hide Tree, LegalBut, KeysKept;
  }

  lemma LeafRootFull(o: Order, n0: map<Page, Node>, root: Page, q: Page, home: Page, m: Node)
    requires Saturated(m) && root in n0 && q !in n0 && home !in n0 && q != home
    ensures var X := LeafRootGraph(o, n0, root, q, home, m); root in X && |X[root].cells| == 1 < ORDER
  {}

  lemma LeafRootNow(o: Order, n0: map<Page, Node>, live0: set<Page>, sh: Shape, s2: Shape, root: Page, q: Page,
                    home: Page, m: Node, X: map<Page, Node>)
    requires Saturated(m) && IsLeaf(m) && root in sh && root in n0 && sh.Keys == {root} && q !in n0 && home !in n0
      && q != home
    requires X == LeafRootGraph(o, n0, root, q, home, m) && RootEffect(o, n0[root := m], sh, X, s2, root, home, q)
    requires Halves(o, sh, root, m, X, s2, home, q) && Framed(n0, live0, X, sh, s2)
    ensures LeafDone(o, n0, live0, sh, X, s2, root, root, m, home, q)
  {
    hide Tree, Halves, KeysKept, LegalBut, Framed, SplitLeft, SplitRight;
  }

  // ---------------------------------------------------------------- when the stored parents stay right

  /** Every stored parent link names the page that lists the node. */
  ghost predicate WellParented(V: map<Page, Node>, sh: Shape, root: Page) {
    Parented(V, sh, root, 0)
  }

  lemma CutKeepsParents(o: Order, W: map<Page, Node>, sh: Shape, root: Page, l: Page, a: Page, pos: nat, q: Page)
    requires l in sh && root in sh && l in W
    requires SplitReady(o, W, sh, root, l, a, pos, q, LeafSpine(sh, root, l, a)) && IsLeaf(W[l])
    requires WellParented(W, sh, root) && a == sh[l].par
    ensures WellParented(AfterSplit(W, l, a, pos, q), NewShape(o, W, sh, l, a, q, LeafSpine(sh, root, l, a)), root)
  {
    assert Local(o, W, sh, root, l);
    assert sh[l].rank >= 0;
    SplitParents(W[l], q);
    hide Tree, SpineOk, SplitLeft, SplitRight;
  }

  /** A split parent leaves its last child's link behind. */
  lemma StaleIsNotParented(o: Order, W: map<Page, Node>, sh: Shape, root: Page, l: Page, a: Page, pos: nat, q: Page,
                           V': map<Page, Node>, s': Shape)
    requires l in sh && root in sh && l in W
    requires SplitReady(o, W, sh, root, l, a, pos, q, LeafSpine(sh, root, l, a)) && IsLeaf(W[l])
    requires WellParented(W, sh, root) && a == sh[l].par && a in W
    requires var X, s2 := AfterSplit(W, l, a, pos, q), NewShape(o, W, sh, l, a, q, LeafSpine(sh, root, l, a));
      Tree(o, X, s2, root) && LastKidStale(X, V', s', a) && Tree(o, V', s', root)
    ensures !WellParented(V', s', root)
  {
    var X, s2 := AfterSplit(W, l, a, pos, q), NewShape(o, W, sh, l, a, q, LeafSpine(sh, root, l, a));
    CutKeepsParents(o, W, sh, root, l, a, pos, q);
    var c := X[a].kids[ORDER];
    assert Local(o, X, s2, root, a) && a in s2;
    assert |X[a].cells| == ORDER && KidOk(o, X[a], a, s2, ORDER);
    assert s2[c].rank >= 0;
    assert Local(o, X, s2, root, c) && Local(o, X, s2, root, root) && Local(o, V', s', root, c)
      && Local(o, V', s', root, root);
    assert X[c].parent == a;
    hide Tree, SplitReady, NewShape, AfterSplit;
  }
}
