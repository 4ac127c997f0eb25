/** Rows inserted in any key order: runs in which the stored parents stay right, and which rows a search still finds
    after a leaf was cut at a stored parent that is not, or no longer, the page that lists it. */
module TableAnyOrder {
  import opened Nodes
  import opened Codec
  import opened MemNodes
  import opened Disk
  import opened SearchTree
  import opened Cascade
  import opened PageTree
  import opened TableTree
  import opened LeafInsert
  import opened TableInsert
  import opened TableRows
  import opened TableChain
  import opened TableRun
  import opened TableScan

  // ---------------------------------------------------------------- runs

  /** The pages, those in use, and the shape of one tree. */
  datatype World = World(nodes: map<Page, Node>, live: set<Page>, sh: Shape)

  ghost function LeafOf(w: World, root: Page, key: Key): Page
    requires Tree(Natural, w.nodes, w.sh, root)
  {
    Reach(Natural, w.nodes, w.sh, root, root, key)
  }

  /** The row's leaf is full, and so is the page that lists it. */
  ghost predicate Overflows(w: World, root: Page, key: Key) {
    && Tree(Natural, w.nodes, w.sh, root)
    && var l := LeafOf(w, root, key);
       l in w.nodes && |w.nodes[l].cells| == ORDER - 1 && l != root && ParentFull(w.nodes, w.sh, l)
  }

  /** What one `insert` promises: the leaf is done, and the stored parents stay right unless the leaf overflowed into a
      full page. */
  ghost predicate Inserts(w: World, x: World, root: Page, c: Cell, lp: Page, q: Page) {
    && Insertable(w.nodes, w.sh, root, c.key, c.value) && Tree(Natural, w.nodes, w.sh, root)
    && var l := LeafOf(w, root, c.key);
       && l in w.nodes
       && LeafDone(Natural, w.nodes, w.live, w.sh, x.nodes, x.sh, root, l, WithRow(w.nodes[l], c.key, c.value), lp, q)
       && (WellParented(w.nodes, w.sh, root) ==> (WellParented(x.nodes, x.sh, root) <==> !Overflows(w, root, c.key)))
  }

  ghost predicate Step(w: World, x: World, root: Page, c: Cell) {
    exists lp, q :: Inserts(w, x, root, c, lp, q)
  }

  /** `insert` takes one step of a run. */
  method PutRow(db: Db, root: Page, c: Cell, ghost sh: Shape) returns (ghost sh': Shape)
    requires db.Valid() && Insertable(db.nodes, sh, root, c.key, c.value)
    requires db.nbPages + Climb(db.nodes, sh, root, Reach(Natural, db.nodes, sh, root, root, c.key)) + 3 < NO_PAGE
    modifies db
    ensures db.Valid() && Step(World(old(db.nodes), old(db.live), sh), World(db.nodes, db.live, sh'), root, c)
  {
    hide *;
    ghost var w := World(db.nodes, db.live, sh);
    EnterableFacts(db.nodes, sh, root, c.key, c.value);
    var ret;
    ghost var lp, q;
    ret, sh', lp, q := Insert(db, root, c.key, c.value, sh);
    StepNow(w, World(db.nodes, db.live, sh'), root, c, lp, q);
  }

  lemma StepNow(w: World, x: World, root: Page, c: Cell, lp: Page, q: Page)
    requires Insertable(w.nodes, w.sh, root, c.key, c.value) && Tree(Natural, w.nodes, w.sh, root)
    requires var l := Reach(Natural, w.nodes, w.sh, root, root, c.key);
      && l in w.nodes
      && LeafDone(Natural, w.nodes, w.live, w.sh, x.nodes, x.sh, root, l, WithRow(w.nodes[l], c.key, c.value), lp, q)
      && (WellParented(w.nodes, w.sh, root) ==>
            (WellParented(x.nodes, x.sh, root) <==>
              !(|w.nodes[l].cells| == ORDER - 1 && l != root && ParentFull(w.nodes, w.sh, l))))
    ensures Step(w, x, root, c)
  {
    hide Tree, LeafDone, Insertable, WellParented, ParentFull;
    assert Inserts(w, x, root, c, lp, q);
  }

  lemma StepFacts(w: World, x: World, root: Page, c: Cell, k: Key, v: seq<Byte>)
    requires Step(w, x, root, c)
    ensures TableOk(w.nodes, w.sh, root) && TableOk(x.nodes, x.sh, root)
    ensures HasRow(x.nodes, x.sh, k, v) <==> HasRow(w.nodes, w.sh, k, v) || Cell(k, v) == c
    ensures WellParented(w.nodes, w.sh, root) ==> (WellParented(x.nodes, x.sh, root) <==> !Overflows(w, root, c.key))
  {
    var lp, q :| Inserts(w, x, root, c, lp, q);
    var l := LeafOf(w, root, c.key);
    RowInPlace(w.nodes, w.sh, root, l, c.key, c.value);
    hide Tree, LegalBut, WithRow, WellParented, HasRow, Reach;
    InsertAddsRow(w.nodes, w.live, w.sh, x.nodes, x.sh, root, l, c.key, c.value, lp, q, k, v);
  }

  /** A run of inserts: the worlds before, between and after them. */
  ghost predicate Run(ws: seq<World>, root: Page, cs: seq<Cell>) {
    |ws| == |cs| + 1 && forall i {:trigger cs[i]} :: 0 <= i < |cs| ==> Step(ws[i], ws[i + 1], root, cs[i])
  }

  /** In any run of inserts, in any key order, the rows are the old ones and those inserted. */
  lemma {:induction false} RunAdds(ws: seq<World>, root: Page, cs: seq<Cell>, k: Key, v: seq<Byte>)
    requires |ws| == |cs| + 1 && Run(ws, root, cs)
    ensures var w, x := ws[0], ws[|cs|]; HasRow(x.nodes, x.sh, k, v) <==>
      HasRow(w.nodes, w.sh, k, v) || Cell(k, v) in cs
  {
    hide *;
    if cs != [] {
      var n := |cs| - 1;
      RunFront(ws, root, cs);
      RunAdds(ws[..n + 1], root, cs[..n], k, v);
      StepFacts(ws[n], ws[n + 1], root, cs[n], k, v);
      Snoc(cs, Cell(k, v));
    }
  }

  lemma Snoc(cs: seq<Cell>, c: Cell)
    requires cs != []
    ensures c in cs <==> c in cs[..|cs| - 1] || c == cs[|cs| - 1]
  {
    assert cs == cs[..|cs| - 1] + [cs[|cs| - 1]];
  }

  lemma RunFront(ws: seq<World>, root: Page, cs: seq<Cell>)
    requires Run(ws, root, cs) && cs != []
    ensures var n := |cs| - 1;
      |ws| == |cs| + 1 && Run(ws[..n + 1], root, cs[..n]) && Step(ws[n], ws[n + 1], root, cs[n])
  {
    var n := |cs| - 1;
    forall i | 0 <= i < n
      ensures Step(ws[..n + 1][i], ws[..n + 1][i + 1], root, cs[..n][i])
    {
      assert cs[..n][i] == cs[i];
    }
    assert cs[n] == cs[n];
  }

  /** From a well-parented tree, all stored parents stay right through a run if and only if no insert overflows a full
      leaf into a full page. */
  lemma {:induction false} RunParents(ws: seq<World>, root: Page, cs: seq<Cell>)
    requires Run(ws, root, cs) && WellParented(ws[0].nodes, ws[0].sh, root)
    ensures (forall i {:trigger ws[i]} :: 0 <= i <= |cs| ==> WellParented(ws[i].nodes, ws[i].sh, root)) <==>
      forall i {:trigger cs[i]} :: 0 <= i < |cs| ==> !Overflows(ws[i], root, cs[i].key)
  {
    hide WellParented, Overflows, Step;
    if cs != [] {
      var n := |cs| - 1;
      var vs, ds := ws[..n + 1], cs[..n];
      RunFront(ws, root, cs);
      RunParents(vs, root, ds);
      StepFacts(ws[n], ws[n + 1], root, cs[n], 0, []);
      assert forall i {:trigger vs[i]} {:trigger ws[i]} :: 0 <= i <= n ==> vs[i] == ws[i];
      assert forall i {:trigger ds[i]} {:trigger cs[i]} :: 0 <= i < n ==> ds[i] == cs[i];
    }
  }

  // ---------------------------------------------------------------- a leaf cut at a stale parent

  /** The leaf `l` with its new contents `m` is full, and `a`, which it names as its parent, is a page of the tree with
      room. */
  ghost predicate CutReadyAt(V: map<Page, Node>, sh: Shape, root: Page, l: Page, m: Node, q: Page) {
    && Tree(Natural, V, sh, root) && l in sh && l in V && V[l] == m && m.kind == TableLeaf && Saturated(m)
    && m.parent in sh && m.parent in V && m.parent != l && HasRoom(V[m.parent]) && q !in V && q !in sh
  }

  /** Descents still end: the new leaf is below everything. */
  ghost function RanksWith(sh: Shape, q: Page): map<Page, nat> {
    Ranks(sh)[q := 0]
  }

  lemma WithAt(n: Node, k: Key, q: Page)
    requires |n.kids| == |n.cells| + 1
    ensures var w, pos := WithSeparator(n, k, q), Place(n, k);
      && w.kind == n.kind && |w.cells| == |n.cells| + 1 && |w.kids| == |n.kids| + 1
      && (forall i {:trigger w.cells[i]} :: 0 <= i < |w.cells| ==>
            w.cells[i].key == if i < pos then n.cells[i].key else if i == pos then k else n.cells[i - 1].key)
      && (forall i {:trigger w.kids[i]} :: 0 <= i < |w.kids| ==>
            w.kids[i] == if i <= pos then n.kids[i] else if i == pos + 1 then q else n.kids[i - 1])
  {}

  lemma CutPagesAt(V: map<Page, Node>, sh: Shape, root: Page, l: Page, m: Node, q: Page)
    requires CutReadyAt(V, sh, root, l, m, q)
    ensures var W := CutAtParent(V, l, m, q);
      && W[l] == SplitLeft(m, q) && W[q] == SplitRight(m) && W[m.parent] == WithSeparator(V[m.parent], SplitKey(m), q)
      && W.Keys == V.Keys + {q} && forall p {:trigger W[p]} :: p in V && p != l && p != m.parent ==> W[p] == V[p]
  {
    CutPages(V, l, m, q);
  }

  lemma CutFalls(V: map<Page, Node>, sh: Shape, root: Page, l: Page, m: Node, q: Page)
    requires CutReadyAt(V, sh, root, l, m, q)
    ensures Falling(CutAtParent(V, l, m, q), RanksWith(sh, q)) && root in RanksWith(sh, q) && q in RanksWith(sh, q)
  {
    CutPagesAt(V, sh, root, l, m, q);
    TreeFalls(V, sh, root);
    SplitKinds(m, q);
    WithAt(V[m.parent], SplitKey(m), q);
    var W, rk := CutAtParent(V, l, m, q), RanksWith(sh, q);
    assert rk[m.parent] > 0 by {
      assert Local(Natural, V, sh, root, m.parent);
      assert KidOk(Natural, V[m.parent], m.parent, sh, 0);
    }
    hide CutAtParent, SplitLeft, SplitRight, WithSeparator, Tree;
    forall p | p in rk ensures p in W && Falls(W, rk, p) {
      if p != q { assert Ranks(sh)[p] >= 0 && Falls(V, Ranks(sh), p); }
    }
  }

  /** The search for `k` passes `a`, finds the new separator there not above `k`, and takes the new leaf behind it. */
  ghost predicate Diverted(V: map<Page, Node>, sh: Shape, m: Node, k: Key)
    requires m.parent in V && m.parent in sh && Saturated(m)
  {
    && Covers(Natural, sh, m.parent, k) && SplitKey(m) <= k
    && ChildFor(Natural, V[m.parent], k) == Place(V[m.parent], SplitKey(m))
  }

  lemma NewChild(n: Node, s: Key, q: Page, k: Key)
    requires |n.kids| == |n.cells| + 1 && Sorted(Natural, n)
    ensures var w, j := WithSeparator(n, s, q), ChildFor(Natural, n, k);
      && 0 <= j < |n.kids| && 0 <= ChildFor(Natural, w, k) < |w.kids|
      && w.kids[ChildFor(Natural, w, k)] == if s <= k && j == Place(n, s) then q else n.kids[j]
  {
    var w, j, pos := WithSeparator(n, s, q), ChildFor(Natural, n, k), Place(n, s);
    WithAt(n, s, q);
    BelowChild(n, k, s);
    hide *;
    ChildForIs(w, k, if s <= k then j + 1 else j);
  }

  /** How many separators are below `s`, and how many are not above `k`. */
  lemma BelowChild(n: Node, k: Key, s: Key)
    requires Sorted(Natural, n)
    ensures var j, pos := ChildFor(Natural, n, k), Place(n, s);
      && 0 <= j <= |n.cells| && pos <= |n.cells| && (if s <= k then pos <= j else j <= pos)
      && (forall i {:trigger n.cells[i]} :: 0 <= i < j ==> n.cells[i].key <= k)
      && (j < |n.cells| ==> k < n.cells[j].key)
      && (forall i {:trigger n.cells[i]} :: 0 <= i < pos ==> n.cells[i].key < s)
      && (pos < |n.cells| ==> s <= n.cells[pos].key)
  {
    assert forall i {:trigger n.cells[i]} :: 0 <= i < |n.cells| ==> n.cells[i].key == K(Natural, n, i);
  }

  /** The descent for `k` from `p` passes `a`. */
  ghost predicate Passes(V: map<Page, Node>, sh: Shape, root: Page, p: Page, a: Page, k: Key)
    requires Tree(Natural, V, sh, root) && p in sh
    decreases sh[p].rank
  {
    assert Local(Natural, V, sh, root, p);
    p == a || (!IsLeaf(V[p]) && (
      var i := ChildFor(Natural, V[p], k);
      assert KidOk(Natural, V[p], p, sh, i);
      Passes(V, sh, root, V[p].kids[i], a, k)))
  }

  /** Which is to say that `a` answers for `k`. */
  lemma {:induction false} PassesDown(V: map<Page, Node>, sh: Shape, root: Page, p: Page, a: Page, k: Key)
    requires Tree(Natural, V, sh, root) && p in sh && Covers(Natural, sh, p, k) && Passes(V, sh, root, p, a, k)
    ensures a in sh && Covers(Natural, sh, a, k)
    decreases sh[p].rank
  {
    assert Local(Natural, V, sh, root, p);
    if p != a {
      var i := ChildFor(Natural, V[p], k);
      KidSpan(Natural, V, sh, root, p, i);
      ChildForCovers(Natural, V[p], sh[p].lo, sh[p].hi, k);
      PassesDown(V, sh, root, V[p].kids[i], a, k);
    }
  }

  lemma {:induction false} PassesUp(V: map<Page, Node>, sh: Shape, root: Page, p: Page, a: Page, k: Key)
    requires Tree(Natural, V, sh, root) && p in sh && Covers(Natural, sh, p, k) && Passes(V, sh, root, p, a, k)
    ensures Passes(V, sh, root, root, a, k)
    decreases sh[root].rank - sh[p].rank
  {
    assert Local(Natural, V, sh, root, p);
    if p != root {
      var b := sh[p].par;
      assert Local(Natural, V, sh, root, b);
      var i :| 0 <= i < |V[b].kids| && V[b].kids[i] == p;
      KidSpan(Natural, V, sh, root, b, i);
      ChildForUnique(Natural, V[b], sh[b].lo, sh[b].hi, k, i);
      PassesUp(V, sh, root, b, a, k);
    }
  }

  /** Where a search ends after the cut: at the new leaf if it is diverted, and otherwise where it ended before. */
  lemma {:induction false} CutSeek(V: map<Page, Node>, sh: Shape, root: Page, l: Page, m: Node, q: Page, p: Page,
                                   k: Key)
    requires CutReadyAt(V, sh, root, l, m, q) && p in sh && Covers(Natural, sh, p, k)
    requires Falling(CutAtParent(V, l, m, q), RanksWith(sh, q))
    ensures p in RanksWith(sh, q) && Seek(CutAtParent(V, l, m, q), RanksWith(sh, q), p, k) ==
      if Passes(V, sh, root, p, m.parent, k) && Diverted(V, sh, m, k) then q else Reach(Natural, V, sh, root, p, k)
    decreases sh[p].rank
  {
    var W, rk, a := CutAtParent(V, l, m, q), RanksWith(sh, q), m.parent;
    CutPagesAt(V, sh, root, l, m, q);
    SplitKinds(m, q);
    assert Local(Natural, V, sh, root, p);
    assert rk[p] == sh[p].rank && Ranks(sh)[p] == sh[p].rank;
    SeekStep(W, rk, p, k);
    if !IsLeaf(V[p]) {
      var i := ChildFor(Natural, V[p], k);
      KidSpan(Natural, V, sh, root, p, i);
      ChildForCovers(Natural, V[p], sh[p].lo, sh[p].hi, k);
      if p == a { NewChild(V[a], SplitKey(m), q, k); SeekStep(W, rk, q, k); CutBelow(V, sh, root, a, k); }
      hide CutAtParent, SplitLeft, SplitRight, SplitKey, WithSeparator;
      CutSeek(V, sh, root, l, m, q, V[p].kids[i], k);
    }
  }

  /** A descent does not pass a page twice. */
  lemma CutBelow(V: map<Page, Node>, sh: Shape, root: Page, a: Page, k: Key)
    requires Tree(Natural, V, sh, root) && a in sh && a in V && !IsLeaf(V[a])
    ensures var i := ChildFor(Natural, V[a], k);
      i < |V[a].kids| && V[a].kids[i] in sh && !Passes(V, sh, root, V[a].kids[i], a, k)
  {
    assert Local(Natural, V, sh, root, a);
    var i := ChildFor(Natural, V[a], k);
    assert KidOk(Natural, V[a], a, sh, i);
    RankFalls(V, sh, root, V[a].kids[i], a, k);
  }

  lemma {:induction false} RankFalls(V: map<Page, Node>, sh: Shape, root: Page, p: Page, a: Page, k: Key)
    requires Tree(Natural, V, sh, root) && p in sh && a in sh && sh[p].rank < sh[a].rank
    ensures !Passes(V, sh, root, p, a, k)
    decreases sh[p].rank
  {
    assert Local(Natural, V, sh, root, p);
    if !IsLeaf(V[p]) {
      var i := ChildFor(Natural, V[p], k);
      assert KidOk(Natural, V[p], p, sh, i);
      RankFalls(V, sh, root, V[p].kids[i], a, k);
    }
  }

  /** The row went to the new leaf. */
  ghost predicate InNewHalf(V: map<Page, Node>, sh: Shape, root: Page, l: Page, m: Node, k: Key)
    requires Tree(Natural, V, sh, root) && Saturated(m)
  {
    root in sh && Reach(Natural, V, sh, root, root, k) == l && SplitKey(m) <= k
  }

  ghost predicate Found(W: map<Page, Node>, rk: map<Page, nat>, root: Page, k: Key, v: seq<Byte>) {
    Falling(W, rk) && root in rk && Cell(k, v) in W[Seek(W, rk, root, k)].cells
  }

  /** After a full leaf was cut at the page that it names as its parent, a row is found under its key if and only if the
      row moved to the new leaf exactly when the search for it is diverted there. */
  lemma FoundExactly(V: map<Page, Node>, sh: Shape, root: Page, l: Page, m: Node, q: Page, k: Key, v: seq<Byte>)
    requires CutReadyAt(V, sh, root, l, m, q) && HasRow(V, sh, k, v)
    ensures Found(CutAtParent(V, l, m, q), RanksWith(sh, q), root, k, v) <==>
      (InNewHalf(V, sh, root, l, m, k) <==> Diverted(V, sh, m, k))
  {
    var W, rk, a := CutAtParent(V, l, m, q), RanksWith(sh, q), m.parent;
    var x :| LeafWith(V, sh, x, Cell(k, v));
    RowIsReached(V, sh, root, x, Cell(k, v));
    CutFalls(V, sh, root, l, m, q);
    CutSeek(V, sh, root, l, m, q, root, k);
    CutPagesAt(V, sh, root, l, m, q);
    if Passes(V, sh, root, root, a, k) { PassesDown(V, sh, root, root, a, k); }
    if Covers(Natural, sh, a, k) { PassesUp(V, sh, root, a, a, k); }
    HalfRows(V, sh, root, l, m, q, x, k, v);
    assert !IsLeaf(V[a]);
    hide CutAtParent, SplitLeft, SplitRight, SplitKey, Seek, Reach, Passes, ChildFor, Tree;
  }

  /** Which half of the leaf, if any, holds the row. */
  lemma HalfRows(V: map<Page, Node>, sh: Shape, root: Page, l: Page, m: Node, q: Page, x: Page, k: Key, v: seq<Byte>)
    requires CutReadyAt(V, sh, root, l, m, q) && LeafWith(V, sh, x, Cell(k, v))
    ensures x == l ==> (Cell(k, v) in SplitLeft(m, q).cells <==>
      k < SplitKey(m)) && (Cell(k, v) in SplitRight(m).cells <==> SplitKey(m) <= k)
    ensures x != l ==> Cell(k, v) !in SplitRight(m).cells
  {
    SortedLeaf(V, sh, root, l);
    RowIsReached(V, sh, root, x, Cell(k, v));
    if x == l {
      var i :| 0 <= i < |m.cells| && m.cells[i] == Cell(k, v);
      assert i < 2 ==> SplitLeft(m, q).cells[i] == m.cells[i];
      assert i >= 2 ==> SplitRight(m).cells[i - 2] == m.cells[i];
    } else if Cell(k, v) in SplitRight(m).cells {
      assert LeafWith(V, sh, l, Cell(k, v));
      RowIsReached(V, sh, root, l, Cell(k, v));
    }
  }

  /** Cut at the page that really lists it, a leaf loses no row. */
  lemma RightParentFindsAll(V: map<Page, Node>, sh: Shape, root: Page, l: Page, m: Node, q: Page, k: Key, v: seq<Byte>)
    requires CutReadyAt(V, sh, root, l, m, q) && HasRow(V, sh, k, v) && l != root && m.parent == sh[l].par
    ensures Found(CutAtParent(V, l, m, q), RanksWith(sh, q), root, k, v)
  {
    FoundExactly(V, sh, root, l, m, q, k, v);
    var a, s := m.parent, SplitKey(m);
    var pos := ParentSlot(Natural, V, sh, root, l);
    assert Local(Natural, V, sh, root, l) && Local(Natural, V, sh, root, a) && Local(Natural, V, sh, root, root);
    SplitHalves(Natural, m, q, sh[l].lo, sh[l].hi);
    assert LoAt(Natural, V[a], sh[a].lo, pos) == sh[l].lo && HiAt(Natural, V[a], sh[a].hi, pos) == sh[l].hi;
    SlotIsPlace(V[a], sh[a].lo, sh[a].hi, pos, s);
    KidSpan(Natural, V, sh, root, a, pos);
    var x :| LeafWith(V, sh, x, Cell(k, v));
    RowIsReached(V, sh, root, x, Cell(k, v));
    if Covers(Natural, sh, l, k) {
      ChildForUnique(Natural, V[a], sh[a].lo, sh[a].hi, k, pos);
      ReachUnique(Natural, V, sh, root, l, k);
    }
    if Covers(Natural, sh, a, k) && ChildFor(Natural, V[a], k) == pos {
      ChildForCovers(Natural, V[a], sh[a].lo, sh[a].hi, k);
    }
    if InNewHalf(V, sh, root, l, m, k) { ReachCovers(Natural, V, sh, root, root, k); }
  }

  lemma SlotIsPlace(n: Node, lo: int, hi: int, pos: nat, s: Key)
    requires Sorted(Natural, n) && pos <= |n.cells| && LoAt(Natural, n, lo, pos) < s < HiAt(Natural, n, hi, pos)
    ensures Place(n, s) == pos
  {
    assert forall j {:trigger n.cells[j]} :: 0 <= j < |n.cells| ==> n.cells[j].key == K(Natural, n, j);
    assert forall j {:trigger n.cells[j]} :: 0 <= j < pos ==> n.cells[j].key <= K(Natural, n, pos - 1);
    PlaceIs(n, s, pos);
  }

  /** Cut at a page whose span ends before it, as after a split of the leaf's parent, a leaf loses exactly the rows of
      its right half. */
  lemma LeftSiblingLosesHalf(V: map<Page, Node>, sh: Shape, root: Page, l: Page, m: Node, q: Page, k: Key, v: seq<Byte>)
    requires CutReadyAt(V, sh, root, l, m, q) && HasRow(V, sh, k, v) && sh[m.parent].hi <= SplitKey(m)
    ensures Found(CutAtParent(V, l, m, q), RanksWith(sh, q), root, k, v) <==> !InNewHalf(V, sh, root, l, m, k)
  {
    FoundExactly(V, sh, root, l, m, q, k, v);
    hide InNewHalf, Found;
  }

  /** Inserts a row into a full leaf whose stored parent has room and is a page of the tree, the right one or not. A
      search finds an old row, or the new one, if and only if the row moved to the new leaf exactly when the search is
      diverted there. */
  method PutAtParent(db: Db, root: Page, key: Key, value: seq<Byte>, ghost sh: Shape)
    returns (ghost q: Page, ghost V: map<Page, Node>)
    requires db.Valid() && ParentTakes(db.nodes, sh, root, key, value)
    requires db.nodes[Reach(Natural, db.nodes, sh, root, root, key)].parent in sh
    requires db.nbPages + Climb(db.nodes, sh, root, Reach(Natural, db.nodes, sh, root, root, key)) + 3 < NO_PAGE
    modifies db
    ensures db.Valid() && q !in old(db.live)
    ensures var l := old(Reach(Natural, db.nodes, sh, root, root, key));
      && V == old(db.nodes[l := WithRow(db.nodes[l], key, value)]) && Tree(Natural, V, sh, root) && l in V
      && CutReadyAt(V, sh, root, l, V[l], q)
      && forall k, v {:trigger HasRow(V, sh, k, v)} :: HasRow(V, sh, k, v) ==>
           (Found(db.nodes, RanksWith(sh, q), root, k, v) <==>
             (InNewHalf(V, sh, root, l, V[l], k) <==> Diverted(V, sh, V[l], k)))
  {
    hide *;
    ghost var n0, live0 := db.nodes, db.live;
    EnterableFacts(n0, sh, root, key, value);
    ghost var l := Reach(Natural, n0, sh, root, root, key);
    ghost var m := WithRow(n0[l], key, value);
    V := n0[l := m];
    db.AllBelow();
    var ret;
    ghost var sh', lp;
    ret, sh', lp, q := Insert(db, root, key, value, sh);
    ParentCut(n0, live0, sh, root, key, value, q);
    forall k, v | HasRow(V, sh, k, v)
      ensures Found(db.nodes, RanksWith(sh, q), root, k, v) <==>
        (InNewHalf(V, sh, root, l, V[l], k) <==> Diverted(V, sh, V[l], k))
    {
      FoundExactly(V, sh, root, l, m, q, k, v);
    }
  }

  lemma ParentCut(n0: map<Page, Node>, live0: set<Page>, sh: Shape, root: Page, key: Key, value: seq<Byte>, q: Page)
    requires ParentTakes(n0, sh, root, key, value) && q !in live0 && n0.Keys <= live0
    requires n0[Reach(Natural, n0, sh, root, root, key)].parent in sh
    ensures var l := Reach(Natural, n0, sh, root, root, key);
      var m := WithRow(n0[l], key, value);
      var V := n0[l := m];
      && V[l] == m && Saturated(m) && m.parent in V && m.parent in sh && Tree(Natural, V, sh, root)
      && CutReadyAt(V, sh, root, l, m, q)
      && l in n0 && m.parent in n0 && m.parent != l && HasRoom(n0[m.parent]) && HasRoom(V[m.parent])
      && CutAtParent(n0, l, m, q) == CutAtParent(V, l, m, q)
  {
    var l := Reach(Natural, n0, sh, root, root, key);
    var m := WithRow(n0[l], key, value);
    RowInPlace(n0, sh, root, l, key, value);
    var V := n0[l := m];
    assert V[l := m] == V;
    hide Tree, LegalBut, CanHold, AfterSplit;
  }
}
