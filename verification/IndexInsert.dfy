/** Inserting a row id into the index B-tree. */
module IndexInsert {
  import opened Nodes
  import opened Codec
  import opened MemNodes
  import opened Disk
  import opened SearchTree
  import opened Cascade
  import opened PageTree
  import opened LeafInsert
  import opened Records
  import opened IndexTree

  /** The leaf where the row id belongs. */
  method FindLeaf(db: Db, root: Page, key: Key, n: nat, table: Page, ghost sh: Shape, ghost f: Field)
    returns (cursor: Cursor)
    requires db.Valid() && Tree(By(f), db.nodes, sh, root) && Known(db.nodes, sh, f)
    requires FieldIs(db.nodes, f) && Ranks(f) && key in f.value && key in f.at && n == f.n && table == f.table
    modifies db`cache, db`cacheSize
    ensures db.Valid() && fresh(cursor) && fresh(cursor.node) && fresh(cursor.node.keyVals)
      && fresh(cursor.node.childAddrs)
    ensures On(db.nodes, cursor) && cursor.page in sh && cursor.cell == 0
    ensures cursor.page == Reach(By(f), db.nodes, sh, root, root, f.at[key])
    ensures db.nodes[cursor.page].kind == IndexLeaf
  {
    hide *;
    IndexRoot(db.nodes, sh, root, f);
    ComparedAs(f, key, key);
    var keyR := FieldOf(db, key, n, table, f);
    var node := db.ReadNode(root);
    cursor := new Cursor(root, node);
    NowOn(db.nodes, cursor);
    while cursor.node.kind != TableLeaf && cursor.node.kind != IndexLeaf
      invariant db.Valid() && fresh(cursor) && fresh(cursor.node) && fresh(cursor.node.keyVals)
        && fresh(cursor.node.childAddrs)
      invariant On(db.nodes, cursor) && cursor.cell == 0 && cursor.page in sh
      invariant Reach(By(f), db.nodes, sh, root, root, f.at[key])
        == Reach(By(f), db.nodes, sh, root, cursor.page, f.at[key])
      decreases sh[cursor.page].rank
    {
      Descend(db, cursor, root, key, keyR, n, table, sh, f);
    }
    AtLeaf(db.nodes, cursor, sh, root, f, f.at[key]);
  }

  lemma IndexRoot(V: map<Page, Node>, sh: Shape, root: Page, f: Field)
    requires Tree(By(f), V, sh, root)
    ensures root in sh && root in V
  {
    assert Local(By(f), V, sh, root, root);
  }

  lemma NowOn(nodes: map<Page, Node>, cursor: Cursor)
    requires cursor.page in nodes && cursor.node.Valid() && cursor.node.Val() == nodes[cursor.page]
    ensures On(nodes, cursor)
  {}

  lemma OnFacts(nodes: map<Page, Node>, cursor: Cursor)
    requires On(nodes, cursor)
    ensures cursor.page in nodes && cursor.node.Valid() && cursor.node.Val() == nodes[cursor.page]
    ensures nodes[cursor.page].kind == cursor.node.kind
      && |nodes[cursor.page].cells| == cursor.node.nbKeys <= cursor.node.keyVals.Length
    ensures forall i {:trigger nodes[cursor.page].cells[i]} :: 0 <= i < cursor.node.nbKeys ==>
      cursor.node.keyVals[i] == nodes[cursor.page].cells[i]
  {}

  lemma AtLeaf(V: map<Page, Node>, cursor: Cursor, sh: Shape, root: Page, f: Field, k: int)
    requires Tree(By(f), V, sh, root) && On(V, cursor) && cursor.page in sh
    requires cursor.node.kind == TableLeaf || cursor.node.kind == IndexLeaf
    ensures V[cursor.page].kind == IndexLeaf && Reach(By(f), V, sh, root, cursor.page, k) == cursor.page
  {
    assert Local(By(f), V, sh, root, cursor.page);
  }

  /** One level down: past every separator whose record is not above the key's. */
  method Descend(db: Db, cursor: Cursor, ghost root: Page, ghost key: Key, keyR: Record, n: nat, table: Page,
                 ghost sh: Shape, ghost f: Field)
    requires db.Valid() && Tree(By(f), db.nodes, sh, root) && Known(db.nodes, sh, f)
    requires FieldIs(db.nodes, f) && Ranks(f) && key in f.value && key in f.at && keyR == f.value[key] && n == f.n
      && table == f.table
    requires On(db.nodes, cursor) && cursor.page in sh && cursor.cell == 0 && cursor.node.kind != TableLeaf
      && cursor.node.kind != IndexLeaf
    modifies db`cache, db`cacheSize, cursor
    ensures db.Valid() && On(db.nodes, cursor) && cursor.cell == 0 && cursor.page in sh
    ensures sh[cursor.page].rank < old(sh[cursor.page].rank)
    ensures Reach(By(f), db.nodes, sh, root, cursor.page, f.at[key])
      == old(Reach(By(f), db.nodes, sh, root, cursor.page, f.at[key]))
    ensures fresh(cursor.node) && fresh(cursor.node.keyVals) && fresh(cursor.node.childAddrs)
  {
    hide *;
    OnFacts(db.nodes, cursor);
    ghost var p, m := cursor.page, db.nodes[cursor.page];
    KnownNode(db.nodes, sh, f, p);
    while cursor.cell < cursor.node.nbKeys
      modifies cursor`cell, db`cache, db`cacheSize
      invariant db.Valid() && cursor.node.Valid() && cursor.node.Val() == m && cursor.cell <= |m.cells|
      invariant forall j {:trigger K(By(f), m, j)} :: 0 <= j < cursor.cell ==> K(By(f), m, j) <= f.at[key]
    {
      ghost var i := cursor.cell;
      assert m.cells[i] == cursor.node.keyVals[i];
      var nodeKey := FieldOf(db, cursor.node.keyVals[cursor.cell].key, n, table, f);
      ComparedAs(f, key, m.cells[i].key);
      RankOf(f, m, i);
      var cmp := CompareR(keyR, nodeKey);
      SignIs(f.at[key], K(By(f), m, i));
      if cmp < 0 { break; }
      cursor.cell := cursor.cell + 1;
    }
    NowOn(db.nodes, cursor);
    NotALeaf(m);
    ChildIs(By(f), db.nodes, sh, root, p, f.at[key], cursor.cell);
    StepIn(db, cursor);
  }

  lemma RankOf(f: Field, m: Node, i: nat)
    requires i < |m.cells| && m.cells[i].key in f.at
    ensures K(By(f), m, i) == f.at[m.cells[i].key]
  {}

  lemma NotALeaf(m: Node)
    ensures !IsLeaf(m) <==> m.kind != TableLeaf && m.kind != IndexLeaf
  {}

  // ---------------------------------------------------------------- insert

  /** The leaf with one more row id. Its link arrays hold no links: the slot that becomes part of the node shows
      `junk`. */
  function WithEntry(m: Node, pos: nat, key: Key, junk: Page): Node
    requires pos <= |m.cells|
  {
    InsertCell(m, pos, Cell(key, [])).(kids := m.kids + [junk])
  }

  method AddEntry(node: MemNode, offset: nat, key: Key, junk: Page)
    requires node.Valid() && node.kind == IndexLeaf && offset <= node.nbKeys < ORDER
    modifies node`nbKeys, node.keyVals, node.childAddrs
    ensures node.Valid() && node.Val() == old(WithEntry(node.Val(), offset, key, junk))
  {
    ghost var m := node.Val();
    InsertInArr(node.keyVals, node.nbKeys, Cell(key, []), offset);
    node.childAddrs[node.nbKeys + 1] := junk;
    node.nbKeys := node.nbKeys + 1;
    assert node.childAddrs[..node.nbKeys + 1] == m.kids + [junk];
  }

  /** Where the row id goes in its leaf. */
  ghost function PlaceBy(f: Field, m: Node, key: Key): (pos: nat)
    requires key in f.at
    ensures pos <= |m.cells|
  {
    ChildFor(By(f), m, f.at[key])
  }

  /** An index tree in order, that does not hold the row id's value yet, and whose leaf's stored parent can take a
      separator if it must. */
  ghost predicate Insertable(nodes: map<Page, Node>, sh: Shape, root: Page, key: Key, f: Field) {
    && Tree(By(f), nodes, sh, root) && LegalBut(nodes, sh, {}) && root in nodes && nodes[root].parent == NO_PAGE
    && Known(nodes, sh, f) && Backs(nodes, f, sh)
    && key in f.value && key in f.at && key < KEY_LIMIT
    && Covers(By(f), sh, root, f.at[key]) && Fresh(By(f), nodes, sh, f.at[key])
    && var l := Reach(By(f), nodes, sh, root, root, f.at[key]);
       l in nodes && (|nodes[l].cells| == ORDER - 1 && l != root ==> Upward(By(f), nodes, sh, root, l, nodes[l].parent))
  }

  lemma EntryInPlace(V: map<Page, Node>, live: set<Page>, sh: Shape, root: Page, key: Key, junk: Page, f: Field,
                     l: Page, m: Node)
    requires Insertable(V, sh, root, key, f) && l == Reach(By(f), V, sh, root, root, f.at[key])
    requires m == WithEntry(V[l], PlaceBy(f, V[l], key), key, junk) && junk < PAGE_LIMIT && V.Keys <= live
    requires Plain(V[l])
    ensures Placed(By(f), V, live, sh, root, l, m) && Plain(m) && CanHold(m, l, root)
    ensures |V[l].cells| < ORDER && Lacks(By(f), V[l], f.at[key]) && V[l].kind == IndexLeaf
  {
    SpansPages(By(f), V, sh, root);
    ReachCovers(By(f), V, sh, root, root, f.at[key]);
    assert Local(By(f), V, sh, root, l);
    assert LegalNode(V[l]) by { assert sh[l].rank >= 0; }
    var pos, c := PlaceBy(f, V[l], key), Cell(key, []);
    assert Ord(By(f), key) == f.at[key];
    assert Lacks(By(f), V[l], f.at[key]);
    assert 0 < pos ==> K(By(f), V[l], pos - 1) <= f.at[key];
    LeafInsertKeepsTree(By(f), V, sh, root, l, m, pos, c);
    EntryPlain(V[l], pos, key, junk);
    hide Tree, Reach, Backs, Known, Plain, Lacks, Fresh;
    EntryHeld(m, l, root);
    assert ShortKeys(m) by { FitsShort(m); }
  }

  lemma FitsShort(m: Node)
    requires Plain(m)
    ensures ShortKeys(m)
  {}

  lemma EntryPlain(n: Node, pos: nat, key: Key, junk: Page)
    requires Plain(n) && n.kind == IndexLeaf && pos <= |n.cells| < ORDER && key < KEY_LIMIT && junk < PAGE_LIMIT
    ensures Plain(WithEntry(n, pos, key, junk))
  {
    var m, c := WithEntry(n, pos, key, junk), Cell(key, []);
    forall i | 0 <= i < |m.cells| ensures m.cells[i].value == [] && m.cells[i].key < KEY_LIMIT {
      assert m.cells[i] == if i < pos then n.cells[i] else if i == pos then c else n.cells[i - 1];
    }
    forall i | 0 <= i < |m.kids| ensures m.kids[i] < PAGE_LIMIT {
      assert i < |n.kids| ==> m.kids[i] == n.kids[i];
    }
  }

  /** Index pages have room for any node. */
  lemma EntryHeld(m: Node, l: Page, root: Page)
    requires Plain(m) && m.kind == IndexLeaf && |m.kids| == |m.cells| + 1 && |m.cells| <= ORDER
    ensures CanHold(m, l, root)
  {
    InteriorFits(m, l);
    if |m.cells| == ORDER {
      SplitPlain(m, 0);
      SplitKinds(m, 0);
      InteriorFits(SplitRight(m), 1);
      forall q: Page | q < PAGE_LIMIT ensures Fits(SplitLeft(m, q), if l == root then PAGE_SIZE else Cap(l)) {
        SplitPlain(m, q);
        SplitKinds(m, q);
        InteriorFits(SplitLeft(m, q), l);
        InteriorFits(SplitLeft(m, q), 1);
      }
    }
  }

  /** The leaf's place by rank is where the first record not below the new one is. */
  lemma SameEntry(f: Field, m: Node, offset: nat, key: Key)
    requires key in f.at && offset <= |m.cells| && Lacks(By(f), m, f.at[key])
    requires forall j {:trigger K(By(f), m, j)} :: 0 <= j < offset ==> K(By(f), m, j) < f.at[key]
    requires offset < |m.cells| ==> f.at[key] <= K(By(f), m, offset)
    ensures offset == PlaceBy(f, m, key)
  {
    var pos := PlaceBy(f, m, key);
  }

  /** The row id in its place in memory, as `insert_bt` has it before it looks at the size. */
  method ReadWithEntry(db: Db, root: Page, key: Key, n: nat, table: Page, junk: Page, ghost sh: Shape, ghost f: Field)
    returns (cursor: Cursor)
    requires db.Valid() && Insertable(db.nodes, sh, root, key, f) && n == f.n && table == f.table && junk < PAGE_LIMIT
    modifies db`cache, db`cacheSize
    ensures db.Valid() && fresh(cursor) && fresh(cursor.node) && fresh(cursor.node.keyVals)
      && fresh(cursor.node.childAddrs)
    ensures cursor.node.Valid() && cursor.page in sh && cursor.page in db.nodes
      && cursor.page == Reach(By(f), db.nodes, sh, root, root, f.at[key])
    ensures cursor.node.Val() == WithEntry(db.nodes[cursor.page], PlaceBy(f, db.nodes[cursor.page], key), key, junk)
    ensures Placed(By(f), db.nodes, db.live, sh, root, cursor.page, cursor.node.Val())
    ensures Plain(cursor.node.Val()) && CanHold(cursor.node.Val(), cursor.page, root)
  {
    hide *;
    InsertableFacts(db.nodes, sh, root, key, f);
    cursor := FindLeaf(db, root, key, n, table, sh, f);
    OnFacts(db.nodes, cursor);
    ghost var l := cursor.page;
    ghost var m := db.nodes[l];
    db.NodeOk(l);
    FitsPlain(m, Cap(l));
    db.AllBelow();
    EntryInPlace(db.nodes, db.live, sh, root, key, junk, f, l, WithEntry(m, PlaceBy(f, m, key), key, junk));
    KnownNode(db.nodes, sh, f, l);
    var offset := FindOffset(db, cursor.node, key, n, table, f);
    SameEntry(f, m, offset, key);
    AddEntry(cursor.node, offset, key, junk);
  }

  lemma InsertableFacts(n0: map<Page, Node>, sh: Shape, root: Page, key: Key, f: Field)
    requires Insertable(n0, sh, root, key, f)
    ensures Tree(By(f), n0, sh, root) && root in sh && root in n0 && Known(n0, sh, f) && Backs(n0, f, sh)
      && FieldIs(n0, f) && Ranks(f)
    ensures key in f.value && key in f.at && key < KEY_LIMIT
    ensures var l := Reach(By(f), n0, sh, root, root, f.at[key]); l in n0
  {}

  /** With the row id in its leaf the tree's row ids are the old ones and the new one. */
  lemma EntryKeys(V: map<Page, Node>, sh: Shape, l: Page, pos: nat, key: Key, junk: Page, k: Key)
    requires l in sh && l in V && pos <= |V[l].cells|
    ensures HasKey(V[l := WithEntry(V[l], pos, key, junk)], sh, k) <==> HasKey(V, sh, k) || k == key
  {
    var m := WithEntry(V[l], pos, key, junk);
    var W := V[l := m];
    InsertedKeyIn(V[l], pos, Cell(key, []), m, k);
    hide KeyIn, WithEntry;
    if HasKey(W, sh, k) {
      var x :| HoldsKey(W, sh, x, k);
      assert HoldsKey(V, sh, x, k) || k == key;
    }
    if HasKey(V, sh, k) {
      var x :| HoldsKey(V, sh, x, k);
      assert HoldsKey(W, sh, x, k);
    }
    if k == key { assert HoldsKey(W, sh, l, k); }
  }

  lemma EntryKnown(V: map<Page, Node>, sh: Shape, l: Page, pos: nat, key: Key, junk: Page, f: Field)
    requires l in sh && l in V && pos <= |V[l].cells| && Known(V, sh, f) && key in f.value
    ensures Known(V[l := WithEntry(V[l], pos, key, junk)], sh, f)
  {
    var W := V[l := WithEntry(V[l], pos, key, junk)];
    forall k | HasKey(W, sh, k) ensures k in f.value { EntryKeys(V, sh, l, pos, key, junk, k); }
  }

  /** What the insert goes on with once the leaf is saturated. */
  ghost predicate Overfull(V: map<Page, Node>, live: set<Page>, sh: Shape, root: Page, l: Page, m: Node, f: Field) {
    && Placed(By(f), V, live, sh, root, l, m) && Plain(m) && CanHold(m, l, root) && |m.cells| == ORDER
    && Backs(V, f, sh) && Known(V[l := m], sh, f)
  }

  lemma OverfullFacts(V: map<Page, Node>, live: set<Page>, sh: Shape, root: Page, l: Page, m: Node, f: Field)
    requires Overfull(V, live, sh, root, l, m, f)
    ensures Placed(By(f), V, live, sh, root, l, m) && Plain(m) && CanHold(m, l, root) && |m.cells| == ORDER
      && Saturated(m)
    ensures Backs(V, f, sh) && Known(V[l := m], sh, f) && m.kind == IndexLeaf && IsLeaf(m) && m.kind != TableLeaf
    ensures root in sh && l in sh && l in V && root in V && V.Keys <= live && (l == root ==> m.parent == NO_PAGE)
    ensures Fits(SplitRight(m), PAGE_SIZE)
    ensures forall q: Page {:trigger SplitLeft(m, q)} :: q < PAGE_LIMIT ==>
      Fits(SplitLeft(m, q), if l == root then PAGE_SIZE else Cap(l))
  {
    PlacedFacts(By(f), V, live, sh, root, l, m);
  }

  lemma LeafBacked(V: map<Page, Node>, live: set<Page>, sh: Shape, root: Page, l: Page, a: Page, pos: nat, q: Page,
                   m: Node, s2: Shape, f: Field)
    requires Overfull(V, live, sh, root, l, m, f) && q !in live && l != root && Saturated(m)
    requires SplitReady(By(f), V[l := m], sh, root, l, a, pos, q, LeafSpine(sh, root, l, a))
    requires s2 == NewShape(By(f), V[l := m], sh, l, a, q, LeafSpine(sh, root, l, a))
    ensures Backs(V[q := SplitRight(m)], f, s2) && Known(AfterSplit(V[l := m], l, a, pos, q), s2, f)
  {
    var W := V[l := m];
    assert s2.Keys == sh.Keys + {q};
    hide Tree, SpineOk, Backs, Known, Plain, NewShape;
    BacksFrame(V, V[q := SplitRight(m)], f, sh, s2);
    SplitKeepsKeys(W, sh, l, a, pos, q, s2);
    KnownThrough(W, sh, AfterSplit(W, l, a, pos, q), s2, f);
  }

  method SplitLeafBelow(db: Db, node: MemNode, n: nat, table: Page, ghost sh: Shape, ghost root: Page, ghost l: Page,
                        ghost m: Node, ghost f: Field)
    returns (q: Page, ghost sh': Shape)
    requires db.Valid() && node.Valid() && node.Val() == m && node.nbKeys == ORDER
      && Overfull(db.nodes, db.live, sh, root, l, m, f)
    requires l != root && Upward(By(f), db.nodes, sh, root, l, m.parent) && n == f.n && table == f.table
    requires db.nbPages + Climb(db.nodes, sh, root, l) + 3 < NO_PAGE
    modifies db, node`nbKeys, node.childAddrs
    ensures db.Valid() && node.Valid() && old(db.live) <= db.live
    ensures LeafSettled(By(f), old(db.nodes), old(db.live), sh, db.nodes, l, node.Val(), sh', root, l, m, l, q)
    ensures WellParented(old(db.nodes), sh, root) ==>
              (WellParented(db.nodes[l := node.Val()], sh', root) <==> !ParentFull(old(db.nodes), sh, l))
    ensures db.nbPages <= old(db.nbPages + Climb(db.nodes, sh, root, l)) + 3
  {
    hide *;
    ghost var n0, live0 := db.nodes, db.live;
    db.AllBelow();
    Fields(node);
    OverfullFacts(n0, live0, sh, root, l, m, f);
    var key;
    key, q := SplitInternalNode(db, node);
    db.LiveBound(q);
    ghost var a, pos, s2 := LeafRaise(By(f), n0, live0, sh, root, l, q, m);
    LeafBacked(n0, live0, sh, root, l, a, pos, q, m, s2, f);
    ghost var left, n1 := SplitLeft(m, q), db.nodes;
    SplitParents(m, q);
    Fields(node);
    var ret;
    ret, sh' := InsertInternal(db, node.parent, key, q, n, table, root, s2, pos, map[l := left], f);
    LeafLowered(By(f), n0, live0, sh, root, l, a, pos, q, m, s2, n1, db.nodes, sh');
  }

  method SplitRootLeaf(db: Db, node: MemNode, page: Page, n: nat, table: Page, ghost sh: Shape, ghost root: Page,
                       ghost m: Node, ghost f: Field)
    returns (home: Page, q: Page, ghost sh': Shape)
    requires db.Valid() && node.Valid() && node.Val() == m && node.nbKeys == ORDER
      && Overfull(db.nodes, db.live, sh, root, root, m, f)
    requires page == root && db.nbPages + 3 < NO_PAGE && n == f.n && table == f.table
    modifies db, node`nbKeys, node`parent, node.childAddrs
    ensures db.Valid() && node.Valid() && old(db.live) <= db.live
    ensures LeafSettled(By(f), old(db.nodes), old(db.live), sh, db.nodes, home, node.Val(), sh', root, root, m, home, q)
    ensures WellParented(db.nodes[home := node.Val()], sh', root)
    ensures db.nbPages <= old(db.nbPages) + 2
  {
    hide *;
    ghost var n0, live0 := db.nodes, db.live;
    OverfullFacts(n0, live0, sh, root, root, m, f);
    var key;
    key, q, home := HalveRootLeaf(db, node, page, sh, root, m, f);
    ghost var n2 := db.nodes;
    ghost var s2 := RootLeafRaise(By(f), n0, live0, sh, root, q, home, m, n2);
    RootLeafBacked(n0, live0, sh, root, q, home, m, s2, n2, f);
    ghost var left := SplitLeft(m, q).(parent := root);
    var ret;
    ret, sh' := InsertInternal(db, node.parent, key, q, n, table, root, s2, 0, map[home := left], f);
    RootLeafLowered(By(f), n0, live0, sh, root, q, home, m, s2, n2, db.nodes, sh');
  }

  lemma RootLeafBacked(n0: map<Page, Node>, live0: set<Page>, sh: Shape, root: Page, q: Page, home: Page, m: Node,
                       s2: Shape, n2: map<Page, Node>, f: Field)
    requires Overfull(n0, live0, sh, root, root, m, f) && RootLeafHalved(By(f), n0, live0, sh, root, q, home, m, n2)
    requires RootEffect(By(f), n0[root := m], sh, LeafRootGraph(By(f), n0, root, q, home, m), s2, root, home, q)
    ensures Backs(n2, f, s2) && Known(LeafRootGraph(By(f), n0, root, q, home, m), s2, f)
  {
    hide *;
    OverfullFacts(n0, live0, sh, root, root, m, f);
    HalvedFacts(n0, live0, sh, root, q, home, m, n2, f);
    RootKeysKept(f, n0[root := m], sh, LeafRootGraph(By(f), n0, root, q, home, m), s2, root, home, q);
    LeafRootMaps(By(f), n0, root, q, home, m);
    BacksFrame(n0, n2, f, sh, s2);
    KnownThrough(n0[root := m], sh, LeafRootGraph(By(f), n0, root, q, home, m), s2, f);
  }

  lemma HalvedFacts(n0: map<Page, Node>, live0: set<Page>, sh: Shape, root: Page, q: Page, home: Page, m: Node,
                    n2: map<Page, Node>, f: Field)
    requires RootLeafHalved(By(f), n0, live0, sh, root, q, home, m, n2)
    ensures Saturated(m) && n2 == Rehome(By(f), n0[q := SplitRight(m)], root, home, SplitLeft(m, q), q)
    ensures q !in n0 && home !in n0 && q != home
  {}

  lemma RootKeysKept(f: Field, W: map<Page, Node>, sh: Shape, X: map<Page, Node>, s2: Shape, root: Page, home: Page,
                     q: Page)
    requires RootEffect(By(f), W, sh, X, s2, root, home, q)
    ensures KeysKept(W, sh, X, s2) && s2.Keys == sh.Keys + {home, q}
  {}

  method HalveRootLeaf(db: Db, node: MemNode, page: Page, ghost sh: Shape, ghost root: Page, ghost m: Node,
                       ghost f: Field)
    returns (key: Key, q: Page, home: Page)
    requires db.Valid() && node.Valid() && node.Val() == m && node.nbKeys == ORDER
      && Overfull(db.nodes, db.live, sh, root, root, m, f)
    requires page == root && db.nbPages + 3 < NO_PAGE
    modifies db, node`nbKeys, node`parent, node.childAddrs
    ensures db.Valid() && node.Valid()
      && RootLeafHalved(By(f), old(db.nodes), old(db.live), sh, root, q, home, m, db.nodes)
    ensures Saturated(m) && node.parent == root && key == SplitKey(m) && node.Val() == SplitLeft(m, q).(parent := root)
    ensures db.live == old(db.live) + {q, home} && db.nbPages <= old(db.nbPages) + 2
  {
    hide *;
    ghost var n0, live0 := db.nodes, db.live;
    db.AllBelow();
    Fields(node);
    OverfullFacts(n0, live0, sh, root, root, m, f);
    IndexRootKind(f);
    db.LiveBound(root);
    key, q := SplitInternalNode(db, node);
    db.LiveBound(q);
    SplitKinds(m, q);
    SplitParents(m, q);
    Fields(node);
    NotALeaf(SplitLeft(m, q));
    home := CreateRoot(By(f), IndexInterior, db, page, node, q);
    Fields(node);
    RootLeafHalvedNow(By(f), n0, live0, sh, root, q, home, m, db.nodes);
  }

  /** Inserts a row id into the index at `root`: the tree keeps its order and gains that row id and no other,
      and the stored parents stay right exactly when no interior page had to be split. */
  method Insert(db: Db, root: Page, key: Key, n: nat, table: Page, junk: Page, ghost sh: Shape, ghost f: Field)
    returns (ret: int, ghost sh': Shape, ghost lp: Page, ghost q: Page)
    requires db.Valid() && Insertable(db.nodes, sh, root, key, f) && n == f.n && table == f.table && junk < PAGE_LIMIT
    requires db.nbPages + Climb(db.nodes, sh, root, Reach(By(f), db.nodes, sh, root, root, f.at[key])) + 3 < NO_PAGE
    modifies db
    ensures ret == 0 && db.Valid() && old(db.live) <= db.live
    ensures Tree(By(f), db.nodes, sh', root) && sh'[root].lo == sh[root].lo && sh'[root].hi == sh[root].hi
    ensures LegalBut(db.nodes, sh', {}) && root in db.nodes && db.nodes[root].parent == NO_PAGE
    ensures forall k {:trigger HasKey(db.nodes, sh', k)} :: HasKey(db.nodes, sh', k) <==>
      old(HasKey(db.nodes, sh, k)) || k == key
    ensures Framed(old(db.nodes), old(db.live), db.nodes, sh, sh') && Backs(db.nodes, f, sh') && Known(db.nodes, sh', f)
    ensures var l := old(Reach(By(f), db.nodes, sh, root, root, f.at[key]));
      LeafDone(By(f), old(db.nodes), old(db.live), sh, db.nodes, sh', root, l,
        old(WithEntry(db.nodes[l], PlaceBy(f, db.nodes[l], key), key, junk)), lp, q)
    ensures var l := old(Reach(By(f), db.nodes, sh, root, root, f.at[key]));
      old(WellParented(db.nodes, sh, root)) ==>
        (WellParented(db.nodes, sh', root) <==>
          !(old(|db.nodes[l].cells|) == ORDER - 1 && l != root && ParentFull(old(db.nodes), sh, l)))
    ensures db.nbPages <=
      old(db.nbPages + Climb(db.nodes, sh, root, Reach(By(f), db.nodes, sh, root, root, f.at[key]))) + 3
  {
    hide *;
    ghost var n0, live0 := db.nodes, db.live;
    InsertableFacts(n0, sh, root, key, f);
    ghost var l := Reach(By(f), n0, sh, root, root, f.at[key]);
    ghost var m := WithEntry(n0[l], PlaceBy(f, n0[l], key), key, junk);
    db.AllBelow();
    var cursor := ReadWithEntry(db, root, key, n, table, junk, sh, f);
    EntryKnown(n0, sh, l, PlaceBy(f, n0[l], key), key, junk, f);
    FullLeaf(n0, live0, sh, root, l, m, key, junk, f);
    Fields(cursor.node);
    if cursor.node.nbKeys == ORDER {
      if cursor.node.parent == NO_PAGE {
        cursor.page, q, sh' := SplitRootLeaf(db, cursor.node, cursor.page, n, table, sh, root, m, f);
        lp := cursor.page;
      } else {
        q, sh' := SplitLeafBelow(db, cursor.node, n, table, sh, root, l, m, f);
        lp := l;
      }
    } else {
      sh', lp, q := sh, l, l;
      RoomSettled(By(f), n0, live0, sh, root, l, m);
    }
    ret := WriteLeaf(By(f), db, cursor.node, cursor.page, n0, live0, sh, sh', root, l, m, lp, q);
    Inserted(n0, live0, db.nodes, sh, sh', root, l, PlaceBy(f, n0[l], key), key, junk, f, lp, q);
  }

  lemma FullLeaf(n0: map<Page, Node>, live0: set<Page>, sh: Shape, root: Page, l: Page, m: Node, key: Key, junk: Page,
                 f: Field)
    requires Insertable(n0, sh, root, key, f) && l == Reach(By(f), n0, sh, root, root, f.at[key])
    requires m == WithEntry(n0[l], PlaceBy(f, n0[l], key), key, junk) && Known(n0[l := m], sh, f)
    requires Placed(By(f), n0, live0, sh, root, l, m) && Plain(m) && CanHold(m, l, root)
    requires forall p {:trigger p in n0} :: p in n0 ==> p < NO_PAGE
    ensures |m.cells| == |n0[l].cells| + 1 <= ORDER && (l == root ==> m.parent == NO_PAGE)
    ensures |m.cells| == ORDER ==> Overfull(n0, live0, sh, root, l, m, f)
    ensures l != root && |m.cells| == ORDER ==> m.parent != NO_PAGE && Upward(By(f), n0, sh, root, l, m.parent)
  {}

  lemma Inserted(n0: map<Page, Node>, live0: set<Page>, n1: map<Page, Node>, sh: Shape, sh': Shape, root: Page, l: Page,
                 pos: nat, key: Key, junk: Page, f: Field, lp: Page, q: Page)
    requires l in n0 && l in sh && pos <= |n0[l].cells| && n0.Keys <= live0
    requires LeafDone(By(f), n0, live0, sh, n1, sh', root, l, WithEntry(n0[l], pos, key, junk), lp, q)
    requires Backs(n0, f, sh) && Known(n0, sh, f) && key in f.value
    ensures Tree(By(f), n1, sh', root) && LegalBut(n1, sh', {}) && root in n1 && n1[root].parent == NO_PAGE
    ensures root in sh && root in sh' && sh'[root].lo == sh[root].lo && sh'[root].hi == sh[root].hi
    ensures forall k {:trigger HasKey(n1, sh', k)} :: HasKey(n1, sh', k) <==> HasKey(n0, sh, k) || k == key
    ensures Framed(n0, live0, n1, sh, sh') && Backs(n1, f, sh') && Known(n1, sh', f)
  {
    var m := WithEntry(n0[l], pos, key, junk);
    EntryKnown(n0, sh, l, pos, key, junk, f);
    hide Tree, LegalBut, Halves, LeafKept, NewInterior, StillInterior, Backs, Known, HasKey, WithEntry;
    KnownThrough(n0[l := m], sh, n1, sh', f);
    forall k ensures HasKey(n1, sh', k) <==> HasKey(n0, sh, k) || k == key {
      EntryKeys(n0, sh, l, pos, key, junk, k);
      assert HasKey(n1, sh', k) <==> HasKey(n0[l := m], sh, k);
    }
    forall p | p in n0 && p !in sh ensures p in n1 && n1[p] == n0[p] {}
    BacksFrame(n0, n1, f, sh, sh');
  }
}
