/** Finding the leaf for a key in a paged B+-tree, and inserting a row there. */
module TableInsert {
  import opened Nodes
  import opened Codec
  import opened MemNodes
  import opened Disk
  import opened SearchTree
  import opened Cascade
  import opened PageTree
  import opened LeafInsert
  import opened TableTree

  /** A page graph, search tree or not, in which every descent ends: ranks fall from each interior page to its
      children. */
  ghost predicate Falling(V: map<Page, Node>, rk: map<Page, nat>) {
    forall p {:trigger rk[p]} :: p in rk ==> p in V && Falls(V, rk, p)
  }

  ghost predicate Falls(V: map<Page, Node>, rk: map<Page, nat>, p: Page)
    requires p in rk && p in V
  {
    && (IsLeaf(V[p]) <==> V[p].kind == TableLeaf)
    && (!IsLeaf(V[p]) ==>
          |V[p].kids| == |V[p].cells| + 1 && forall i {:trigger V[p].kids[i]} :: 0 <= i < |V[p].kids| ==>
            V[p].kids[i] in rk && rk[V[p].kids[i]] < rk[p])
  }

  /** Where a descent for the key ends. */
  ghost function Seek(V: map<Page, Node>, rk: map<Page, nat>, p: Page, k: Key): (l: Page)
    requires Falling(V, rk) && p in rk
    ensures l in rk && l in V && IsLeaf(V[l])
    decreases rk[p]
  {
    assert rk[p] >= 0;
    if IsLeaf(V[p]) then p else Seek(V, rk, V[p].kids[ChildFor(Natural, V[p], k)], k)
  }

  function Ranks(sh: Shape): map<Page, nat> {
    map p | p in sh :: sh[p].rank
  }

  lemma TreeFalls(V: map<Page, Node>, sh: Shape, root: Page)
    requires Tree(Natural, V, sh, root)
    ensures Falling(V, Ranks(sh)) && root in Ranks(sh)
  {
    forall p | p in sh ensures p in V && Falls(V, Ranks(sh), p) {
      assert Local(Natural, V, sh, root, p);
      if !IsLeaf(V[p]) {
        forall i | 0 <= i < |V[p].kids|
          ensures V[p].kids[i] in sh && sh[V[p].kids[i]].rank < sh[p].rank
        {
          assert KidOk(Natural, V[p], p, sh, i);
        }
      }
    }
  }

  lemma {:induction false} SeekIsReach(V: map<Page, Node>, sh: Shape, root: Page, p: Page, k: Key)
    requires Tree(Natural, V, sh, root) && Falling(V, Ranks(sh)) && p in sh
    ensures Seek(V, Ranks(sh), p, k) == Reach(Natural, V, sh, root, p, k)
    decreases sh[p].rank
  {
    assert Local(Natural, V, sh, root, p) && Ranks(sh)[p] == sh[p].rank;
    if !IsLeaf(V[p]) {
      var i := ChildFor(Natural, V[p], k);
      assert KidOk(Natural, V[p], p, sh, i);
      SeekIsReach(V, sh, root, V[p].kids[i], k);
    }
  }

  /** `find_leaf`, on any page graph in which descents end. */
  method SeekLeaf(db: Db, root: Page, key: Key, ghost rk: map<Page, nat>) returns (cursor: Cursor)
    requires db.Valid() && Falling(db.nodes, rk) && root in rk
    modifies db`cache, db`cacheSize
    ensures db.Valid() && fresh(cursor) && fresh(cursor.node) && fresh(cursor.node.keyVals)
      && fresh(cursor.node.childAddrs)
    ensures On(db.nodes, cursor) && cursor.cell == 0 && cursor.page == Seek(db.nodes, rk, root, key)
      && db.nodes[cursor.page].kind == TableLeaf
  {
    hide *;
    SeekStep(db.nodes, rk, root, key);
    var node := db.ReadNode(root);
    cursor := new Cursor(root, node);
    OnNow(db.nodes, cursor);
    while cursor.node.kind != TableLeaf
      invariant db.Valid() && fresh(cursor) && fresh(cursor.node) && fresh(cursor.node.keyVals)
        && fresh(cursor.node.childAddrs)
      invariant On(db.nodes, cursor) && cursor.cell == 0 && cursor.page in rk
      invariant Seek(db.nodes, rk, root, key) == Seek(db.nodes, rk, cursor.page, key)
      decreases rk[cursor.page]
    {
      SeekStep(db.nodes, rk, cursor.page, key);
      Descend(db, cursor, key, rk);
    }
    SeekStep(db.nodes, rk, cursor.page, key);
    OnKind(db.nodes, cursor);
  }

  lemma OnNow(V: map<Page, Node>, cursor: Cursor)
    requires cursor.page in V && cursor.node.Valid() && cursor.node.Val() == V[cursor.page]
    ensures On(V, cursor)
  {}

  lemma OnKind(V: map<Page, Node>, cursor: Cursor)
    requires On(V, cursor)
    ensures cursor.node.Valid() && cursor.page in V && cursor.node.Val() == V[cursor.page]
      && V[cursor.page].kind == cursor.node.kind && |V[cursor.page].cells| == cursor.node.nbKeys
    ensures cursor.node.nbKeys <= cursor.node.keyVals.Length
    ensures forall j {:trigger cursor.node.keyVals[j]} :: 0 <= j < cursor.node.nbKeys ==>
      cursor.node.keyVals[j] == V[cursor.page].cells[j]
  {}

  lemma SeekStep(V: map<Page, Node>, rk: map<Page, nat>, p: Page, k: Key)
    requires Falling(V, rk) && p in rk
    ensures p in V && (IsLeaf(V[p]) <==> V[p].kind == TableLeaf) && (IsLeaf(V[p]) ==> Seek(V, rk, p, k) == p)
    ensures !IsLeaf(V[p]) ==> var i := ChildFor(Natural, V[p], k);
      && 0 <= i <= |V[p].cells| && i < |V[p].kids| && V[p].kids[i] in rk && V[p].kids[i] in V
      && rk[V[p].kids[i]] < rk[p]
      && Seek(V, rk, p, k) == Seek(V, rk, V[p].kids[i], k)
  {
    assert rk[p] >= 0;
    if !IsLeaf(V[p]) { assert rk[V[p].kids[ChildFor(Natural, V[p], k)]] >= 0; }
  }

  /** One level down: past every separator that is not above the key. */
  method Descend(db: Db, cursor: Cursor, key: Key, ghost rk: map<Page, nat>)
    requires db.Valid() && Falling(db.nodes, rk)
    requires On(db.nodes, cursor) && cursor.page in rk && cursor.cell == 0 && cursor.node.kind != TableLeaf
    modifies db`cache, db`cacheSize, cursor
    ensures db.Valid() && On(db.nodes, cursor) && cursor.cell == 0 && cursor.page in rk
      && rk[cursor.page] < old(rk[cursor.page])
    ensures Seek(db.nodes, rk, cursor.page, key) == old(Seek(db.nodes, rk, cursor.page, key))
    ensures fresh(cursor.node) && fresh(cursor.node.keyVals) && fresh(cursor.node.childAddrs)
  {
    hide *;
    OnKind(db.nodes, cursor);
    ghost var p, n := cursor.page, db.nodes[cursor.page];
    SeekStep(db.nodes, rk, p, key);
    var node := cursor.node;
    while cursor.cell < node.nbKeys && node.keyVals[cursor.cell].key <= key
      modifies cursor`cell
      invariant cursor.cell <= |n.cells| && cursor.node == node && cursor.page == p
      invariant forall j {:trigger node.keyVals[j]} :: 0 <= j < node.nbKeys ==> node.keyVals[j] == n.cells[j]
      invariant forall j :: 0 <= j < cursor.cell ==> n.cells[j].key <= key
    {
      cursor.cell := cursor.cell + 1;
    }
    assert cursor.cell < |n.cells| ==> node.keyVals[cursor.cell] == n.cells[cursor.cell];
    ChildForIs(n, key, cursor.cell);
    OnNow(db.nodes, cursor);
    StepIn(db, cursor);
  }

  lemma ChildForIs(n: Node, k: Key, i: nat)
    requires i <= |n.cells| && (forall j :: 0 <= j < i ==> n.cells[j].key <= k)
      && (i < |n.cells| ==> k < n.cells[i].key)
    ensures ChildFor(Natural, n, k) == i
  {
    var c := ChildFor(Natural, n, k);
    assert i < |n.cells| ==> K(Natural, n, i) == n.cells[i].key;
    hide ChildFor;
  }

  /** The leaf that answers for `key`. */
  method FindLeaf(db: Db, root: Page, key: Key, ghost sh: Shape) returns (cursor: Cursor)
    requires db.Valid() && Tree(Natural, db.nodes, sh, root)
    modifies db`cache, db`cacheSize
    ensures db.Valid() && fresh(cursor) && fresh(cursor.node) && fresh(cursor.node.keyVals)
      && fresh(cursor.node.childAddrs)
    ensures On(db.nodes, cursor) && cursor.page in sh && cursor.cell == 0
    ensures cursor.page == Reach(Natural, db.nodes, sh, root, root, key)
    ensures db.nodes[cursor.page].kind == TableLeaf
  {
    hide *;
    TreeFalls(db.nodes, sh, root);
    RanksAt(sh, root);
    SeekIsReach(db.nodes, sh, root, root, key);
    cursor := SeekLeaf(db, root, key, Ranks(sh));
    RanksAt(sh, cursor.page);
  }

  lemma RanksAt(sh: Shape, p: Page)
    ensures p in Ranks(sh) <==> p in sh
  {}

  lemma LeafKind(V: map<Page, Node>, sh: Shape, root: Page, p: Page)
    requires Tree(Natural, V, sh, root) && p in sh
    ensures p in V && (IsLeaf(V[p]) <==> V[p].kind == TableLeaf) && KindOk(Natural, V[p])
  {
    assert Local(Natural, V, sh, root, p);
  }

  // ---------------------------------------------------------------- insert

  function WithRow(n: Node, key: Key, value: seq<Byte>): Node {
    InsertCell(n, Place(n, key), Cell(key, value))
  }

  ghost predicate Absent(n: Node, key: Key) {
    forall i :: 0 <= i < |n.cells| ==> n.cells[i].key != key
  }

  ghost predicate TableOk(nodes: map<Page, Node>, sh: Shape, root: Page) {
    && Tree(Natural, nodes, sh, root) && LegalBut(nodes, sh, {})
    && root in nodes && nodes[root].parent == NO_PAGE
  }

  lemma RowInPlace(V: map<Page, Node>, sh: Shape, root: Page, l: Page, key: Key, value: seq<Byte>)
    requires TableOk(V, sh, root) && Covers(Natural, sh, root, key)
    requires l == Reach(Natural, V, sh, root, root, key) && l in V && Absent(V[l], key)
    ensures l in sh && V[l].kind == TableLeaf && |V[l].cells| < ORDER && KindOk(Natural, V[l])
    ensures Tree(Natural, V[l := WithRow(V[l], key, value)], sh, root)
    ensures sh.Keys <= V.Keys
  {
    SpansPages(Natural, V, sh, root);
    ReachCovers(Natural, V, sh, root, root, key);
    LeafKind(V, sh, root, l);
    var pos := Place(V[l], key);
    assert LegalNode(V[l]) by { assert sh[l].rank >= 0; }
    assert 0 < pos ==> K(Natural, V[l], pos - 1) < key;
    assert pos < |V[l].cells| ==> key < K(Natural, V[l], pos);
    LeafInsertKeepsTree(Natural, V, sh, root, l, WithRow(V[l], key, value), pos, Cell(key, value));
  }

  /** The row in place in memory, as `insert` has it before it looks at the size. */
  method ReadWithRow(db: Db, root: Page, key: Key, value: seq<Byte>, ghost sh: Shape) returns (cursor: Cursor)
    requires db.Valid() && TableOk(db.nodes, sh, root) && Covers(Natural, sh, root, key) && key < KEY_LIMIT
    requires var l := Reach(Natural, db.nodes, sh, root, root, key); l in db.nodes && Absent(db.nodes[l], key)
    modifies db`cache, db`cacheSize
    ensures db.Valid() && fresh(cursor) && fresh(cursor.node) && fresh(cursor.node.keyVals)
      && fresh(cursor.node.childAddrs)
    ensures cursor.node.Valid() && cursor.page in sh && cursor.page in db.nodes
      && cursor.page == Reach(Natural, db.nodes, sh, root, root, key)
    ensures cursor.node.Val() == WithRow(db.nodes[cursor.page], key, value)
    ensures Placed(Natural, db.nodes, db.live, sh, root, cursor.page, cursor.node.Val())
  {
    cursor := FindLeaf(db, root, key, sh);
    ghost var l := cursor.page;
    ghost var n := db.nodes[l];
    RowInPlace(db.nodes, sh, root, l, key, value);
    db.AllBelow();
    ShortAfter(db, l, key, value);
    assert cursor.node.Val() == n && n.kind == cursor.node.kind;
    hide Tree, Db.Valid, Reach, LegalBut, ShortKeys;
    var offset := OffsetFor(cursor.node, key);
    assert offset == Place(n, key) by { PlaceIs(n, key, offset); }
    AddCell(cursor.node, offset, Cell(key, value));
  }

  lemma ShortAfter(db: Db, l: Page, key: Key, value: seq<Byte>)
    requires db.Valid() && l in db.nodes && key < KEY_LIMIT
    ensures ShortKeys(WithRow(db.nodes[l], key, value))
  {
    db.NodeOk(l);
    hide Db.Valid;
  }

  /** The graph after the leaf `l`, with contents `m`, was cut at its stored parent. */
  ghost function CutAtParent(n0: map<Page, Node>, l: Page, m: Node, q: Page): map<Page, Node>
    requires l in n0 && m.parent in n0 && m.parent != l && HasRoom(n0[m.parent]) && Saturated(m)
  {
    AfterSplit(n0[l := m], l, m.parent, Place(n0[m.parent], SplitKey(m)), q)
  }

  /** Splitting a leaf below the root. A stored parent with room takes the separator, be it the right parent or not. */
  method SplitLeafBelow(db: Db, node: MemNode, ghost sh: Shape, ghost root: Page, ghost l: Page, ghost m: Node)
    returns (q: Page, ghost sh': Shape)
    requires db.Valid() && node.Valid() && node.Val() == m && node.nbKeys == ORDER
      && Placed(Natural, db.nodes, db.live, sh, root, l, m)
    requires l != root && CanHold(m, l, root) && m.parent in db.nodes && m.parent != l
    requires Upward(Natural, db.nodes, sh, root, l, m.parent) || HasRoom(db.nodes[m.parent])
    requires db.nbPages + Climb(db.nodes, sh, root, l) + 3 < NO_PAGE
    modifies db, node`nbKeys, node.childAddrs
    ensures db.Valid() && node.Valid() && old(db.live) <= db.live && l in db.nodes && q !in old(db.live) && q in db.live
      && Saturated(m)
    ensures node.Val() == SplitLeft(m, q)
    ensures old(Upward(Natural, db.nodes, sh, root, l, m.parent)) ==>
      && LeafSettled(Natural, old(db.nodes), old(db.live), sh, db.nodes, l, node.Val(), sh', root, l, m, l, q)
      && (WellParented(old(db.nodes), sh, root) ==>
            (WellParented(db.nodes[l := node.Val()], sh', root) <==> !ParentFull(old(db.nodes), sh, l)))
    ensures old(HasRoom(db.nodes[m.parent])) ==>
      l in old(db.nodes) && db.nodes[l := node.Val()] == CutAtParent(old(db.nodes), l, m, q)
        && db.live == old(db.live) + {q}
    ensures db.nbPages <= old(db.nbPages + Climb(db.nodes, sh, root, l)) + 3
  {
    hide *;
    ghost var n0, live0 := db.nodes, db.live;
    ghost var safe := Upward(Natural, n0, sh, root, l, m.parent);
    db.AllBelow();
    Fields(node);
    PlacedFacts(Natural, n0, live0, sh, root, l, m);
    HalfFits(m, l, root);
    SplitKeyShort(Natural, n0, live0, sh, root, l, m);
    var key;
    key, q := SplitLeafNode(db, node);
    db.LiveBound(q);
    ghost var a, pos, s2 := m.parent, 0, sh;
    if safe { a, pos, s2 := LeafRaise(Natural, n0, live0, sh, root, l, q, m); }
    ghost var left, n1 := SplitLeft(m, q), db.nodes;
    SplitParents(m, q);
    Fields(node);
    if HasRoom(n0[m.parent]) { NoGrowth(n1, m.parent, key, q, root, s2, pos, map[l := left]); }
    var ret;
    ret, sh' := InsertInternal(db, node.parent, key, q, root, s2, pos, map[l := left]);
    if safe { LeafLowered(Natural, n0, live0, sh, root, l, a, pos, q, m, s2, n1, db.nodes, sh'); }
    if HasRoom(n0[m.parent]) { CutPages(n0, l, m, q); }
  }

  lemma SplitKeyShort(o: Order, n0: map<Page, Node>, live0: set<Page>, sh: Shape, root: Page, l: Page, m: Node)
    requires Placed(o, n0, live0, sh, root, l, m) && |m.cells| == ORDER
    ensures Saturated(m) && SplitKey(m) < KEY_LIMIT && l in n0
  {}

  lemma CutPages(n0: map<Page, Node>, l: Page, m: Node, q: Page)
    requires l in n0 && m.parent in n0 && m.parent != l && HasRoom(n0[m.parent]) && Saturated(m) && q !in n0
    ensures CutAtParent(n0, l, m, q) ==
      n0[q := SplitRight(m)][m.parent := WithSeparator(n0[m.parent], SplitKey(m), q)][l := SplitLeft(m, q)]
  {
    hide SplitLeft, SplitRight, SplitKey, Place;
  }

  /** Splitting the root while it is a leaf. */
  method SplitRootLeaf(db: Db, node: MemNode, page: Page, ghost sh: Shape, ghost root: Page, ghost m: Node)
    returns (home: Page, q: Page, ghost sh': Shape)
    requires db.Valid() && node.Valid() && node.Val() == m && node.nbKeys == ORDER
      && Placed(Natural, db.nodes, db.live, sh, root, root, m)
    requires CanHold(m, root, root) && page == root && db.nbPages + 3 < NO_PAGE
    modifies db, node`nbKeys, node`parent, node.childAddrs
    ensures db.Valid() && node.Valid() && old(db.live) <= db.live
    ensures LeafSettled(Natural, old(db.nodes), old(db.live), sh, db.nodes, home, node.Val(), sh', root, root, m, home,
      q)
    ensures WellParented(db.nodes[home := node.Val()], sh', root) && sh'.Keys == {root, home, q}
    ensures db.nbPages <= old(db.nbPages) + 2
  {
    hide *;
    ghost var n0, live0 := db.nodes, db.live;
    var key;
    key, q, home := HalveRootLeaf(db, node, page, sh, root, m);
    ghost var n2 := db.nodes;
    ghost var s2 := RootLeafRaise(Natural, n0, live0, sh, root, q, home, m, n2);
    ghost var left := SplitLeft(m, q).(parent := root);
    InsertFacts(Natural, db.nodes, node.parent, key, q, root, s2, 0, map[home := left]);
    var ret;
    ret, sh' := InsertInternal(db, node.parent, key, q, root, s2, 0, map[home := left]);
    RootLeafLowered(Natural, n0, live0, sh, root, q, home, m, s2, n2, db.nodes, sh');
  }

  method HalveRootLeaf(db: Db, node: MemNode, page: Page, ghost sh: Shape, ghost root: Page, ghost m: Node)
    returns (key: Key, q: Page, home: Page)
    requires db.Valid() && node.Valid() && node.Val() == m && node.nbKeys == ORDER
      && Placed(Natural, db.nodes, db.live, sh, root, root, m)
    requires CanHold(m, root, root) && page == root && db.nbPages + 3 < NO_PAGE
    modifies db, node`nbKeys, node`parent, node.childAddrs
    ensures db.Valid() && node.Valid()
      && RootLeafHalved(Natural, old(db.nodes), old(db.live), sh, root, q, home, m, db.nodes)
    ensures Saturated(m) && node.parent == root && key == SplitKey(m) && node.Val() == SplitLeft(m, q).(parent := root)
    ensures db.live == old(db.live) + {q, home} && db.nbPages <= old(db.nbPages) + 2
  {
    hide *;
    TableRootKind();
    ghost var n0, live0 := db.nodes, db.live;
    db.AllBelow();
    Fields(node);
    PlacedFacts(Natural, n0, live0, sh, root, root, m);
    HalfFits(m, root, root);
    db.LiveBound(root);
    key, q := SplitLeafNode(db, node);
    db.LiveBound(q);
    SplitKinds(m, q);
    SplitParents(m, q);
    Fields(node);
    LeafOnly(SplitLeft(m, q));
    home := CreateRoot(Natural, TableInterior, db, page, node, q);
    Fields(node);
    RootLeafHalvedNow(Natural, n0, live0, sh, root, q, home, m, db.nodes);
  }

  /** The row's leaf lacks the key, and the pages can hold the result. */
  ghost predicate Enterable(nodes: map<Page, Node>, sh: Shape, root: Page, key: Key, value: seq<Byte>) {
    && TableOk(nodes, sh, root) && Covers(Natural, sh, root, key) && key < KEY_LIMIT
    && var l := Reach(Natural, nodes, sh, root, root, key);
       l in nodes && Absent(nodes[l], key) && CanHold(WithRow(nodes[l], key, value), l, root)
  }

  /** The row may be inserted, and if its leaf must be split the stored parents lead where they should. */
  ghost predicate Insertable(nodes: map<Page, Node>, sh: Shape, root: Page, key: Key, value: seq<Byte>) {
    && Enterable(nodes, sh, root, key, value)
    && var l := Reach(Natural, nodes, sh, root, root, key);
       |nodes[l].cells| == ORDER - 1 && l != root ==> Upward(Natural, nodes, sh, root, l, nodes[l].parent)
  }

  /** The row's leaf must be split, and the page that it names as its parent, rightly or not, has room for the
      separator. */
  ghost predicate ParentTakes(nodes: map<Page, Node>, sh: Shape, root: Page, key: Key, value: seq<Byte>) {
    && Enterable(nodes, sh, root, key, value)
    && var l := Reach(Natural, nodes, sh, root, root, key);
       |nodes[l].cells| == ORDER - 1 && l != root && nodes[l].parent in nodes && nodes[l].parent != l
         && HasRoom(nodes[nodes[l].parent])
  }

  /** Inserts a row into the tree at `root`: one leaf gains it, splits run up as far as they must, and
      the stored parents stay right exactly when no interior page had to be split. A leaf whose stored parent has room
      is cut there and then, whether or not that is the page that lists the leaf. */
  method Insert(db: Db, root: Page, key: Key, value: seq<Byte>, ghost sh: Shape)
    returns (ret: int, ghost sh': Shape, ghost lp: Page, ghost q: Page)
    requires db.Valid() && (Insertable(db.nodes, sh, root, key, value) || ParentTakes(db.nodes, sh, root, key, value))
    requires db.nbPages + Climb(db.nodes, sh, root, Reach(Natural, db.nodes, sh, root, root, key)) + 3 < NO_PAGE
    modifies db
    ensures ret == 0 && db.Valid() && old(db.live) <= db.live
    ensures var l := old(Reach(Natural, db.nodes, sh, root, root, key));
      old(Insertable(db.nodes, sh, root, key, value)) ==>
        && LeafDone(Natural, old(db.nodes), old(db.live), sh, db.nodes, sh', root, l,
             old(WithRow(db.nodes[l], key, value)), lp, q)
        && (old(WellParented(db.nodes, sh, root)) ==>
              (WellParented(db.nodes, sh', root) <==>
                !(old(|db.nodes[l].cells|) == ORDER - 1 && l != root && ParentFull(old(db.nodes), sh, l))))
    ensures var l := old(Reach(Natural, db.nodes, sh, root, root, key));
      old(ParentTakes(db.nodes, sh, root, key, value)) ==>
        && db.live == old(db.live) + {q} && q !in old(db.live) && lp == l
        && db.nodes == CutAtParent(old(db.nodes), l, old(WithRow(db.nodes[l], key, value)), q)
    ensures old(IsLeaf(db.nodes[root]) && |db.nodes[root].cells| == ORDER - 1) ==> sh'.Keys == {root, lp, q}
    ensures db.nbPages <= old(db.nbPages + Climb(db.nodes, sh, root, Reach(Natural, db.nodes, sh, root, root, key))) + 3
  {
    hide *;
    ghost var n0, live0 := db.nodes, db.live;
    EnterableFacts(n0, sh, root, key, value);
    ghost var l := Reach(Natural, n0, sh, root, root, key);
    ghost var m := WithRow(n0[l], key, value);
    db.AllBelow();
    var cursor := ReadWithRow(db, root, key, value, sh);
    FullParent(n0, live0, sh, root, l, m, key, value);
    Fields(cursor.node);
    if cursor.node.nbKeys == ORDER {
      if cursor.node.parent == NO_PAGE {
        cursor.page, q, sh' := SplitRootLeaf(db, cursor.node, cursor.page, sh, root, m);
        lp := cursor.page;
      } else {
        q, sh' := SplitLeafBelow(db, cursor.node, sh, root, l, m);
        lp := l;
      }
    } else {
      sh', lp, q := sh, l, l;
      RoomSettled(Natural, n0, live0, sh, root, l, m);
    }
    ghost var n1 := db.nodes;
    if Insertable(n0, sh, root, key, value) {
      SettledNow(n0, live0, sh, n1, cursor.page, cursor.node.Val(), sh', root, l, m, lp, q);
    } else {
      db.LiveBound(q);
      LeftHalfFits(m, l, root, q);
    }
    LeafWritable(db, cursor.page);
    ret := db.WriteNode(cursor.node, cursor.page);
  }

  lemma LeafWritable(db: Db, page: Page)
    requires db.Valid() && page in db.nodes
    ensures page in db.live
  {}

  lemma LeftHalfFits(m: Node, l: Page, root: Page, q: Page)
    requires CanHold(m, l, root) && |m.cells| == ORDER && l != root && q < PAGE_LIMIT
    ensures Saturated(m) && Fits(SplitLeft(m, q), Cap(l))
  {}

  lemma SettledNow(n0: map<Page, Node>, live0: set<Page>, sh: Shape, n1: map<Page, Node>, page: Page, m': Node,
                   sh': Shape, root: Page, l: Page, m: Node, lp: Page, q: Page)
    requires LeafSettled(Natural, n0, live0, sh, n1, page, m', sh', root, l, m, lp, q)
    ensures page in n1 && Fits(m', Cap(page))
      && LeafDone(Natural, n0, live0, sh, n1[page := m'], sh', root, l, m, lp, q)
  {}

  lemma EnterableFacts(n0: map<Page, Node>, sh: Shape, root: Page, key: Key, value: seq<Byte>)
    requires Insertable(n0, sh, root, key, value) || ParentTakes(n0, sh, root, key, value)
    ensures TableOk(n0, sh, root) && Tree(Natural, n0, sh, root) && root in sh && Covers(Natural, sh, root, key)
      && key < KEY_LIMIT
    ensures var l := Reach(Natural, n0, sh, root, root, key);
      l in n0 && Absent(n0[l], key) && root in n0 && (IsLeaf(n0[root]) ==> l == root)
  {}

  lemma FullParent(n0: map<Page, Node>, live0: set<Page>, sh: Shape, root: Page, l: Page, m: Node, key: Key,
                   value: seq<Byte>)
    requires Insertable(n0, sh, root, key, value) || ParentTakes(n0, sh, root, key, value)
    requires l == Reach(Natural, n0, sh, root, root, key) && m == WithRow(n0[l], key, value)
    requires Placed(Natural, n0, live0, sh, root, l, m) && forall p {:trigger p in n0} :: p in n0 ==> p < NO_PAGE
    ensures CanHold(m, l, root) && root in sh && |m.cells| == |n0[l].cells| + 1 <= ORDER == 4
    ensures l == root ==> m.parent == NO_PAGE
    ensures l != root && |m.cells| == ORDER ==> m.parent != NO_PAGE && m.parent in n0 && m.parent != l
    ensures l != root && |m.cells| == ORDER ==> Upward(Natural, n0, sh, root, l, m.parent) || HasRoom(n0[m.parent])
    ensures |m.cells| == ORDER && l != root && Insertable(n0, sh, root, key, value) ==>
      Upward(Natural, n0, sh, root, l, m.parent)
    ensures ParentTakes(n0, sh, root, key, value) ==> |m.cells| == ORDER && l != root && HasRoom(n0[m.parent])
  {
    assert m.parent == n0[l].parent;
    if |m.cells| == ORDER && l != root && Insertable(n0, sh, root, key, value) {
      UpwardParent(n0, sh, root, l, m.parent);
    }
    hide Tree, LegalBut, CanHold, Reach;
  }

  lemma UpwardParent(n0: map<Page, Node>, sh: Shape, root: Page, l: Page, a: Page)
    requires Tree(Natural, n0, sh, root) && Upward(Natural, n0, sh, root, l, a)
    ensures a in n0 && a != l
  {
    SpansPages(Natural, n0, sh, root);
    if a == sh[l].par { var i := ParentSlot(Natural, n0, sh, root, l); }
  }
}
