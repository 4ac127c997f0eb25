/** Walking the leaf chain: `create_at_start` and `cursor_next` visit every row once, in order. */
module TableScan {
  import opened Options
  import opened Nodes
  import opened Codec
  import opened MemNodes
  import opened Disk
  import opened SearchTree
  import opened Cascade
  import opened PageTree
  import opened TableTree
  import opened LeafInsert
  import opened TableInsert
  import opened TableRows
  import opened TableChain
  import opened TableRun

  /** A search tree and the chain that a scan of it follows, complete or not. */
  ghost predicate Scannable(V: map<Page, Node>, t: Table) {
    Tree(Natural, V, t.sh, t.root) && Strung(V, t.sh, t.root, t.chain) && t.root in V
  }

  lemma TableScannable(V: map<Page, Node>, t: Table)
    requires TableIs(V, t)
    ensures Scannable(V, t)
  {}

  /** The cursor is on row `k`, in link `i` of the chain. */
  ghost predicate AtRow(V: map<Page, Node>, t: Table, cursor: Cursor, i: nat, k: nat)
    reads cursor, cursor.node, cursor.node.keyVals, cursor.node.childAddrs
  {
    && On(V, cursor) && i < |t.chain| && cursor.page == t.chain[i]
    && cursor.cell < |V[cursor.page].cells| && k == |Rows(V, t.chain[..i])| + cursor.cell
  }

  lemma {:induction false} RowAt(V: map<Page, Node>, chain: seq<Page>, i: nat, c: nat)
    requires i < |chain| && chain[i] in V && c < |V[chain[i]].cells|
    ensures var k := |Rows(V, chain[..i])| + c; k < |Rows(V, chain)| && Rows(V, chain)[k] == V[chain[i]].cells[c]
  {
    var n := |chain| - 1;
    if i < n {
      assert chain[..n][..i] == chain[..i];
      RowAt(V, chain[..n], i, c);
    }
  }

  lemma RowsUpto(V: map<Page, Node>, chain: seq<Page>, i: nat)
    requires i < |chain| && chain[i] in V
    ensures Rows(V, chain[..i + 1]) == Rows(V, chain[..i]) + V[chain[i]].cells
  {
    RowsSnoc(V, chain[..i], chain[i], chain[..i + 1]);
  }

  /** One child down along the left edge. */
  lemma LeftChild(V: map<Page, Node>, sh: Shape, root: Page, p: Page)
    requires Tree(Natural, V, sh, root) && p in sh && p in V && !IsLeaf(V[p]) && sh[p].lo == sh[root].lo
    ensures |V[p].kids| > 0 && V[p].kids[0] in sh && V[p].kids[0] in V
    ensures sh[V[p].kids[0]].rank < sh[p].rank && sh[V[p].kids[0]].lo == sh[root].lo
  {
    assert Local(Natural, V, sh, root, p);
    assert KidOk(Natural, V[p], p, sh, 0);
    assert Local(Natural, V, sh, root, V[p].kids[0]);
  }

  /** The leftmost leaf starts the chain. */
  lemma LeftLeaf(V: map<Page, Node>, t: Table, p: Page)
    requires Scannable(V, t) && p in t.sh && p in V && IsLeaf(V[p]) && t.root in t.sh && t.sh[p].lo == t.sh[t.root].lo
    ensures t.chain != [] && p == t.chain[0] && ChainLink(V, t.sh, t.chain, 0)
  {
    assert ChainLink(V, t.sh, t.chain, 0);
    assert Local(Natural, V, t.sh, t.root, p) && Local(Natural, V, t.sh, t.root, t.chain[0]);
    ReachUnique(Natural, V, t.sh, t.root, p, t.sh[p].lo);
    ReachUnique(Natural, V, t.sh, t.root, t.chain[0], t.sh[p].lo);
  }

  lemma FirstRow(V: map<Page, Node>, t: Table)
    requires Scannable(V, t) && RowsOf(V, t) != []
    ensures t.chain != [] && t.chain[0] in V && V[t.chain[0]].cells != [] && Rows(V, t.chain[..0]) == []
  {
    assert ChainLink(V, t.sh, t.chain, 0);
    assert t.chain[..0] == [];
    if |t.chain| == 1 {
      assert Rows(V, t.chain) == Rows(V, t.chain[..0]) + V[t.chain[0]].cells;
    }
  }

  method CreateAtStart(db: Db, root: Page, ghost t: Table) returns (cursor: Cursor)
    requires db.Valid() && Scannable(db.nodes, t) && t.root == root
    modifies db`cache, db`cacheSize
    ensures db.Valid() && fresh(cursor) && fresh(cursor.node) && fresh(cursor.node.keyVals)
      && fresh(cursor.node.childAddrs)
    ensures On(db.nodes, cursor) && cursor.cell == 0 && t.chain != [] && cursor.page == t.chain[0]
    ensures RowsOf(db.nodes, t) != [] ==> AtRow(db.nodes, t, cursor, 0, 0)
  {
    assert Local(Natural, db.nodes, t.sh, root, root);
    var node := db.ReadNode(root);
    cursor := new Cursor(root, node);
    ghost var V := db.nodes;
    while cursor.node.kind != TableLeaf
      invariant db.Valid() && db.nodes == V && fresh(cursor) && fresh(cursor.node) && fresh(cursor.node.keyVals)
        && fresh(cursor.node.childAddrs)
      invariant On(V, cursor) && cursor.cell == 0 && cursor.page in t.sh && t.sh[cursor.page].lo == t.sh[root].lo
      decreases t.sh[cursor.page].rank
    {
      LeafKind(V, t.sh, root, cursor.page);
      assert V[cursor.page].kind == cursor.node.kind;
      LeftChild(V, t.sh, root, cursor.page);
      hide Scannable, Tree, Db.Valid;
      StepIn(db, cursor);
    }
    LeafKind(V, t.sh, root, cursor.page);
    LeftLeaf(V, t, cursor.page);
    if RowsOf(V, t) != [] { FirstRow(V, t); }
  }

  /** What `cursor_next` has to find out about its leaf. */
  lemma NextRow(V: map<Page, Node>, t: Table, i: nat, c: nat)
    requires Scannable(V, t) && i < |t.chain| && t.chain[i] in V && c < |V[t.chain[i]].cells| && NO_PAGE !in V
    ensures V[t.chain[i]].kind == TableLeaf && |V[t.chain[i]].kids| == 1
    ensures var k := |Rows(V, t.chain[..i])| + c;
      if c + 1 < |V[t.chain[i]].cells| then k + 1 < |RowsOf(V, t)|
      else if i + 1 < |t.chain| then
        && V[t.chain[i]].kids[0] == t.chain[i + 1] != NO_PAGE && t.chain[i + 1] in V && V[t.chain[i + 1]].cells != []
        && k + 1 == |Rows(V, t.chain[..i + 1])| && k + 1 < |RowsOf(V, t)|
      else V[t.chain[i]].kids[0] == NO_PAGE && k + 1 == |RowsOf(V, t)|
  {
    assert ChainLink(V, t.sh, t.chain, i);
    RowsUpto(V, t.chain, i);
    if c + 1 < |V[t.chain[i]].cells| {
      RowAt(V, t.chain, i, c + 1);
    } else if i + 1 < |t.chain| {
      assert ChainLink(V, t.sh, t.chain, i + 1);
      RowAt(V, t.chain, i + 1, 0);
    } else {
      assert t.chain[..i + 1] == t.chain;
    }
  }

  /** Moves to the next row; -1 after the last one. */
  method CursorNext(db: Db, cursor: Cursor, ghost t: Table, ghost i: nat, ghost k: nat)
    returns (ret: int, ghost i': nat)
    requires db.Valid() && Scannable(db.nodes, t) && AtRow(db.nodes, t, cursor, i, k)
    modifies db`cache, db`cacheSize, cursor
    ensures db.Valid() && (cursor.node == old(cursor.node)
      || (fresh(cursor.node) && fresh(cursor.node.keyVals) && fresh(cursor.node.childAddrs)))
    ensures if k + 1 < |RowsOf(db.nodes, t)| then ret == 0 && AtRow(db.nodes, t, cursor, i', k + 1)
            else ret == -1 && k + 1 == |RowsOf(db.nodes, t)|
  {
    db.AllBelow();
    NextRow(db.nodes, t, i, cursor.cell);
    Fields(cursor.node);
    assert cursor.node.nbKeys == |db.nodes[cursor.page].cells|;
    hide Db.Valid, Scannable, RowsOf, Rows;
    cursor.cell, i' := cursor.cell + 1, i;
    if cursor.cell < cursor.node.nbKeys {
      ret := 0;
    } else if cursor.node.childAddrs[0] == NO_PAGE {
      ret := -1;
    } else {
      StepRight(db, cursor);
      ret, i' := 0, i + 1;
    }
  }

  /** To the first cell of the right neighbour. */
  method StepRight(db: Db, cursor: Cursor)
    requires db.Valid() && cursor.node.Valid() && cursor.node.childAddrs[0] in db.nodes
    modifies db`cache, db`cacheSize, cursor
    ensures db.Valid() && On(db.nodes, cursor) && cursor.cell == 0
    ensures cursor.page == old(cursor.node.childAddrs[0])
    ensures fresh(cursor.node) && fresh(cursor.node.keyVals) && fresh(cursor.node.childAddrs)
  {
    hide Db.Valid;
    cursor.cell := 0;
    cursor.page := cursor.node.childAddrs[0];
    cursor.node := db.ReadNode(cursor.page);
  }

  lemma RowHere(V: map<Page, Node>, t: Table, cursor: Cursor, i: nat, k: nat)
    requires AtRow(V, t, cursor, i, k)
    ensures cursor.node.Valid() && cursor.cell < cursor.node.keyVals.Length
    ensures k < |RowsOf(V, t)| && RowsOf(V, t)[k] == cursor.node.keyVals[cursor.cell]
  {
    RowAt(V, t.chain, i, cursor.cell);
    Fields(cursor.node);
    CellsOf(cursor.node);
  }

  /** The `do ... while` over a table: every row of the chain once, in chain order, and then the end. In an empty table
      the C code reads a cell that the leaf does not have: there is no result. */
  method ScanAll(db: Db, root: Page, ghost t: Table) returns (rows: Option<seq<Cell>>)
    requires db.Valid() && Scannable(db.nodes, t) && t.root == root
    modifies db`cache, db`cacheSize
    ensures db.Valid() && rows == if RowsOf(db.nodes, t) == [] then None else Some(RowsOf(db.nodes, t))
  {
    hide *;
    var cursor := CreateAtStart(db, root, t);
    ghost var V, all := db.nodes, RowsOf(db.nodes, t);
    StartFacts(V, t, cursor);
    if cursor.node.nbKeys == 0 { return None; }
    ghost var i: nat, k: nat := 0, 0;
    var met: seq<Cell> := [];
    var ret := 0;
    while ret == 0
      invariant db.Valid() && db.nodes == V && fresh(cursor) && fresh(cursor.node) && fresh(cursor.node.keyVals)
        && fresh(cursor.node.childAddrs)
      invariant ret == 0 || ret == -1
      invariant ret == 0 ==> AtRow(V, t, cursor, i, k) && k < |all| && met == all[..k]
      invariant ret == -1 ==> met == all
      decreases |all| - k, ret == 0
    {
      RowHere(V, t, cursor, i, k);
      met := met + [cursor.node.keyVals[cursor.cell]];
      assert met == all[..k + 1];
      ret, i := CursorNext(db, cursor, t, i, k);
      if ret == 0 { k := k + 1; }
    }
    rows := Some(met);
  }

  /** Only an empty table starts with an empty leaf. */
  lemma StartFacts(V: map<Page, Node>, t: Table, cursor: Cursor)
    requires Scannable(V, t) && On(V, cursor) && t.chain != [] && cursor.page == t.chain[0]
    ensures cursor.node.nbKeys == 0 <==> RowsOf(V, t) == []
    ensures RowsOf(V, t) != [] ==> 0 < |RowsOf(V, t)|
  {
    assert ChainLink(V, t.sh, t.chain, 0);
    Fields(cursor.node);
    if RowsOf(V, t) == [] {
      RowsAround(V, t.chain, 0);
    } else {
      FirstRow(V, t);
    }
  }
}
