/** The rows of a table tree: what one insert adds, what a lookup finds. */
module TableRows {
  import opened Options
  import opened Nodes
  import opened Codec
  import opened MemNodes
  import opened Disk
  import opened SearchTree
  import opened Cascade
  import opened PageTree
  import opened TableTree
  import opened LeafInsert
  import opened TableInsert

  ghost predicate LeafWith(V: map<Page, Node>, sh: Shape, p: Page, c: Cell) {
    p in sh && p in V && V[p].kind == TableLeaf && c in V[p].cells
  }

  /** Some leaf of the tree holds the row. */
  ghost predicate HasRow(V: map<Page, Node>, sh: Shape, key: Key, value: seq<Byte>) {
    exists p {:trigger LeafWith(V, sh, p, Cell(key, value))} :: LeafWith(V, sh, p, Cell(key, value))
  }

  ghost predicate AnyRow(V: map<Page, Node>, sh: Shape, key: Key) {
    exists v {:trigger HasRow(V, sh, key, v)} :: HasRow(V, sh, key, v)
  }

  /** A row lies in the one leaf that a search for its key reaches, and its key is in the tree's span. */
  lemma RowIsReached(V: map<Page, Node>, sh: Shape, root: Page, p: Page, c: Cell)
    requires Tree(Natural, V, sh, root) && LeafWith(V, sh, p, c)
    ensures Covers(Natural, sh, root, c.key) && Reach(Natural, V, sh, root, root, c.key) == p
  {
    assert Local(Natural, V, sh, root, p) && Local(Natural, V, sh, root, root);
    var i :| 0 <= i < |V[p].cells| && V[p].cells[i] == c;
    assert sh[p].lo <= K(Natural, V[p], i) < sh[p].hi;
    ReachUnique(Natural, V, sh, root, p, c.key);
  }

  /** One key, one row. */
  lemma RowsAreUnique(V: map<Page, Node>, sh: Shape, root: Page, key: Key, v: seq<Byte>, w: seq<Byte>)
    requires Tree(Natural, V, sh, root) && HasRow(V, sh, key, v) && HasRow(V, sh, key, w)
    ensures v == w
  {
    var p :| LeafWith(V, sh, p, Cell(key, v));
    var q :| LeafWith(V, sh, q, Cell(key, w));
    RowIsReached(V, sh, root, p, Cell(key, v));
    RowIsReached(V, sh, root, q, Cell(key, w));
    assert Local(Natural, V, sh, root, p);
    var i :| 0 <= i < |V[p].cells| && V[p].cells[i] == Cell(key, v);
    var j :| 0 <= j < |V[p].cells| && V[p].cells[j] == Cell(key, w);
    assert K(Natural, V[p], i) == K(Natural, V[p], j);
  }

  lemma InsertedCells(n: Node, key: Key, value: seq<Byte>, c: Cell)
    ensures c in WithRow(n, key, value).cells <==> c in n.cells || c == Cell(key, value)
  {
    var pos := Place(n, key);
    assert n.cells == n.cells[..pos] + n.cells[pos..];
  }

  lemma HalvesCells(m: Node, q: Page, c: Cell)
    requires Saturated(m) && m.kind == TableLeaf
    ensures c in m.cells <==> c in SplitLeft(m, q).cells || c in SplitRight(m).cells
  {
    assert m.cells == m.cells[..2] + m.cells[2..];
  }

  /** One insert adds exactly its own row. */
  lemma InsertAddsRow(n0: map<Page, Node>, live0: set<Page>, sh: Shape, n1: map<Page, Node>, sh': Shape, root: Page,
                      l: Page, key: Key, value: seq<Byte>, lp: Page, q: Page, k: Key, v: seq<Byte>)
    requires l in n0 && n0[l].kind == TableLeaf && |n0[l].cells| < ORDER && TableOk(n0, sh, root)
    requires LeafDone(Natural, n0, live0, sh, n1, sh', root, l, WithRow(n0[l], key, value), lp, q)
    ensures HasRow(n1, sh', k, v) <==> HasRow(n0, sh, k, v) || (k == key && v == value)
  {
    var c, m := Cell(k, v), WithRow(n0[l], key, value);
    assert l in sh;
    InsertedCells(n0[l], key, value, c);
    if |m.cells| == ORDER {
      HalvesCells(m, q, c);
      SplitKinds(m, q);
    }
    SpansPages(Natural, n0, sh, root);
    forall x | x in sh ensures IsLeaf(n0[x]) ==> n0[x].kind == TableLeaf { LeafKind(n0, sh, root, x); }
    hide Tree, SplitLeft, SplitRight, WithRow, Framed, LegalBut, LeafDone;
    if HasRow(n0, sh, k, v) {
      var p :| LeafWith(n0, sh, p, c);
      RowSurvives(n0, live0, sh, n1, sh', root, l, m, lp, q, p, c);
    }
    if k == key && v == value {
      RowSurvives(n0, live0, sh, n1, sh', root, l, m, lp, q, l, c);
    }
    if HasRow(n1, sh', k, v) {
      var p :| LeafWith(n1, sh', p, c);
      RowWasThere(n0, live0, sh, n1, sh', root, l, m, lp, q, p, c);
      assert c in n0[l].cells ==> LeafWith(n0, sh, l, c);
    }
  }

  lemma RowSurvives(n0: map<Page, Node>, live0: set<Page>, sh: Shape, n1: map<Page, Node>, sh': Shape, root: Page,
                    l: Page, m: Node, lp: Page, q: Page, p: Page, c: Cell)
    requires LeafDone(Natural, n0, live0, sh, n1, sh', root, l, m, lp, q) && m.kind == TableLeaf && |m.cells| <= ORDER
    requires p in sh && p in n0 && n0[p].kind == TableLeaf && (if p == l then c in m.cells else c in n0[p].cells)
    requires Saturated(m) ==> (c in m.cells <==> c in SplitLeft(m, q).cells || c in SplitRight(m).cells)
    requires Saturated(m) ==> SplitLeft(m, q).kind == TableLeaf && SplitRight(m).kind == TableLeaf
    ensures HasRow(n1, sh', c.key, c.value)
  {
    hide Tree, SplitLeft, SplitRight, Framed, LegalBut;
    if |m.cells| < ORDER {
      assert LeafWith(n1, sh', p, Cell(c.key, c.value));
    } else if p == l {
      assert LeafWith(n1, sh', lp, Cell(c.key, c.value)) || LeafWith(n1, sh', q, Cell(c.key, c.value));
    } else {
      assert LeafKept(n0, sh, n1, sh', root, p);
      assert LeafWith(n1, sh', p, Cell(c.key, c.value));
    }
  }

  lemma RowWasThere(n0: map<Page, Node>, live0: set<Page>, sh: Shape, n1: map<Page, Node>, sh': Shape, root: Page,
                    l: Page, m: Node, lp: Page, q: Page, p: Page, c: Cell)
    requires LeafDone(Natural, n0, live0, sh, n1, sh', root, l, m, lp, q) && m.kind == TableLeaf && |m.cells| <= ORDER
    requires LeafWith(n1, sh', p, c) && sh.Keys <= n0.Keys
      && (forall x :: x in sh && x in n0 && IsLeaf(n0[x]) ==> n0[x].kind == TableLeaf)
    requires Saturated(m) ==> (c in m.cells <==> c in SplitLeft(m, q).cells || c in SplitRight(m).cells)
    ensures c in m.cells || LeafWith(n0, sh, p, c)
  {
    hide Tree, SplitLeft, SplitRight, Framed, LegalBut;
    if |m.cells| == ORDER {
      assert p in sh || p == lp || p == q || NewInterior(n0, n1, p);
      if p != lp && p != q {
        assert StillInterior(n0, n1, p);
        if p != l { assert LeafKept(n0, sh, n1, sh', root, p); }
      }
    }
  }

  /** In a well-parented tree with legal fill, a row fits in wherever its key is new and its pages have room. */
  lemma NewRowIsInsertable(V: map<Page, Node>, sh: Shape, root: Page, key: Key, value: seq<Byte>)
    requires TableOk(V, sh, root) && WellParented(V, sh, root) && root in sh && Covers(Natural, sh, root, key)
      && key < KEY_LIMIT
    requires forall v {:trigger HasRow(V, sh, key, v)} :: !HasRow(V, sh, key, v)
    requires var l := Reach(Natural, V, sh, root, root, key); l in V ==> CanHold(WithRow(V[l], key, value), l, root)
    ensures Insertable(V, sh, root, key, value)
  {
    ReachCovers(Natural, V, sh, root, root, key);
    var l := Reach(Natural, V, sh, root, root, key);
    LeafKind(V, sh, root, l);
    forall i | 0 <= i < |V[l].cells| ensures V[l].cells[i].key != key {
      if V[l].cells[i].key == key { PresentRow(V, sh, l, i, key, V[l].cells[i].value); }
    }
    assert sh[l].rank >= 0;
    assert Local(Natural, V, sh, root, l);
    hide Tree, LegalBut, CanHold, HasRow;
  }

  /** `get_row`: the bytes stored under `key`, with the cursor left on their cell. */
  method GetRow(db: Db, root: Page, key: Key, ghost sh: Shape) returns (row: Option<seq<Byte>>, cursor: Cursor)
    requires db.Valid() && Tree(Natural, db.nodes, sh, root)
    modifies db`cache, db`cacheSize
    ensures db.Valid() && fresh(cursor) && fresh(cursor.node) && fresh(cursor.node.keyVals)
      && fresh(cursor.node.childAddrs)
    ensures row.Some? <==> AnyRow(db.nodes, sh, key)
    ensures row.Some? ==> HasRow(db.nodes, sh, key, row.value)
    ensures row.Some? ==> On(db.nodes, cursor) && cursor.page in sh && cursor.cell < |db.nodes[cursor.page].cells|
                          && db.nodes[cursor.page].kind == TableLeaf
                          && db.nodes[cursor.page].cells[cursor.cell] == Cell(key, row.value)
  {
    cursor := FindLeaf(db, root, key, sh);
    ghost var n := db.nodes[cursor.page];
    SortedLeaf(db.nodes, sh, root, cursor.page);
    Fields(cursor.node);
    assert cursor.node.Val().cells == cursor.node.keyVals[..cursor.node.nbKeys];
    hide *;
    SeekCell(cursor, key, n);
    if cursor.cell == cursor.node.nbKeys || cursor.node.keyVals[cursor.cell].key != key {
      AbsentRow(db.nodes, sh, root, key);
      row := None;
    } else {
      row := Some(cursor.node.keyVals[cursor.cell].value);
      PresentRow(db.nodes, sh, cursor.page, cursor.cell, key, row.value);
    }
  }

  /** Moves the cursor to the first cell that is not below the key. */
  method SeekCell(cursor: Cursor, key: Key, ghost n: Node)
    requires cursor.node.Valid() && cursor.cell == 0
    requires n.cells == cursor.node.keyVals[..cursor.node.nbKeys]
    requires forall i, j :: 0 <= i < j < |n.cells| ==> n.cells[i].key < n.cells[j].key
    modifies cursor`cell
    ensures cursor.cell <= |n.cells| == cursor.node.nbKeys
    ensures cursor.cell < |n.cells| ==> n.cells[cursor.cell] == cursor.node.keyVals[cursor.cell]
    ensures (cursor.cell == |n.cells| || n.cells[cursor.cell].key != key) ==> Absent(n, key)
  {
    while cursor.cell < cursor.node.nbKeys && cursor.node.keyVals[cursor.cell].key < key
      invariant cursor.cell <= |n.cells|
      invariant forall j :: 0 <= j < cursor.cell ==> n.cells[j].key < key
    {
      assert n.cells[cursor.cell] == cursor.node.keyVals[cursor.cell];
      cursor.cell := cursor.cell + 1;
    }
  }

  lemma AbsentRow(V: map<Page, Node>, sh: Shape, root: Page, key: Key)
    requires Tree(Natural, V, sh, root)
    requires var l := Reach(Natural, V, sh, root, root, key); l in V && Absent(V[l], key)
    ensures !AnyRow(V, sh, key)
  {
    MissingRow(V, sh, root, key);
    hide Tree, Reach, HasRow;
  }

  lemma PresentRow(V: map<Page, Node>, sh: Shape, p: Page, i: nat, key: Key, value: seq<Byte>)
    requires p in sh && p in V && V[p].kind == TableLeaf && i < |V[p].cells| && V[p].cells[i] == Cell(key, value)
    ensures HasRow(V, sh, key, value) && AnyRow(V, sh, key)
  {
    assert LeafWith(V, sh, p, Cell(key, value));
    assert HasRow(V, sh, key, value);
  }

  lemma SortedLeaf(V: map<Page, Node>, sh: Shape, root: Page, p: Page)
    requires Tree(Natural, V, sh, root) && p in sh
    ensures p in V && forall i, j :: 0 <= i < j < |V[p].cells| ==> V[p].cells[i].key < V[p].cells[j].key
  {
    assert Local(Natural, V, sh, root, p);
    forall i, j | 0 <= i < j < |V[p].cells| ensures V[p].cells[i].key < V[p].cells[j].key {
      assert K(Natural, V[p], i) < K(Natural, V[p], j);
    }
  }

  /** A key that its leaf does not hold is nowhere. */
  lemma MissingRow(V: map<Page, Node>, sh: Shape, root: Page, key: Key)
    requires Tree(Natural, V, sh, root)
    ensures var l := Reach(Natural, V, sh, root, root, key);
      forall v :: HasRow(V, sh, key, v) ==> l in V && Cell(key, v) in V[l].cells
  {
    forall v | HasRow(V, sh, key, v) ensures var l := Reach(Natural, V, sh, root, root, key);
      l in V && Cell(key, v) in V[l].cells {
      var p :| LeafWith(V, sh, p, Cell(key, v));
      RowIsReached(V, sh, root, p, Cell(key, v));
    }
  }
}
