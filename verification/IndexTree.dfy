/** The index B-tree: row ids ordered by the nth record of their row, inserted at a leaf and split upwards. */
module IndexTree {
  import opened Options
  import opened Nodes
  import opened Codec
  import opened MemNodes
  import opened Disk
  import opened SearchTree
  import opened Cascade
  import opened PageTree
  import opened LeafInsert
  import opened TableRows
  import opened Records
  import DbOps

  // ---------------------------------------------------------------- the order of an index

  /** What an index is ordered by: record `n` of the rows of a table tree (whose pages are `rows`), here with
      the value of that record for each row id, and the row ids' ranks by value. */
  datatype Field = Field(table: Page, n: nat, rows: Shape, value: map<Key, Record>, at: map<Key, int>)

  ghost function By(f: Field): Order {
    Ranked(f.at)
  }

  ghost predicate FieldAt(V: map<Page, Node>, f: Field, k: Key)
    requires k in f.value
  {
    exists v {:trigger HasRow(V, f.rows, k, v)} :: HasRow(V, f.rows, k, v) && Extract(v, f.n) == Some(f.value[k])
  }

  ghost predicate FieldIs(V: map<Page, Node>, f: Field) {
    && Tree(Natural, V, f.rows, f.table)
    && forall k {:trigger k in f.value} :: k in f.value ==> FieldAt(V, f, k)
  }

  /** The ranks agree with `compare_r`, on values that it can compare. */
  ghost predicate Ranks(f: Field) {
    && f.at.Keys == f.value.Keys
    && forall j, k {:trigger f.value[j], f.value[k]} :: j in f.value && k in f.value ==>
         SameClass(f.value[j], f.value[k]) && Compare(f.value[j], f.value[k]) == Sign(f.at[j], f.at[k])
  }

  /** The index's own pages are not the table's. */
  ghost predicate Backs(V: map<Page, Node>, f: Field, sh: Shape) {
    FieldIs(V, f) && Ranks(f) && f.rows.Keys !! sh.Keys
  }

  ghost predicate Known(V: map<Page, Node>, sh: Shape, f: Field) {
    forall k {:trigger HasKey(V, sh, k)} :: HasKey(V, sh, k) ==> k in f.value
  }

  /** Writing index pages, and taking new ones, leaves the table alone. */
  lemma BacksFrame(V: map<Page, Node>, W: map<Page, Node>, f: Field, sh: Shape, sh': Shape)
    requires Backs(V, f, sh)
    requires forall p {:trigger p in V} :: p in V && p !in sh ==> p in W && W[p] == V[p]
    requires forall p {:trigger p in sh'} :: p in sh' && p !in sh ==> p !in V
    ensures Backs(W, f, sh')
  {
    SpansPages(Natural, V, f.rows, f.table);
    forall p | p in f.rows ensures p in V && p in W && W[p] == V[p] {
      assert p !in sh;
    }
    TreeFrame(Natural, V, W, f.rows, f.table);
    hide Tree, Ranks, Extract;
    forall k | k in f.value ensures FieldAt(W, f, k) {
      assert FieldAt(V, f, k);
      var v :| HasRow(V, f.rows, k, v) && Extract(v, f.n) == Some(f.value[k]);
      var p :| LeafWith(V, f.rows, p, Cell(k, v));
      assert LeafWith(W, f.rows, p, Cell(k, v));
      assert HasRow(W, f.rows, k, v);
    }
  }

  lemma KnownThrough(V: map<Page, Node>, sh: Shape, W: map<Page, Node>, sh': Shape, f: Field)
    requires Known(V, sh, f) && KeysKept(V, sh, W, sh')
    ensures Known(W, sh', f)
  {
    hide HasKey;
  }

  lemma KnownNode(V: map<Page, Node>, sh: Shape, f: Field, p: Page)
    requires Known(V, sh, f) && p in sh && p in V
    ensures CellsKnown(V[p].cells, f)
    ensures forall i {:trigger V[p].cells[i]} :: 0 <= i < |V[p].cells| ==> V[p].cells[i].key in f.value
  {
    forall i | 0 <= i < |V[p].cells| ensures V[p].cells[i].key in f.value {
      assert HoldsKey(V, sh, p, V[p].cells[i].key);
      assert HasKey(V, sh, V[p].cells[i].key);
    }
  }

  lemma FieldReadable(V: map<Page, Node>, f: Field, key: Key)
    requires FieldIs(V, f) && key in f.value
    ensures DbOps.Readable(V, f.rows, key, f.n)
    ensures exists v {:trigger HasRow(V, f.rows, key, v)} :: HasRow(V, f.rows, key, v)
    ensures forall v {:trigger HasRow(V, f.rows, key, v)} :: HasRow(V, f.rows, key, v) ==>
      Extract(v, f.n) == Some(f.value[key])
  {
    hide Extract, HasRow;
    assert FieldAt(V, f, key);
    var w :| HasRow(V, f.rows, key, w) && Extract(w, f.n) == Some(f.value[key]);
    forall v | HasRow(V, f.rows, key, v) ensures v == w { RowsAreUnique(V, f.rows, f.table, key, v, w); }
  }

  /** `get_n_record` on a row that the index knows. */
  method FieldOf(db: Db, key: Key, n: nat, table: Page, ghost f: Field) returns (record: Record)
    requires db.Valid() && FieldIs(db.nodes, f) && key in f.value && n == f.n && table == f.table
    modifies db`cache, db`cacheSize
    ensures db.Valid() && record == f.value[key]
  {
    FieldReadable(db.nodes, f, key);
    assert Tree(Natural, db.nodes, f.rows, f.table);
    hide *;
    var found := DbOps.GetNRecord(db, table, key, n, f.rows);
    record := found.value;
  }

  /** The cells of a node all hold row ids that the field has a value for. */
  ghost predicate CellsKnown(cells: seq<Cell>, f: Field) {
    forall i {:trigger cells[i]} :: 0 <= i < |cells| ==> cells[i].key in f.value
  }

  lemma ComparedAs(f: Field, j: Key, k: Key)
    requires Ranks(f) && j in f.value && k in f.value
    ensures j in f.at && k in f.at && Comparable(f.value[j]) && Comparable(f.value[k])
    ensures Compare(f.value[j], f.value[k]) == Sign(f.at[j], f.at[k])
  {}

  /** The first cell whose record is not below the record of `key`. */
  method FindOffset(db: Db, node: MemNode, key: Key, n: nat, table: Page, ghost f: Field) returns (offset: nat)
    requires db.Valid() && FieldIs(db.nodes, f) && Ranks(f) && n == f.n && table == f.table
    requires node.Valid() && key in f.value && CellsKnown(node.Val().cells, f)
    modifies db`cache, db`cacheSize
    ensures db.Valid() && offset <= node.nbKeys && key in f.at && |node.Val().cells| == node.nbKeys
    ensures forall j {:trigger K(By(f), node.Val(), j)} :: 0 <= j < offset ==> K(By(f), node.Val(), j) < f.at[key]
    ensures offset < node.nbKeys ==> f.at[key] <= K(By(f), node.Val(), offset)
  {
    hide *;
    ghost var m := node.Val();
    CellsOf(node);
    offset := 0;
    var keyR := FieldOf(db, key, n, table, f);
    ComparedAs(f, key, key);
    while offset < node.nbKeys
      modifies db`cache, db`cacheSize
      invariant db.Valid() && offset <= node.nbKeys
      invariant forall j {:trigger K(By(f), m, j)} :: 0 <= j < offset ==> K(By(f), m, j) < f.at[key]
    {
      assert node.keyVals[offset] == m.cells[offset];
      CellKnown(m, f, offset);
      var nodeR := FieldOf(db, node.keyVals[offset].key, n, table, f);
      ComparedAs(f, key, m.cells[offset].key);
      var cmp := CompareR(keyR, nodeR);
      SignIs(f.at[key], K(By(f), m, offset));
      if cmp <= 0 { break; }
      offset := offset + 1;
    }
  }

  lemma CellKnown(m: Node, f: Field, i: nat)
    requires CellsKnown(m.cells, f) && i < |m.cells| && Ranks(f)
    ensures m.cells[i].key in f.value && m.cells[i].key in f.at && K(By(f), m, i) == f.at[m.cells[i].key]
  {}

  lemma SignIs(x: int, y: int)
    ensures Sign(x, y) <= 0 <==> x <= y
    ensures Sign(x, y) < 0 <==> x < y
    ensures Sign(x, y) == 0 <==> x == y
  {}

  // ---------------------------------------------------------------- inserting a separator, and upwards

  /** The node with the separator added, as `insert_internal_bt` has it in memory. */
  method ReadWithKid(db: Db, addr: Page, key: Key, value: Page, n: nat, table: Page, ghost pos: nat, ghost f: Field)
    returns (node: MemNode)
    requires db.Valid() && addr in db.nodes && key < KEY_LIMIT && value < PAGE_LIMIT && n == f.n && table == f.table
    requires KidPlace(By(f), db.nodes[addr], pos, key) && FieldIs(db.nodes, f) && Ranks(f)
    requires key in f.value && CellsKnown(db.nodes[addr].cells, f)
    modifies db`cache, db`cacheSize
    ensures db.Valid() && fresh(node) && fresh(node.keyVals) && fresh(node.childAddrs) && node.Valid()
    ensures node.Val() == InsertKid(db.nodes[addr], pos, key, value) && Plain(node.Val())
  {
    hide *;
    ghost var m := db.nodes[addr];
    db.NodeOk(addr);
    FitsPlain(m, Cap(addr));
    node := db.ReadNode(addr);
    Fields(node);
    var offset := FindOffset(db, node, key, n, table, f);
    KidPlaceFacts(By(f), m, pos, key);
    SamePlace(f, m, offset, pos, key);
    AddKid(node, offset, key, value);
    InsertKidPlain(By(f), m, pos, key, value);
  }

  /** The place found by comparing records is the place of the child that was split. */
  lemma SamePlace(f: Field, m: Node, offset: nat, pos: nat, key: Key)
    requires KidPlace(By(f), m, pos, key) && offset <= |m.cells| && key in f.at
    requires forall j {:trigger K(By(f), m, j)} :: 0 <= j < offset ==> K(By(f), m, j) < f.at[key]
    requires offset < |m.cells| ==> f.at[key] <= K(By(f), m, offset)
    ensures offset == pos
  {
    assert Ord(By(f), key) == f.at[key];
  }

  lemma NewKidKnown(n0: map<Page, Node>, addr: Page, key: Key, value: Page, root: Page, sh: Shape, pos: nat,
                    pend: map<Page, Node>, f: Field)
    requires CanInsert(By(f), n0, addr, key, value, root, sh, pos, pend)
      && Known(WithKid(By(f), n0, addr, key, value, pos, pend), sh, f)
    ensures key in f.value && CellsKnown(n0[addr].cells, f)
  {
    var W := WithKid(By(f), n0, addr, key, value, pos, pend);
    KnownNode(W, sh, f, addr);
    var m, c := n0[addr], W[addr].cells;
    hide Ready, Known;
    assert c[pos].key == key;
    forall i | 0 <= i < |m.cells| ensures m.cells[i].key in f.value {
      assert m.cells[i] == c[if i < pos then i else i + 1];
    }
  }

  method InsertInternal(db: Db, addr: Page, key: Key, value: Page, n: nat, table: Page,
                        ghost root: Page, ghost sh: Shape, ghost pos: nat, ghost pend: map<Page, Node>, ghost f: Field)
    returns (ret: int, ghost sh': Shape)
    requires db.Valid() && CanInsert(By(f), db.nodes, addr, key, value, root, sh, pos, pend)
    requires Backs(db.nodes, f, sh) && Known(WithKid(By(f), db.nodes, addr, key, value, pos, pend), sh, f) && n == f.n
      && table == f.table
    requires db.nbPages + Growth(sh, root, addr, db.nodes[addr]) < NO_PAGE
    modifies db
    ensures ret == 0 && db.Valid() && old(db.live) <= db.live && pend.Keys <= db.nodes.Keys
    ensures Grown(By(f), old(WithKid(By(f), db.nodes, addr, key, value, pos, pend)), sh, db.nodes + pend, sh', root,
      addr)
    ensures Framed(old(db.nodes), old(db.live), db.nodes, sh, sh')
    ensures db.nbPages <= old(db.nbPages + Growth(sh, root, addr, db.nodes[addr]))
    decreases sh[root].rank - sh[addr].rank, |db.nodes[addr].cells|, 1
  {
    hide *;
    ghost var n0, live0 := db.nodes, db.live;
    InsertFacts(By(f), n0, addr, key, value, root, sh, pos, pend);
    KidPlaceFacts(By(f), n0[addr], pos, key);
    ghost var M := InsertKid(n0[addr], pos, key, value);
    ghost var W := WithKid(By(f), n0, addr, key, value, pos, pend);
    var page := addr;
    NewKidKnown(n0, addr, key, value, root, sh, pos, pend, f);
    BacksFacts(n0, f, sh);
    var node := ReadWithKid(db, addr, key, value, n, table, pos, f);
    Fields(node);
    if node.nbKeys == ORDER {
      if node.parent == NO_PAGE {
        page, sh' := SplitRoot(db, addr, node, n, table, root, sh, pend, M, W, f);
      } else {
        sh' := SplitBelow(db, addr, node, n, table, root, sh, pend, M, W, f);
      }
    } else {
      sh' := sh;
      SettledNow(By(f), n0, live0, pend, W, sh, root, addr, M);
    }
    ret := WriteSettled(By(f), db, node, page, n0, live0, pend, W, sh, sh', root, addr);
  }

  lemma BacksFacts(V: map<Page, Node>, f: Field, sh: Shape)
    requires Backs(V, f, sh)
    ensures FieldIs(V, f) && Ranks(f) && !By(f).Natural?
  {}

  method SplitBelow(db: Db, addr: Page, node: MemNode, n: nat, table: Page, ghost root: Page, ghost sh: Shape,
                    ghost pend: map<Page, Node>, ghost M: Node, ghost W: map<Page, Node>, ghost f: Field)
    returns (ghost sh': Shape)
    requires db.Valid() && node.Valid() && node.Val() == M && node.nbKeys == ORDER && Plain(M) && node.parent != NO_PAGE
    requires Pending(db.nodes, pend, sh, addr) && W == Virtual(db.nodes, pend, addr, M)
      && Ready(By(f), W, sh, root, addr)
    requires Backs(db.nodes, f, sh) && Known(W, sh, f) && n == f.n && table == f.table
    requires root in sh && sh[addr].rank <= sh[root].rank && db.nbPages + (sh[root].rank - sh[addr].rank) + 2 < NO_PAGE
    modifies db, node`nbKeys, node.childAddrs
    ensures db.Valid() && node.Valid() && old(db.live) <= db.live && Plain(node.Val()) && node.kind != TableLeaf
    ensures Settled(By(f), old(db.nodes), old(db.live), db.nodes, addr, node.Val(), pend, W, sh, sh', root, addr)
    ensures db.nbPages <= old(db.nbPages) + (sh[root].rank - sh[addr].rank) + 2
    decreases sh[root].rank - sh[addr].rank, 3, 0
  {
    hide *;
    ghost var n0, live0 := db.nodes, db.live;
    db.AllBelow();
    Fields(node);
    BelowStart(By(f), n0, pend, sh, root, addr, M, W);
    ghost var pos2 := ParentSlot(By(f), W, sh, root, addr);
    var key, q := SplitInternalNode(db, node);
    db.LiveBound(q);
    ghost var X, s1 := BelowStep(By(f), n0, live0, pend, sh, root, addr, pos2, q, M, W);
    StillBacked(n0, live0, sh, s1, q, SplitRight(M), f, W, X, root, addr, sh[addr].par);
    Fields(node);
    ghost var p1 := pend[addr := SplitLeft(M, q)];
    var ret;
    ret, sh' := InsertInternal(db, node.parent, key, q, n, table, root, s1, pos2, p1, f);
    BelowDone(By(f), n0, live0, pend, sh, s1, root, addr, sh[addr].par, q, M, W, X, db.nodes, sh');
  }

  lemma StillBacked(n0: map<Page, Node>, live0: set<Page>, sh: Shape, s1: Shape, q: Page, right: Node, f: Field,
                    W: map<Page, Node>, X: map<Page, Node>, root: Page, addr: Page, a: Page)
    requires Backs(n0, f, sh) && Known(W, sh, f) && n0.Keys <= live0 && q !in live0 && s1.Keys == sh.Keys + {q}
    requires CutEffect(W, sh, X, s1, root, addr, a, q)
    ensures Backs(n0[q := right], f, s1) && Known(X, s1, f)
  {
    assert KeysKept(W, sh, X, s1);
    hide Backs, Known, CutEffect;
    BacksFrame(n0, n0[q := right], f, sh, s1);
    KnownThrough(W, sh, X, s1, f);
  }

  method SplitRoot(db: Db, addr: Page, node: MemNode, n: nat, table: Page, ghost root: Page, ghost sh: Shape,
                   ghost pend: map<Page, Node>, ghost M: Node, ghost W: map<Page, Node>, ghost f: Field)
    returns (page: Page, ghost sh': Shape)
    requires db.Valid() && node.Valid() && node.Val() == M && node.nbKeys == ORDER && Plain(M) && node.parent == NO_PAGE
    requires Pending(db.nodes, pend, sh, addr) && W == Virtual(db.nodes, pend, addr, M)
      && Ready(By(f), W, sh, root, addr)
    requires Backs(db.nodes, f, sh) && Known(W, sh, f) && n == f.n && table == f.table
    requires root in sh && sh[addr].rank <= sh[root].rank && db.nbPages + (sh[root].rank - sh[addr].rank) + 2 < NO_PAGE
    modifies db, node`nbKeys, node`parent, node.childAddrs
    ensures db.Valid() && node.Valid() && old(db.live) <= db.live && Plain(node.Val()) && node.kind != TableLeaf
    ensures Settled(By(f), old(db.nodes), old(db.live), db.nodes, page, node.Val(), pend, W, sh, sh', root, addr)
    ensures db.nbPages <= old(db.nbPages) + (sh[root].rank - sh[addr].rank) + 2
    decreases sh[root].rank - sh[addr].rank, 3, 0
  {
    hide *;
    ghost var n0, live0 := db.nodes, db.live;
    IndexRootKind(f);
    var key, q;
    key, q, page := HalveRoot(By(f), IndexInterior, db, addr, node, root, sh, pend, M, W);
    ghost var n2 := db.nodes;
    ghost var X, s2, p2 := RootRaise(By(f), n0, live0, pend, sh, root, q, page, M, W, n2);
    RootBacked(n0, live0, sh, root, q, page, M, W, X, s2, n2, f);
    var ret;
    ret, sh' := InsertInternal(db, node.parent, key, q, n, table, root, s2, 0, p2, f);
    RootDone(By(f), n0, live0, pend, sh, s2, root, q, page, M, W, X, n2, db.nodes, sh');
    Fields(node);
  }

  lemma IndexRootKind(f: Field)
    ensures InteriorKind(By(f)) == IndexInterior && !By(f).Natural?
  {}

  lemma RootBacked(n0: map<Page, Node>, live0: set<Page>, sh: Shape, root: Page, q: Page, home: Page, M: Node,
                   W: map<Page, Node>, X: map<Page, Node>, s2: Shape, n2: map<Page, Node>, f: Field)
    requires Backs(n0, f, sh) && Known(W, sh, f)
    requires RootHalved(By(f), n0, live0, root, q, home, M, n2)
      && RootRaised(By(f), n0, sh, root, q, home, W, X, s2, n2)
    ensures Backs(n2, f, s2) && Known(X, s2, f)
  {
    assert KeysKept(W, sh, X, s2);
    hide Backs, Known, Grown, Rehome, Plain;
    BacksFrame(n0, n2, f, sh, s2);
    KnownThrough(W, sh, X, s2, f);
  }
}
