/** Runs of inserts with ascending keys: only the rightmost leaf grows, the leaf chain stays the
    left-to-right leaf sequence, and a scan along it visits every row once, in order. */
module TableRun {
  import opened Nodes
  import opened Codec
  import opened MemNodes
  import opened Disk
  import opened SearchTree
  import opened Cascade
  import opened PageTree
  import opened TableTree
  import opened LeafInsert
  import opened TableInsert
  import opened TableRows
  import opened TableChain

  /** A table tree grown by ascending keys only. Its stored parents may be wrong, but not the one that matters:
      the rightmost leaf names the root page. */
  ghost predicate Ascending(V: map<Page, Node>, sh: Shape, root: Page, chain: seq<Page>) {
    && TableOk(V, sh, root) && sh[root].lo == 0 && sh[root].hi == KEY_LIMIT
    && Chained(V, sh, root, chain)
    && chain[|chain| - 1] in V && (!IsLeaf(V[root]) ==> V[chain[|chain| - 1]].parent == root)
    && (0 in sh ==> root == 0)
  }

  ghost predicate Above(rows: seq<Cell>, key: Key) {
    forall i {:trigger rows[i]} :: 0 <= i < |rows| ==> rows[i].key < key
  }

  // ---------------------------------------------------------------- what the last leaf can hold

  function Bulk(cells: seq<Cell>): nat {
    if cells == [] then 0 else Bulk(cells[..|cells| - 1]) + CELL_HEADER + |cells[|cells| - 1].value|
  }

  /** The size of a leaf page with these rows. */
  function Load(cells: seq<Cell>): nat {
    NODE_HEADER + Bulk(cells)
  }

  predicate PageFits(cells: seq<Cell>, cap: nat) {
    Load(cells) <= cap && Load(cells) < PAGE_SIZE
  }

  /** The leaf at `l` can take these rows, the last one new: it has room for them, or its right half has once it is
      cut. */
  predicate LeafTakes(cells: seq<Cell>, l: Page) {
    if |cells| < ORDER then PageFits(cells, Cap(l)) else |cells| == ORDER && PageFits(cells[2..], PAGE_SIZE)
  }

  /** The table's last leaf can take a row with this value. */
  ghost predicate LastTakes(V: map<Page, Node>, t: Table, value: seq<Byte>) {
    t.chain != [] && t.chain[|t.chain| - 1] in V
      && LeafTakes(V[t.chain[|t.chain| - 1]].cells + [Cell(0, value)], t.chain[|t.chain| - 1])
  }

  lemma {:induction false} LeafSize(n: Node, i: nat)
    requires WellFormed(n) && i <= |n.cells| && n.kind == TableLeaf
    ensures |CellImages(n, i)| == Bulk(n.cells[..i])
  {
    hide Payload, CellHeader;
    if i > 0 {
      LeafSize(n, i - 1);
      BulkNext(n.cells, i - 1);
      assert Payload(n, i - 1) == n.cells[i - 1].value by { ValueIsPayload(n, i - 1); }
    }
  }

  lemma ValueIsPayload(n: Node, i: nat)
    requires WellFormed(n) && i < |n.cells| && n.kind == TableLeaf
    ensures Payload(n, i) == n.cells[i].value
  {}

  lemma BulkNext(cells: seq<Cell>, i: nat)
    requires i < |cells|
    ensures Bulk(cells[..i + 1]) == Bulk(cells[..i]) + CELL_HEADER + |cells[i].value|
  {
    assert cells[..i + 1][..i] == cells[..i];
  }

  lemma LeafFits(n: Node, cap: nat)
    requires Plain(n) && n.kind == TableLeaf
    ensures Fits(n, cap) <==> PageFits(n.cells, cap)
  {
    LeafSize(n, |n.cells|);
    assert n.cells[..|n.cells|] == n.cells;
  }

  lemma {:induction false} BulkGrows(cells: seq<Cell>, i: nat)
    requires i <= |cells|
    ensures Bulk(cells[..i]) <= Bulk(cells)
  {
    if i < |cells| {
      var front := cells[..|cells| - 1];
      assert front[..i] == cells[..i];
      BulkGrows(front, i);
    } else {
      assert cells[..i] == cells;
    }
  }

  /** Two rows weigh the same whatever their keys. */
  predicate SameLoads(a: seq<Cell>, b: seq<Cell>) {
    |a| == |b| && forall i {:trigger a[i]} {:trigger b[i]} :: 0 <= i < |a| ==> |a[i].value| == |b[i].value|
  }

  lemma {:induction false} BulkSame(a: seq<Cell>, b: seq<Cell>)
    requires SameLoads(a, b)
    ensures Bulk(a) == Bulk(b)
  {
    if a != [] {
      var n := |a| - 1;
      assert forall i {:trigger a[..n][i]} :: 0 <= i < n ==> a[..n][i] == a[i] && b[..n][i] == b[i];
      BulkSame(a[..n], b[..n]);
    }
  }

  lemma TakesSame(a: seq<Cell>, b: seq<Cell>, l: Page)
    requires SameLoads(a, b) && LeafTakes(a, l)
    ensures LeafTakes(b, l)
  {
    BulkSame(a, b);
    if |a| == ORDER { BulkSame(a[2..], b[2..]); }
  }

  // ---------------------------------------------------------------- appending a row

  /** What the last leaf becomes when a row above all others is inserted. */
  lemma AppendPlace(V: map<Page, Node>, sh: Shape, root: Page, chain: seq<Page>, key: Key, value: seq<Byte>)
    requires Ascending(V, sh, root, chain) && Above(Rows(V, chain), key) && key < KEY_LIMIT
    ensures var l := chain[|chain| - 1];
      && l in sh && l in V && V[l].kind == TableLeaf && |V[l].cells| < ORDER && Absent(V[l], key)
      && Covers(Natural, sh, root, key) && Reach(Natural, V, sh, root, root, key) == l
      && WithRow(V[l], key, value) == V[l].(cells := V[l].cells + [Cell(key, value)])
  {
    var n := |chain| - 1;
    var l := chain[n];
    assert ChainLink(V, sh, chain, n);
    assert Local(Natural, V, sh, root, l);
    assert LegalNode(V[l]) by { assert sh[l].rank >= 0; }
    LastCellsBelow(V, chain, key);
    assert V[l].cells != [] ==> sh[l].lo <= K(Natural, V[l], 0);
    ReachUnique(Natural, V, sh, root, l, key);
    var pos := Place(V[l], key);
    assert pos == |V[l].cells|;
    assert V[l].cells[..pos] == V[l].cells && V[l].cells[pos..] == [];
  }

  lemma LastCellsBelow(V: map<Page, Node>, chain: seq<Page>, key: Key)
    requires chain != [] && chain[|chain| - 1] in V && Above(Rows(V, chain), key)
    ensures forall i {:trigger V[chain[|chain| - 1]].cells[i]} :: 0 <= i < |V[chain[|chain| - 1]].cells| ==>
      V[chain[|chain| - 1]].cells[i].key < key
  {
    var r, c := Rows(V, chain[..|chain| - 1]), V[chain[|chain| - 1]].cells;
    forall i | 0 <= i < |c| ensures c[i].key < key {
      assert Rows(V, chain)[|r| + i] == c[i];
    }
  }

  /** Appending is possible whenever the last leaf can take the row: it can be split from the root if it must be. */
  lemma AppendInsertable(db: Db, t: Table, key: Key, value: seq<Byte>)
    requires db.Valid() && TableIs(db.nodes, t) && Above(RowsOf(db.nodes, t), key) && key < KEY_LIMIT
      && LastTakes(db.nodes, t, value)
    ensures Insertable(db.nodes, t.sh, t.root, key, value)
  {
    var V, sh, root, chain := db.nodes, t.sh, t.root, t.chain;
    var l := chain[|chain| - 1];
    AppendPlace(V, sh, root, chain, key, value);
    assert ChainLink(V, sh, chain, |chain| - 1);
    db.NodeOk(l);
    db.LiveBound(l);
    FitsPlain(V[l], Cap(l));
    assert l == 0 ==> root == 0;
    assert l != root ==> !IsLeaf(V[root]) by { if l != root { RootInterior(Natural, V, sh, root, l); } }
    RightParented(V, sh, root);
    hide Tree, Chained, LegalBut, Plain, LeafTakes;
    AppendHeld(V[l], key, value, l, root);
    InsertableNow(V, sh, root, key, value, l);
  }

  lemma InsertableNow(V: map<Page, Node>, sh: Shape, root: Page, key: Key, value: seq<Byte>, l: Page)
    requires TableOk(V, sh, root) && Covers(Natural, sh, root, key) && key < KEY_LIMIT
    requires l == Reach(Natural, V, sh, root, root, key) && l in V && Absent(V[l], key)
      && CanHold(WithRow(V[l], key, value), l, root)
    requires l != root ==> Upward(Natural, V, sh, root, l, V[l].parent)
    ensures Insertable(V, sh, root, key, value)
  {}

  /** At the root's height there is only the root, whose parent link says so. */
  lemma RightParented(V: map<Page, Node>, sh: Shape, root: Page)
    requires TableOk(V, sh, root)
    ensures root in sh && Parented(V, sh, root, sh[root].rank)
  {
    forall p | p in sh && p != root ensures sh[p].rank < sh[root].rank { RightRank(V, sh, root, p); }
  }

  /** A leaf that fits and can take the row can be held with it. */
  lemma AppendHeld(n: Node, key: Key, value: seq<Byte>, l: Page, root: Page)
    requires n.kind == TableLeaf && Fits(n, Cap(l)) && Plain(n) && |n.cells| < ORDER && key < KEY_LIMIT
      && (l == 0 ==> root == 0)
    requires LeafTakes(n.cells + [Cell(0, value)], l)
    ensures CanHold(n.(cells := n.cells + [Cell(key, value)]), l, root)
  {
    var m := n.(cells := n.cells + [Cell(key, value)]);
    TakesSame(n.cells + [Cell(0, value)], m.cells, l);
    LeafFits(n, Cap(l));
    assert Plain(m);
    if |m.cells| < ORDER {
      LeafFits(m, Cap(l));
    } else {
      SplitPlain(m, 1);
      LeafFits(SplitRight(m), PAGE_SIZE);
      forall q: Page | q < PAGE_LIMIT ensures Fits(SplitLeft(m, q), if l == root then PAGE_SIZE else Cap(l)) {
        SplitPlain(m, q);
        assert SplitLeft(m, q).cells == n.cells[..2];
        BulkGrows(n.cells, 2);
        LeafFits(SplitLeft(m, q), if l == root then PAGE_SIZE else Cap(l));
      }
    }
  }

  /** What the insert of a row above all others leaves at the end of the chain. */
  ghost predicate Appended(n0: map<Page, Node>, live0: set<Page>, sh: Shape, n1: map<Page, Node>, sh': Shape,
                           root: Page, chain: seq<Page>, c: Cell, lp: Page, q: Page)
  {
    && chain != [] && chain[|chain| - 1] in n0 && 0 in live0 && sh.Keys <= n0.Keys
    && var l := chain[|chain| - 1];
       n0[l].kind == TableLeaf && |n0[l].cells| < ORDER
       && LeafDone(Natural, n0, live0, sh, n1, sh', root, l, n0[l].(cells := n0[l].cells + [c]), lp, q)
  }

  lemma AppendedPut(n0: map<Page, Node>, live0: set<Page>, sh: Shape, n1: map<Page, Node>, sh': Shape, root: Page,
                    chain: seq<Page>, c: Cell, lp: Page, q: Page)
    requires Ascending(n0, sh, root, chain) && Appended(n0, live0, sh, n1, sh', root, chain, c, lp, q)
    ensures var m := n0[chain[|chain| - 1]].(cells := n0[chain[|chain| - 1]].cells + [c]);
      PutAt(n0, live0, sh, n1, sh', root, chain, |chain| - 1, m, lp, q) && |m.cells| <= ORDER
  {}

  /** One append keeps everything an ascending run relies on. */
  lemma AppendKeeps(n0: map<Page, Node>, live0: set<Page>, sh: Shape, n1: map<Page, Node>, sh': Shape, root: Page,
                    chain: seq<Page>, c: Cell, lp: Page, q: Page) returns (chain': seq<Page>)
    requires Ascending(n0, sh, root, chain) && Appended(n0, live0, sh, n1, sh', root, chain, c, lp, q)
    ensures Ascending(n1, sh', root, chain') && Rows(n1, chain') == Rows(n0, chain) + [c]
  {
    hide *;
    EndOf(n0, sh, root, chain);
    var n := |chain| - 1;
    var m := n0[chain[n]].(cells := n0[chain[n]].cells + [c]);
    chain' := ChainAfter(chain, n, m, lp, q);
    AppendedPut(n0, live0, sh, n1, sh', root, chain, c, lp, q);
    EndsAfter(n0, live0, sh, n1, sh', root, chain, n, m, lp, q);
    RowsAfter(n0, live0, sh, n1, sh', root, chain, n, m, lp, q);
    AppendedRows(n0, chain, c);
    RightEnd(n0, live0, sh, n1, sh', root, chain, c, lp, q);
    AppendedOk(n0, live0, sh, n1, sh', root, chain, c, lp, q);
    AscendingNow(n1, sh', root, chain');
  }

  lemma EndOf(V: map<Page, Node>, sh: Shape, root: Page, chain: seq<Page>)
    requires Ascending(V, sh, root, chain)
    ensures chain != [] && chain[|chain| - 1] in V
  {}

  lemma AppendedRows(V: map<Page, Node>, chain: seq<Page>, c: Cell)
    requires chain != [] && chain[|chain| - 1] in V
    ensures var n := |chain| - 1;
      Rows(V, chain[..n]) + (V[chain[n]].cells + [c]) + Rows(V, chain[n + 1..]) == Rows(V, chain) + [c]
      && Rows(V, chain[..n]) + (V[chain[n]].cells + [c]) + [] == Rows(V, chain) + [c]
  {
    var n := |chain| - 1;
    assert chain[n + 1..] == [];
    RowsSnoc(V, chain[..n], chain[n], chain);
    Regroup(Rows(V, chain[..n]), V[chain[n]].cells, [c]);
  }

  lemma AppendedOk(n0: map<Page, Node>, live0: set<Page>, sh: Shape, n1: map<Page, Node>, sh': Shape, root: Page,
                   chain: seq<Page>, c: Cell, lp: Page, q: Page)
    requires Ascending(n0, sh, root, chain) && Appended(n0, live0, sh, n1, sh', root, chain, c, lp, q)
    ensures TableOk(n1, sh', root) && root in sh && root in sh' && sh'[root].lo == sh[root].lo == 0
      && sh'[root].hi == sh[root].hi == KEY_LIMIT
  {
    hide Tree, LegalBut, LeafKept, NewInterior, StillInterior, Rows, Halves, Chained;
  }

  lemma AscendingNow(n1: map<Page, Node>, sh': Shape, root: Page, chain': seq<Page>)
    requires TableOk(n1, sh', root) && root in sh' && sh'[root].lo == 0 && sh'[root].hi == KEY_LIMIT
      && Chained(n1, sh', root, chain')
    requires var r := chain'[|chain'| - 1];
      r in n1 && root in n1 && (!IsLeaf(n1[root]) ==> n1[r].parent == root) && (0 in sh' ==> root == 0)
    ensures Ascending(n1, sh', root, chain')
  {
    hide Tree, LegalBut, ChainLink;
  }

  lemma RightEnd(n0: map<Page, Node>, live0: set<Page>, sh: Shape, n1: map<Page, Node>, sh': Shape, root: Page,
                 chain: seq<Page>, c: Cell, lp: Page, q: Page)
    requires Ascending(n0, sh, root, chain) && Appended(n0, live0, sh, n1, sh', root, chain, c, lp, q)
    ensures var m := n0[chain[|chain| - 1]].(cells := n0[chain[|chain| - 1]].cells + [c]);
      var chain' := ChainAfter(chain, |chain| - 1, m, lp, q);
      && chain' != [] && var r := chain'[|chain'| - 1];
      r in n1 && root in n1 && (!IsLeaf(n1[root]) ==> n1[r].parent == root) && (0 in sh' ==> root == 0)
  {
    var l := chain[|chain| - 1];
    if l != root { RootInterior(Natural, n0, sh, root, l); }
    hide Tree, LegalBut, LeafKept, NewInterior, StillInterior, Rows, TableOk;
  }

  /** A table tree with its leaf chain, as one value. */
  datatype Table = Table(root: Page, sh: Shape, chain: seq<Page>)

  ghost predicate TableIs(V: map<Page, Node>, t: Table) {
    Ascending(V, t.sh, t.root, t.chain)
  }

  ghost function RowsOf(V: map<Page, Node>, t: Table): seq<Cell> {
    Rows(V, t.chain)
  }

  /** An empty leaf is a table with no rows. */
  lemma EmptyTable(V: map<Page, Node>, root: Page) returns (t: Table)
    requires root in V && V[root] == EmptyLeaf()
    ensures TableIs(V, t) && t.root == root && RowsOf(V, t) == [] && t.sh.Keys == {root}
  {
    t := Table(root, map[root := Info(0, KEY_LIMIT, 0, root)], [root]);
    assert Local(Natural, V, t.sh, root, root);
    assert ChainLink(V, t.sh, t.chain, 0);
    assert t.chain[..0] == [];
    assert Rows(V, t.chain) == Rows(V, []) + [] == [];
  }

  method NewLeaf() returns (node: MemNode)
    ensures fresh(node) && fresh(node.keyVals) && fresh(node.childAddrs)
    ensures node.Valid() && node.Val() == EmptyLeaf()
  {
    node := new MemNode(NO_PAGE, TableLeaf, 0);
    node.childAddrs[0] := NO_PAGE;
  }

  lemma EmptyFits(addr: Page)
    ensures Fits(EmptyLeaf(), Cap(addr))
  {}

  lemma AppendFacts(db: Db, t: Table, key: Key, value: seq<Byte>)
    requires db.Valid() && TableIs(db.nodes, t) && Above(RowsOf(db.nodes, t), key) && key < KEY_LIMIT
      && LastTakes(db.nodes, t, value)
    ensures Insertable(db.nodes, t.sh, t.root, key, value) && t.chain != [] && t.root in t.sh && 0 in db.live
    ensures Ascending(db.nodes, t.sh, t.root, t.chain) && Tree(Natural, db.nodes, t.sh, t.root)
    ensures var l := t.chain[|t.chain| - 1];
      && Reach(Natural, db.nodes, t.sh, t.root, t.root, key) == l && l in db.nodes && db.nodes[l].kind == TableLeaf
      && WithRow(db.nodes[l], key, value) == db.nodes[l].(cells := db.nodes[l].cells + [Cell(key, value)])
      && |db.nodes[l].cells| < ORDER
    ensures t.sh.Keys <= db.nodes.Keys && Climb(db.nodes, t.sh, t.root, t.chain[|t.chain| - 1]) == 0
  {
    var l := t.chain[|t.chain| - 1];
    NoClimb(db, t);
    SpansPages(Natural, db.nodes, t.sh, t.root);
    AppendPlace(db.nodes, t.sh, t.root, t.chain, key, value);
    AppendInsertable(db, t, key, value);
  }

  /** The rightmost leaf's stored parent is the root page itself, or no page at all. */
  lemma NoClimb(db: Db, t: Table)
    requires db.Valid() && TableIs(db.nodes, t)
    ensures Climb(db.nodes, t.sh, t.root, t.chain[|t.chain| - 1]) == 0
  {
    var l := t.chain[|t.chain| - 1];
    SpansPages(Natural, db.nodes, t.sh, t.root);
    if l != t.root { RootInterior(Natural, db.nodes, t.sh, t.root, l); }
    assert NO_PAGE !in db.nodes by { db.AllBelow(); }
  }

  lemma AppendDone(n0: map<Page, Node>, live0: set<Page>, n1: map<Page, Node>, t: Table, l: Page, key: Key,
                   value: seq<Byte>, sh': Shape, lp: Page, q: Page)
    requires t.chain != [] && l == t.chain[|t.chain| - 1] && l in n0 && 0 in live0 && n0[l].kind == TableLeaf
      && |n0[l].cells| < ORDER
    requires t.sh.Keys <= n0.Keys
    requires WithRow(n0[l], key, value) == n0[l].(cells := n0[l].cells + [Cell(key, value)])
    requires LeafDone(Natural, n0, live0, t.sh, n1, sh', t.root, l, WithRow(n0[l], key, value), lp, q)
    ensures Appended(n0, live0, t.sh, n1, sh', t.root, t.chain, Cell(key, value), lp, q)
    ensures Framed(n0, live0, n1, t.sh, sh') && t.sh.Keys <= sh'.Keys
  {}

  lemma AppendIs(n0: map<Page, Node>, n1: map<Page, Node>, t: Table, t': Table, c: Cell)
    requires Ascending(n1, t'.sh, t'.root, t'.chain) && Rows(n1, t'.chain) == Rows(n0, t.chain) + [c]
    ensures TableIs(n1, t') && RowsOf(n1, t') == RowsOf(n0, t) + [c]
  {}

  /** Inserts a row whose key is above all others. */
  method Append(db: Db, root: Page, key: Key, value: seq<Byte>, ghost t: Table) returns (ret: int, ghost t': Table)
    requires db.Valid() && TableIs(db.nodes, t) && t.root == root && Above(RowsOf(db.nodes, t), key)
    requires key < KEY_LIMIT && LastTakes(db.nodes, t, value) && db.nbPages + 3 < NO_PAGE
    modifies db
    ensures ret == 0 && db.Valid() && old(db.live) <= db.live
    ensures TableIs(db.nodes, t') && t'.root == root
    ensures RowsOf(db.nodes, t') == old(RowsOf(db.nodes, t)) + [Cell(key, value)]
    ensures Framed(old(db.nodes), old(db.live), db.nodes, t.sh, t'.sh) && t.sh.Keys <= t'.sh.Keys
    ensures db.nbPages <= old(db.nbPages) + 3
  {
    hide *;
    ghost var n0, live0 := db.nodes, db.live;
    AppendFacts(db, t, key, value);
    ghost var l := t.chain[|t.chain| - 1];
    ghost var sh', lp, q;
    ret, sh', lp, q := Insert(db, root, key, value, t.sh);
    AppendDone(n0, live0, db.nodes, t, l, key, value, sh', lp, q);
    ghost var chain' := AppendKeeps(n0, live0, t.sh, db.nodes, sh', root, t.chain, Cell(key, value), lp, q);
    t' := Table(root, sh', chain');
    AppendIs(n0, db.nodes, t, t', Cell(key, value));
  }

  // ---------------------------------------------------------------- runs

  /** Up to three rows from the ith on. */
  function Window(rows: seq<Cell>, i: nat): seq<Cell>
    requires i <= |rows|
  {
    rows[i..if i + 3 <= |rows| then i + 3 else |rows|]
  }

  /** Any three rows in a row, one of them at `from` or later, fit a page; if they are the table's first, its root
      page. */
  predicate Snug(rows: seq<Cell>, from: nat, root: Page) {
    forall i: nat {:trigger Window(rows, i)} :: i < |rows| && from < i + 3 ==>
      PageFits(Window(rows, i), Cap(if i == 0 then root else 1))
  }

  lemma SnugPrefix(rows: seq<Cell>, from: nat, root: Page, k: nat)
    requires Snug(rows, from, root) && k <= |rows|
    ensures Snug(rows[..k], from, root)
  {
    forall i: nat | i < k && from < i + 3 ensures PageFits(Window(rows[..k], i), Cap(if i == 0 then root else 1)) {
      var w, v := Window(rows, i), Window(rows[..k], i);
      assert w[..|v|] == v;
      BulkGrows(w, |v|);
    }
  }

  /** If the rows with the new one are snug, the last leaf can take it. */
  lemma SnugTakes(V: map<Page, Node>, t: Table, c: Cell, from: nat)
    requires TableIs(V, t) && from <= |RowsOf(V, t)| && Snug(RowsOf(V, t) + [c], from, t.root)
    ensures LastTakes(V, t, c.value)
  {
    hide *;
    LastLeaf(V, t);
    var n := |t.chain| - 1;
    RowsSnoc(V, t.chain[..n], t.chain[n], t.chain);
    FirstLeaf(V, t, t.chain[n]);
    WindowTakes(Rows(V, t.chain[..n]), V[t.chain[n]].cells, c, from, t.root, t.chain[n]);
    TakesNow(V, t, c.value);
  }

  lemma LastLeaf(V: map<Page, Node>, t: Table)
    requires TableIs(V, t)
    ensures t.chain != [] && t.chain[|t.chain| - 1] in V && |V[t.chain[|t.chain| - 1]].cells| < ORDER
      && RowsOf(V, t) == Rows(V, t.chain)
    ensures t.chain == t.chain[..|t.chain| - 1] + [t.chain[|t.chain| - 1]]
  {
    var l := t.chain[|t.chain| - 1];
    assert LegalNode(V[l]) by { assert t.sh[l].rank >= 0; }
  }

  lemma TakesNow(V: map<Page, Node>, t: Table, value: seq<Byte>)
    requires t.chain != [] && t.chain[|t.chain| - 1] in V
      && LeafTakes(V[t.chain[|t.chain| - 1]].cells + [Cell(0, value)], t.chain[|t.chain| - 1])
    ensures LastTakes(V, t, value)
  {}

  lemma WindowTakes(pre: seq<Cell>, cells: seq<Cell>, c: Cell, from: nat, root: Page, l: Page)
    requires |cells| < ORDER && from <= |pre + cells| && Snug(pre + cells + [c], from, root)
      && (l == 0 ==> root == 0 && pre == [])
    ensures LeafTakes(cells + [Cell(0, c.value)], l)
  {
    hide *;
    var all, new_ := pre + cells + [c], cells + [Cell(0, c.value)];
    if |cells| <= 2 {
      Regroup(pre, cells, [c]);
      WindowIs(pre, cells + [c], all);
      SnugAt(all, from, root, |pre|);
      SameAtEnd(cells, c);
      FewTake(new_, cells + [c], l, if |pre| == 0 then root else 1);
    } else {
      OrderIs();
      TwoLast(pre, cells, c);
      WindowIs(pre + cells[..2], cells[2..] + [c], all);
      SnugAt(all, from, root, |pre| + 2);
      SameAtEnd(cells[2..], c);
      FourTake(new_, cells[2..] + [c], l);
    }
  }

  lemma OrderIs()
    ensures ORDER == 4
  {}

  lemma TwoLast(pre: seq<Cell>, cells: seq<Cell>, c: Cell)
    requires |cells| == 3
    ensures pre + cells + [c] == pre + cells[..2] + (cells[2..] + [c]) && |pre + cells[..2]| == |pre| + 2
    ensures (cells + [Cell(0, c.value)])[2..] == cells[2..] + [Cell(0, c.value)]
  {}

  lemma SnugAt(all: seq<Cell>, from: nat, root: Page, i: nat)
    requires Snug(all, from, root) && i < |all| && from < i + 3
    ensures PageFits(Window(all, i), Cap(if i == 0 then root else 1))
  {
    var w := Window(all, i);
  }

  lemma SameAtEnd(cells: seq<Cell>, c: Cell)
    ensures SameLoads(cells + [c], cells + [Cell(0, c.value)])
  {}

  lemma FewTake(new_: seq<Cell>, w: seq<Cell>, l: Page, p: Page)
    requires SameLoads(w, new_) && |w| < 4 && PageFits(w, Cap(p)) && (l == 0 ==> p == 0)
    ensures LeafTakes(new_, l)
  {
    BulkSame(w, new_);
  }

  lemma FourTake(new_: seq<Cell>, w: seq<Cell>, l: Page)
    requires |new_| == 4 && SameLoads(w, new_[2..]) && PageFits(w, Cap(1))
    ensures LeafTakes(new_, l)
  {
    BulkSame(w, new_[2..]);
  }

  lemma WindowIs(pre: seq<Cell>, w: seq<Cell>, all: seq<Cell>)
    requires all == pre + w && |w| <= 3
    ensures Window(all, |pre|) == w
  {}

  /** Page 0 can only be the first leaf of a table rooted there. */
  lemma FirstLeaf(V: map<Page, Node>, t: Table, l: Page)
    requires TableIs(V, t) && l == t.chain[|t.chain| - 1] && l in V
    ensures l == 0 ==> t.root == 0 && Rows(V, t.chain[..|t.chain| - 1]) == []
  {
    var n := |t.chain| - 1;
    hide LegalBut;
    assert ChainLink(V, t.sh, t.chain, n);
    if l == 0 && n > 0 {
      LinksApart(V, t.sh, t.root, t.chain, 0, n);
      RootInterior(Natural, V, t.sh, t.root, t.chain[0]);
    }
  }

  ghost predicate Ascend(rows: seq<Cell>) {
    forall i, j {:trigger rows[i], rows[j]} :: 0 <= i < j < |rows| ==> rows[i].key < rows[j].key
  }

  /** Inserts rows with strictly increasing keys, all above those of the table, whatever their number: the tree stays a
      search tree whose rightmost leaf names the root, with exactly the old rows and the new ones. */
  method AppendAll(db: Db, root: Page, rows: seq<Cell>, ghost t: Table) returns (ghost t': Table)
    requires db.Valid() && TableIs(db.nodes, t) && t.root == root && db.nbPages + 3 * |rows| < NO_PAGE
    requires Ascend(RowsOf(db.nodes, t) + rows) && forall i {:trigger rows[i]} :: 0 <= i < |rows| ==>
      rows[i].key < KEY_LIMIT
    requires Snug(RowsOf(db.nodes, t) + rows, |RowsOf(db.nodes, t)|, root)
    modifies db
    ensures db.Valid() && TableIs(db.nodes, t') && t'.root == root
      && RowsOf(db.nodes, t') == old(RowsOf(db.nodes, t)) + rows
    ensures forall k, v {:trigger HasRow(db.nodes, t'.sh, k, v)} :: HasRow(db.nodes, t'.sh, k, v) <==>
      Cell(k, v) in old(RowsOf(db.nodes, t)) + rows
  {
    hide *;
    ghost var was := RowsOf(db.nodes, t);
    t' := t;
    assert was + rows[..0] == was;
    for i := 0 to |rows|
      invariant db.Valid() && TableIs(db.nodes, t') && t'.root == root && RowsOf(db.nodes, t') == was + rows[..i]
      invariant db.nbPages <= old(db.nbPages) + 3 * i
    {
      NextRow(db.nodes, t', was, rows, i);
      var ret;
      ret, t' := Append(db, root, rows[i].key, rows[i].value, t');
    }
    assert rows[..|rows|] == rows;
    RowsOfRun(db.nodes, t');
  }

  lemma NextRow(V: map<Page, Node>, t: Table, was: seq<Cell>, rows: seq<Cell>, i: nat)
    requires TableIs(V, t) && i < |rows| && RowsOf(V, t) == was + rows[..i] && Ascend(was + rows)
      && Snug(was + rows, |was|, t.root)
    ensures Above(RowsOf(V, t), rows[i].key) && LastTakes(V, t, rows[i].value)
    ensures was + rows[..i] + [Cell(rows[i].key, rows[i].value)] == was + rows[..i + 1]
  {
    var all := was + rows;
    assert all[..|was| + i] == was + rows[..i] && all[..|was| + i + 1] == was + rows[..i] + [rows[i]];
    assert forall j {:trigger (was + rows[..i])[j]} :: 0 <= j < |was| + i ==> (was + rows[..i])[j] == all[j];
    assert all[|was| + i] == rows[i];
    SnugPrefix(all, |was|, t.root, |was| + i + 1);
    SnugTakes(V, t, rows[i], |was|);
  }

  lemma RowsOfRun(V: map<Page, Node>, t: Table)
    requires TableIs(V, t)
    ensures forall k, v {:trigger HasRow(V, t.sh, k, v)} :: HasRow(V, t.sh, k, v) <==> Cell(k, v) in RowsOf(V, t)
  {
    forall k, v
      ensures HasRow(V, t.sh, k, v) <==> Cell(k, v) in RowsOf(V, t)
    {
      RowsAreTheRows(V, t.sh, t.root, t.chain, k, v);
    }
  }
}
