/** Searching the index: the first match, the in-order successor, and all matches in order. Records may repeat. */
module IndexScan {
  import opened Nodes
  import opened Codec
  import opened MemNodes
  import opened Disk
  import opened SearchTree
  import opened Cascade
  import opened PageTree
  import opened Records
  import opened IndexTree
  import IndexInsert
  import opened IndexOrder

  /** The ranks never go against `compare_r`, and the probe can be compared with every record. Equal records may have
      any ranks: in a tree with duplicates these are positions in its in-order sequence. */
  ghost predicate Weak(f: Field, probe: Record) {
    && f.at.Keys == f.value.Keys
    && (forall k {:trigger f.value[k]} :: k in f.value ==> SameClass(probe, f.value[k]))
    && (forall j, k {:trigger f.value[j], f.value[k]} :: j in f.value && k in f.value && f.at[j] <= f.at[k] ==>
          Compare(f.value[j], f.value[k]) <= 0)
  }

  /** A tree to search: ordered, its row ids known, its rows at hand. */
  ghost predicate Searchable(V: map<Page, Node>, sh: Shape, root: Page, f: Field, probe: Record) {
    Tree(By(f), V, sh, root) && Known(V, sh, f) && FieldIs(V, f) && Weak(f, probe)
  }

  /** The sign of comparing the probe with the key's record. */
  ghost function Cmp(f: Field, probe: Record, k: Key): int
    requires k in f.value && Comparable(probe) && Comparable(f.value[k])
  {
    Compare(probe, f.value[k])
  }

  ghost predicate Matches(f: Field, probe: Record, k: Key) {
    k in f.value && Comparable(probe) && Comparable(f.value[k]) && Cmp(f, probe, k) == 0
  }

  ghost function Rank(f: Field, k: Key): int {
    Ord(By(f), k)
  }

  /** Along the ranks the comparison only ever goes down. */
  lemma CmpFalls(f: Field, probe: Record, j: Key, k: Key)
    requires Weak(f, probe) && j in f.value && k in f.value && Rank(f, j) <= Rank(f, k)
    ensures Comparable(probe) && Comparable(f.value[j]) && Comparable(f.value[k])
    ensures Cmp(f, probe, j) <= 0 ==> Cmp(f, probe, k) <= 0
    ensures Cmp(f, probe, j) < 0 ==> Cmp(f, probe, k) < 0
  {
    CompareOrder(probe, f.value[j], f.value[k]);
    hide Compare, SameClass, Comparable;
    assert SameClass(probe, f.value[j]) && SameClass(probe, f.value[k]);
  }

  /** No key whose rank is in the interval matches. */
  ghost predicate NoMatch(V: map<Page, Node>, sh: Shape, f: Field, probe: Record, lo: int, hi: int) {
    forall k {:trigger HasKey(V, sh, k)} :: HasKey(V, sh, k) && lo <= Rank(f, k) < hi ==> !Matches(f, probe, k)
  }

  /** The cells before `i` are below the probe, and cell `i` is not. */
  ghost predicate Sought(f: Field, probe: Record, m: Node, i: nat) {
    && i <= |m.cells| && CellsKnown(m.cells, f) && Weak(f, probe)
    && (forall j {:trigger m.cells[j]} :: 0 <= j < i ==> Cmp(f, probe, m.cells[j].key) > 0)
    && (i < |m.cells| ==> Cmp(f, probe, m.cells[i].key) <= 0)
  }

  lemma CellRank(f: Field, m: Node, i: nat)
    requires i < |m.cells|
    ensures K(By(f), m, i) == Rank(f, m.cells[i].key)
  {}

  /** Nothing up to the last cell below the probe matches. */
  lemma BelowMisses(V: map<Page, Node>, sh: Shape, root: Page, p: Page, f: Field, probe: Record, i: nat)
    requires Searchable(V, sh, root, f, probe) && p in sh && p in V && Sought(f, probe, V[p], i)
    ensures i > 0 ==> NoMatch(V, sh, f, probe, sh[p].lo, K(By(f), V[p], i - 1) + 1)
  {
    if i > 0 {
      CellRank(f, V[p], i - 1);
      forall k | HasKey(V, sh, k) && sh[p].lo <= Rank(f, k) < K(By(f), V[p], i - 1) + 1 ensures !Matches(f, probe, k) {
        CmpFalls(f, probe, k, V[p].cells[i - 1].key);
      }
    }
  }

  /** Nothing from a cell above the probe on matches. */
  lemma AboveMisses(V: map<Page, Node>, sh: Shape, root: Page, p: Page, f: Field, probe: Record, i: nat, hi: int)
    requires Searchable(V, sh, root, f, probe) && p in sh && p in V && Sought(f, probe, V[p], i)
    requires i < |V[p].cells| && Cmp(f, probe, V[p].cells[i].key) < 0
    ensures NoMatch(V, sh, f, probe, K(By(f), V[p], i), hi)
  {
    CellRank(f, V[p], i);
    forall k | HasKey(V, sh, k) && K(By(f), V[p], i) <= Rank(f, k) < hi ensures !Matches(f, probe, k) {
      CmpFalls(f, probe, V[p].cells[i].key, k);
    }
  }

  /** A key of a leaf's span below one of its cells is an earlier cell. */
  lemma LeafCell(V: map<Page, Node>, sh: Shape, root: Page, p: Page, f: Field, i: nat, k: Key) returns (j: nat)
    requires Tree(By(f), V, sh, root) && p in sh && p in V && IsLeaf(V[p]) && i <= |V[p].cells| && HasKey(V, sh, k)
    requires sh[p].lo <= Rank(f, k) < HiAt(By(f), V[p], sh[p].hi, i)
    ensures j < i && V[p].cells[j].key == k
  {
    assert Local(By(f), V, sh, root, p);
    if i < |V[p].cells| { assert K(By(f), V[p], i) < sh[p].hi; }
    LeafHolds(By(f), V, sh, root, p, k);
    j :| 0 <= j < |V[p].cells| && V[p].cells[j].key == k;
    CellRank(f, V[p], j);
    hide Tree, HasKey, KeyIn;
  }

  /** In a leaf, nothing before the cell matches. */
  lemma LeafMisses(V: map<Page, Node>, sh: Shape, root: Page, p: Page, f: Field, probe: Record, i: nat)
    requires Searchable(V, sh, root, f, probe) && p in sh && p in V && IsLeaf(V[p]) && Sought(f, probe, V[p], i)
    ensures NoMatch(V, sh, f, probe, sh[p].lo, HiAt(By(f), V[p], sh[p].hi, i))
  {
    hide Tree, HasKey, HiAt, FieldIs, Known, Compare;
    forall k | HasKey(V, sh, k) && sh[p].lo <= Rank(f, k) < HiAt(By(f), V[p], sh[p].hi, i)
      ensures !Matches(f, probe, k)
    {
      var j := LeafCell(V, sh, root, p, f, i, k);
    }
  }

  /** In an interior page, what matches before the cell is below the child in front of it. */
  lemma KidMisses(V: map<Page, Node>, sh: Shape, root: Page, p: Page, f: Field, probe: Record, i: nat, hi: int)
    requires Searchable(V, sh, root, f, probe) && p in sh && p in V && !IsLeaf(V[p]) && Sought(f, probe, V[p], i)
    requires i < |V[p].kids| && V[p].kids[i] in sh && NoMatch(V, sh, f, probe, sh[V[p].kids[i]].lo, hi)
    ensures NoMatch(V, sh, f, probe, sh[p].lo, hi)
  {
    KidSpan(By(f), V, sh, root, p, i);
    BelowMisses(V, sh, root, p, f, probe, i);
    hide Searchable, Matches, Tree;
    forall k | HasKey(V, sh, k) && sh[p].lo <= Rank(f, k) < hi ensures !Matches(f, probe, k) {}
  }

  /** The first match among the ranks from `lo` up. */
  ghost predicate FirstMatch(V: map<Page, Node>, sh: Shape, f: Field, probe: Record, lo: int, k: Key) {
    HasKey(V, sh, k) && Matches(f, probe, k) && NoMatch(V, sh, f, probe, lo, Rank(f, k))
  }

  // ---------------------------------------------------------------- find_bt

  ghost predicate AtKey(V: map<Page, Node>, sh: Shape, cursor: Cursor, k: Key)
    reads cursor, cursor.node, cursor.node.keyVals, cursor.node.childAddrs
  {
    On(V, cursor) && cursor.page in sh && cursor.cell < |V[cursor.page].cells|
      && V[cursor.page].cells[cursor.cell].key == k
  }

  lemma AtKeyFacts(V: map<Page, Node>, sh: Shape, cursor: Cursor, k: Key)
    requires AtKey(V, sh, cursor, k)
    ensures On(V, cursor) && cursor.page in sh && cursor.page in V
      && cursor.cell < |V[cursor.page].cells| == cursor.node.nbKeys <= cursor.node.keyVals.Length
    ensures cursor.node.keyVals[cursor.cell] == V[cursor.page].cells[cursor.cell]
      && V[cursor.page].cells[cursor.cell].key == k
    ensures HasKey(V, sh, k)
  {
    assert HoldsKey(V, sh, cursor.page, k);
  }

  lemma NowAtKey(V: map<Page, Node>, sh: Shape, cursor: Cursor)
    requires On(V, cursor) && cursor.page in sh && cursor.page in V && cursor.cell < |V[cursor.page].cells|
    ensures AtKey(V, sh, cursor, V[cursor.page].cells[cursor.cell].key)
  {}

  /** Moves the cursor to the first cell whose record is not below the probe. */
  method Seek(db: Db, cursor: Cursor, probe: Record, n: nat, table: Page, ghost sh: Shape, ghost root: Page,
              ghost f: Field) returns (cmp: int)
    requires db.Valid() && Searchable(db.nodes, sh, root, f, probe) && n == f.n && table == f.table
    requires On(db.nodes, cursor) && cursor.page in sh && cursor.cell == 0
    modifies db`cache, db`cacheSize, cursor`cell
    ensures db.Valid() && On(db.nodes, cursor) && cursor.page in db.nodes
      && Sought(f, probe, db.nodes[cursor.page], cursor.cell)
    ensures cursor.cell <= |db.nodes[cursor.page].cells|
    ensures if cursor.cell < |db.nodes[cursor.page].cells|
            then Comparable(probe) && CellsKnown(db.nodes[cursor.page].cells, f)
              && Comparable(f.value[db.nodes[cursor.page].cells[cursor.cell].key])
                 && cmp == Cmp(f, probe, db.nodes[cursor.page].cells[cursor.cell].key) <= 0
            else cmp > 0
  {
    hide *;
    IndexInsert.OnFacts(db.nodes, cursor);
    ghost var p, m := cursor.page, db.nodes[cursor.page];
    SearchFacts(db.nodes, sh, root, f, probe);
    KnownNode(db.nodes, sh, f, p);
    cmp := 1;
    while cursor.cell < cursor.node.nbKeys
      modifies cursor`cell, db`cache, db`cacheSize
      invariant db.Valid() && cursor.node.Valid() && cursor.node.Val() == m && cursor.cell <= |m.cells| && cmp > 0
      invariant SoughtTo(f, probe, m, cursor.cell)
    {
      ghost var i := cursor.cell;
      assert m.cells[i] == cursor.node.keyVals[i];
      var nodeKey := FieldOf(db, cursor.node.keyVals[cursor.cell].key, n, table, f);
      CellComparable(f, probe, m, i);
      cmp := CompareR(probe, nodeKey);
      if cmp <= 0 {
        SoughtHere(f, probe, m, i, cmp);
        IndexInsert.NowOn(db.nodes, cursor);
        return;
      }
      SoughtNext(f, probe, m, i, cmp);
      cursor.cell := cursor.cell + 1;
    }
    SoughtEnd(f, probe, m, cursor.cell);
    IndexInsert.NowOn(db.nodes, cursor);
  }

  ghost predicate SoughtTo(f: Field, probe: Record, m: Node, i: nat) {
    && i <= |m.cells| && CellsKnown(m.cells, f) && Weak(f, probe)
    && (forall j {:trigger m.cells[j]} :: 0 <= j < i ==> Cmp(f, probe, m.cells[j].key) > 0)
  }

  lemma CellComparable(f: Field, probe: Record, m: Node, i: nat)
    requires SoughtTo(f, probe, m, i) && i < |m.cells|
    ensures m.cells[i].key in f.value && Comparable(probe) && Comparable(f.value[m.cells[i].key])
  {}

  lemma SoughtHere(f: Field, probe: Record, m: Node, i: nat, cmp: int)
    requires SoughtTo(f, probe, m, i) && i < |m.cells| && cmp == Compare(probe, f.value[m.cells[i].key]) <= 0
    ensures Sought(f, probe, m, i) && CellsKnown(m.cells, f) && cmp == Cmp(f, probe, m.cells[i].key)
  {}

  lemma SoughtNext(f: Field, probe: Record, m: Node, i: nat, cmp: int)
    requires SoughtTo(f, probe, m, i) && i < |m.cells| && cmp == Compare(probe, f.value[m.cells[i].key]) > 0
    ensures SoughtTo(f, probe, m, i + 1)
  {}

  lemma SoughtEnd(f: Field, probe: Record, m: Node, i: nat)
    requires SoughtTo(f, probe, m, i) && i == |m.cells|
    ensures Sought(f, probe, m, i)
  {}

  lemma SearchFacts(V: map<Page, Node>, sh: Shape, root: Page, f: Field, probe: Record)
    requires Searchable(V, sh, root, f, probe)
    ensures Tree(By(f), V, sh, root) && Known(V, sh, f) && FieldIs(V, f) && Weak(f, probe) && root in sh
      && !By(f).Natural?
    ensures forall m: Node {:trigger CellsKnown(m.cells, f)} :: CellsKnown(m.cells, f) ==> SoughtTo(f, probe, m, 0)
  {}

  /** What is left to search at `p` of the search that began at `top`. */
  ghost predicate Narrowed(V: map<Page, Node>, sh: Shape, f: Field, probe: Record, top: Page, p: Page) {
    && top in sh && p in sh && sh[p].rank <= sh[top].rank && sh[p].hi <= sh[top].hi
    && NoMatch(V, sh, f, probe, sh[top].lo, sh[p].lo) && NoMatch(V, sh, f, probe, sh[p].hi, sh[top].hi)
  }

  lemma NarrowedFirst(V: map<Page, Node>, sh: Shape, f: Field, probe: Record, top: Page, p: Page, k: Key)
    requires Narrowed(V, sh, f, probe, top, p) && FirstMatch(V, sh, f, probe, sh[p].lo, k)
    ensures FirstMatch(V, sh, f, probe, sh[top].lo, k)
  {
    hide Matches;
  }

  lemma NarrowedMiss(V: map<Page, Node>, sh: Shape, f: Field, probe: Record, top: Page, p: Page)
    requires Narrowed(V, sh, f, probe, top, p) && NoMatch(V, sh, f, probe, sh[p].lo, sh[p].hi)
    ensures NoMatch(V, sh, f, probe, sh[top].lo, sh[top].hi)
  {
    hide Matches;
  }

  /** The child in front of the cell is all that is left. */
  lemma NarrowedToKid(V: map<Page, Node>, sh: Shape, root: Page, top: Page, p: Page, f: Field, probe: Record, i: nat)
    requires Searchable(V, sh, root, f, probe) && Narrowed(V, sh, f, probe, top, p) && p in V && !IsLeaf(V[p])
      && Sought(f, probe, V[p], i)
    requires i < |V[p].cells| ==> Cmp(f, probe, V[p].cells[i].key) < 0
    ensures i < |V[p].kids| && V[p].kids[i] in sh && V[p].kids[i] in V
    ensures Narrowed(V, sh, f, probe, top, V[p].kids[i]) && sh[V[p].kids[i]].rank < sh[p].rank
  {
    KidSpan(By(f), V, sh, root, p, i);
    BelowMisses(V, sh, root, p, f, probe, i);
    if i < |V[p].cells| { AboveMisses(V, sh, root, p, f, probe, i, sh[top].hi); }
    SpansPages(By(f), V, sh, root);
    hide Matches, Searchable, Sought;
  }

  lemma LeafHit(V: map<Page, Node>, sh: Shape, root: Page, p: Page, f: Field, probe: Record, i: nat)
    requires Searchable(V, sh, root, f, probe) && p in sh && p in V && IsLeaf(V[p]) && Sought(f, probe, V[p], i)
    requires i < |V[p].cells| && Cmp(f, probe, V[p].cells[i].key) == 0
    ensures FirstMatch(V, sh, f, probe, sh[p].lo, V[p].cells[i].key)
  {
    LeafMisses(V, sh, root, p, f, probe, i);
    CellRank(f, V[p], i);
    assert HoldsKey(V, sh, p, V[p].cells[i].key);
  }

  lemma LeafMiss(V: map<Page, Node>, sh: Shape, root: Page, p: Page, f: Field, probe: Record, i: nat)
    requires Searchable(V, sh, root, f, probe) && p in sh && p in V && IsLeaf(V[p]) && Sought(f, probe, V[p], i)
    requires i < |V[p].cells| ==> Cmp(f, probe, V[p].cells[i].key) < 0
    ensures NoMatch(V, sh, f, probe, sh[p].lo, sh[p].hi)
  {
    LeafMisses(V, sh, root, p, f, probe, i);
    if i < |V[p].cells| { AboveMisses(V, sh, root, p, f, probe, i, sh[p].hi); }
    hide Matches, Searchable, Sought;
  }

  /** An interior cell that matches is the first match unless the child in front of it has one. */
  lemma KidHit(V: map<Page, Node>, sh: Shape, root: Page, p: Page, f: Field, probe: Record, i: nat)
    requires Searchable(V, sh, root, f, probe) && p in sh && p in V && !IsLeaf(V[p]) && Sought(f, probe, V[p], i)
    requires i < |V[p].cells| && Cmp(f, probe, V[p].cells[i].key) == 0
    ensures i < |V[p].kids| && V[p].kids[i] in sh && V[p].kids[i] in V && sh[V[p].kids[i]].rank < sh[p].rank
    ensures NoMatch(V, sh, f, probe, sh[V[p].kids[i]].lo, sh[V[p].kids[i]].hi) ==>
      FirstMatch(V, sh, f, probe, sh[p].lo, V[p].cells[i].key)
    ensures forall k {:trigger FirstMatch(V, sh, f, probe, sh[V[p].kids[i]].lo, k)} ::
              FirstMatch(V, sh, f, probe, sh[V[p].kids[i]].lo, k) ==> FirstMatch(V, sh, f, probe, sh[p].lo, k)
  {
    KidSpan(By(f), V, sh, root, p, i);
    SpansPages(By(f), V, sh, root);
    CellRank(f, V[p], i);
    assert HoldsKey(V, sh, p, V[p].cells[i].key);
    var c := V[p].kids[i];
    if NoMatch(V, sh, f, probe, sh[c].lo, sh[c].hi) { KidMisses(V, sh, root, p, f, probe, i, sh[c].hi); }
    forall k | FirstMatch(V, sh, f, probe, sh[c].lo, k) ensures FirstMatch(V, sh, f, probe, sh[p].lo, k) {
      KidMisses(V, sh, root, p, f, probe, i, Rank(f, k));
    }
    hide Searchable, NoMatch;
  }

  /** `find_bt` below `page`: the first match in order, or null when there is none. */
  method FindBt(db: Db, page: Page, probe: Record, n: nat, table: Page, ghost sh: Shape, ghost root: Page,
                ghost f: Field)
    returns (cursor: Cursor?, ghost key: Key)
    requires db.Valid() && Searchable(db.nodes, sh, root, f, probe) && page in sh && n == f.n && table == f.table
    modifies db`cache, db`cacheSize
    ensures db.Valid()
    ensures cursor == null ==> NoMatch(db.nodes, sh, f, probe, sh[page].lo, sh[page].hi)
    ensures cursor != null ==>
      fresh(cursor) && fresh(cursor.node) && fresh(cursor.node.keyVals) && fresh(cursor.node.childAddrs)
    ensures cursor != null ==> AtKey(db.nodes, sh, cursor, key) && FirstMatch(db.nodes, sh, f, probe, sh[page].lo, key)
    decreases sh[page].rank
  {
    hide *;
    SearchFacts(db.nodes, sh, root, f, probe);
    SpansPages(By(f), db.nodes, sh, root);
    StartNarrowed(db.nodes, sh, f, probe, page);
    var node := db.ReadNode(page);
    var c := new Cursor(page, node);
    IndexInsert.NowOn(db.nodes, c);
    key := 0;
    while true
      invariant db.Valid() && fresh(c) && fresh(c.node) && fresh(c.node.keyVals) && fresh(c.node.childAddrs)
      invariant On(db.nodes, c) && c.page in sh && c.cell == 0
      invariant Narrowed(db.nodes, sh, f, probe, page, c.page) && sh[c.page].rank <= sh[page].rank
      decreases sh[c.page].rank
    {
      ghost var p := c.page;
      var cmp := Seek(db, c, probe, n, table, sh, root, f);
      IndexInsert.OnFacts(db.nodes, c);
      IndexInsert.NotALeaf(db.nodes[p]);
      ghost var i := c.cell;
      if cmp == 0 {
        key := db.nodes[p].cells[i].key;
        NowAtKey(db.nodes, sh, c);
        if c.node.kind == TableLeaf || c.node.kind == IndexLeaf {
          LeafHit(db.nodes, sh, root, p, f, probe, i);
          NarrowedFirst(db.nodes, sh, f, probe, page, p, key);
          return c, key;
        }
        KidHit(db.nodes, sh, root, p, f, probe, i);
        KidLink(db.nodes, c);
        ghost var childKey;
        var child;
        child, childKey := FindBt(db, c.node.childAddrs[c.cell], probe, n, table, sh, root, f);
        if child != null {
          NarrowedFirst(db.nodes, sh, f, probe, page, p, childKey);
          return child, childKey;
        }
        NarrowedFirst(db.nodes, sh, f, probe, page, p, key);
        return c, key;
      }
      if c.node.kind == TableLeaf || c.node.kind == IndexLeaf {
        LeafMiss(db.nodes, sh, root, p, f, probe, i);
        NarrowedMiss(db.nodes, sh, f, probe, page, p);
        return null, key;
      }
      NarrowedToKid(db.nodes, sh, root, page, p, f, probe, i);
      StepIn(db, c);
    }
  }

  lemma StartNarrowed(V: map<Page, Node>, sh: Shape, f: Field, probe: Record, page: Page)
    requires page in sh
    ensures Narrowed(V, sh, f, probe, page, page)
  {}

  lemma KidLink(V: map<Page, Node>, cursor: Cursor)
    requires On(V, cursor) && cursor.cell <= cursor.node.nbKeys && cursor.node.kind != TableLeaf
    ensures cursor.page in V && cursor.cell < |V[cursor.page].kids| && cursor.cell < cursor.node.childAddrs.Length
    ensures cursor.node.childAddrs[cursor.cell] == V[cursor.page].kids[cursor.cell]
  {}

  // ---------------------------------------------------------------- cursor_next_bt

  /** No key has a rank in the interval. */
  ghost predicate Gapless(V: map<Page, Node>, sh: Shape, f: Field, lo: int, hi: int) {
    forall k {:trigger HasKey(V, sh, k)} :: HasKey(V, sh, k) ==> !(lo <= Rank(f, k) < hi)
  }

  ghost predicate FullLeaves(V: map<Page, Node>, sh: Shape) {
    forall p {:trigger sh[p]} :: p in sh && p in V && IsLeaf(V[p]) ==> V[p].cells != []
  }

  /** What a walk along the tree relies on. */
  ghost predicate Walkable(V: map<Page, Node>, sh: Shape, root: Page, f: Field) {
    && Tree(By(f), V, sh, root) && WellParented(V, sh, root) && FullLeaves(V, sh)
    && forall p {:trigger p in V} :: p in V ==> p < NO_PAGE
  }

  lemma LeafGap(V: map<Page, Node>, sh: Shape, root: Page, p: Page, f: Field, i: nat, r: int)
    requires Tree(By(f), V, sh, root) && p in sh && p in V && IsLeaf(V[p]) && i <= |V[p].cells|
    requires r == if i == 0 then sh[p].lo - 1 else K(By(f), V[p], i - 1)
    ensures Gapless(V, sh, f, r + 1, HiAt(By(f), V[p], sh[p].hi, i)) && r < HiAt(By(f), V[p], sh[p].hi, i)
  {
    var m := V[p];
    assert Local(By(f), V, sh, root, p);
    forall k | HasKey(V, sh, k) ensures !(r + 1 <= Rank(f, k) < HiAt(By(f), m, sh[p].hi, i)) {
      if r + 1 <= Rank(f, k) < HiAt(By(f), m, sh[p].hi, i) {
        if i < |m.cells| { assert K(By(f), m, i) < sh[p].hi; }
        if i > 0 { assert sh[p].lo <= K(By(f), m, i - 1); }
        LeafHolds(By(f), V, sh, root, p, k);
        var j :| 0 <= j < |m.cells| && m.cells[j].key == k;
        CellRank(f, m, j);
        assert false;
      }
    }
  }

  /** The cursor stands where the next key after rank `r` must be: at a cell, or past the end of its page. */
  ghost predicate Standing(V: map<Page, Node>, sh: Shape, f: Field, r: int, p: Page, cell: nat) {
    && p in sh && p in V && cell <= |V[p].cells|
    && r < HiAt(By(f), V[p], sh[p].hi, cell) && Gapless(V, sh, f, r + 1, HiAt(By(f), V[p], sh[p].hi, cell))
  }

  lemma RootIsHighest(V: map<Page, Node>, sh: Shape, root: Page, f: Field)
    requires Walkable(V, sh, root, f)
    ensures root in sh && forall p {:trigger sh[p]} :: p in sh ==> sh[p].rank <= sh[root].rank
  {
    forall p | p in sh ensures sh[p].rank <= sh[root].rank { assert Local(By(f), V, sh, root, p); }
  }

  lemma AfterCell(V: map<Page, Node>, sh: Shape, root: Page, f: Field, p: Page, cell: nat, key: Key)
    requires Walkable(V, sh, root, f) && p in sh && p in V && cell < |V[p].cells| && V[p].cells[cell].key == key
    ensures IsLeaf(V[p]) ==> Standing(V, sh, f, Rank(f, key), p, cell + 1)
    ensures LoAt(By(f), V[p], sh[p].lo, cell + 1) == Rank(f, key) + 1
  {
    CellRank(f, V[p], cell);
    if IsLeaf(V[p]) { LeafGap(V, sh, root, p, f, cell + 1, Rank(f, key)); }
  }

  /** One level down on the way to the next key. */
  lemma DownStep(V: map<Page, Node>, sh: Shape, root: Page, f: Field, p: Page, cell: nat, r: int)
    requires Walkable(V, sh, root, f) && p in sh && p in V && !IsLeaf(V[p]) && cell <= |V[p].cells|
    requires LoAt(By(f), V[p], sh[p].lo, cell) == r + 1
    ensures cell < |V[p].kids| && V[p].kids[cell] in sh && V[p].kids[cell] in V && sh[V[p].kids[cell]].rank < sh[p].rank
    ensures sh[V[p].kids[cell]].lo == r + 1
  {
    KidSpan(By(f), V, sh, root, p, cell);
    SpansPages(By(f), V, sh, root);
  }

  lemma DownEnd(V: map<Page, Node>, sh: Shape, root: Page, f: Field, p: Page, r: int)
    requires Walkable(V, sh, root, f) && p in sh && p in V && IsLeaf(V[p]) && sh[p].lo == r + 1
    ensures V[p].cells != [] && Standing(V, sh, f, r, p, 0)
  {
    LeafGap(V, sh, root, p, f, 0, r);
    assert sh[p].rank >= 0;
  }

  lemma Landed(V: map<Page, Node>, sh: Shape, f: Field, r: int, p: Page, cell: nat)
    requires Standing(V, sh, f, r, p, cell) && cell < |V[p].cells|
    ensures r < Rank(f, V[p].cells[cell].key) && Gapless(V, sh, f, r + 1, Rank(f, V[p].cells[cell].key))
  {
    CellRank(f, V[p], cell);
  }

  /** The parent's slot for the page whose end was reached. */
  lemma UpStep(V: map<Page, Node>, sh: Shape, root: Page, f: Field, r: int, p: Page, cell: nat)
    requires Walkable(V, sh, root, f) && Standing(V, sh, f, r, p, cell) && cell == |V[p].cells|
    ensures root in sh && sh[p].rank <= sh[root].rank
    ensures V[p].parent == NO_PAGE <==> p == root
    ensures p == root ==> Gapless(V, sh, f, r + 1, sh[root].hi)
    ensures p != root ==> var a := V[p].parent;
      && a in sh && a in V && sh[p].rank < sh[a].rank && |V[a].kids| == |V[a].cells| + 1 && V[a].kind != TableLeaf
      && exists i :: 0 <= i <= |V[a].cells| && V[a].kids[i] == p
    ensures p != root ==> forall i {:trigger V[V[p].parent].kids[i]} ::
      0 <= i <= |V[V[p].parent].cells| && V[V[p].parent].kids[i] == p ==>
      Standing(V, sh, f, r, V[p].parent, i)
  {
    assert sh[p].rank >= 0;
    assert Local(By(f), V, sh, root, p);
    SpansPages(By(f), V, sh, root);
    if p != root {
      var a := V[p].parent;
      var pos := ParentSlot(By(f), V, sh, root, p);
      forall i | 0 <= i <= |V[a].cells| && V[a].kids[i] == p ensures Standing(V, sh, f, r, a, i) {
        KidSpan(By(f), V, sh, root, a, i);
      }
    }
  }

  /** To the first key right of where the cursor stands, down the leftmost links. */
  method Down(db: Db, cursor: Cursor, ghost sh: Shape, ghost root: Page, ghost f: Field, ghost r: int)
    returns (ghost next: Key)
    requires db.Valid() && Walkable(db.nodes, sh, root, f) && On(db.nodes, cursor) && cursor.page in sh
    requires cursor.node.kind != TableLeaf && cursor.node.kind != IndexLeaf
      && cursor.cell <= |db.nodes[cursor.page].cells|
    requires LoAt(By(f), db.nodes[cursor.page], sh[cursor.page].lo, cursor.cell) == r + 1
    modifies db`cache, db`cacheSize, cursor
    ensures db.Valid() && AtKey(db.nodes, sh, cursor, next) && r < Rank(f, next)
      && Gapless(db.nodes, sh, f, r + 1, Rank(f, next))
    ensures fresh(cursor.node) && fresh(cursor.node.keyVals) && fresh(cursor.node.childAddrs)
  {
    hide *;
    ghost var V := db.nodes;
    IndexInsert.OnFacts(V, cursor);
    IndexInsert.NotALeaf(V[cursor.page]);
    DownStep(V, sh, root, f, cursor.page, cursor.cell, r);
    StepIn(db, cursor);
    while cursor.node.kind != TableLeaf && cursor.node.kind != IndexLeaf
      invariant db.Valid() && On(V, cursor) && cursor.page in sh && cursor.cell == 0 && sh[cursor.page].lo == r + 1
      invariant fresh(cursor.node) && fresh(cursor.node.keyVals) && fresh(cursor.node.childAddrs)
      decreases sh[cursor.page].rank
    {
      IndexInsert.OnFacts(V, cursor);
      IndexInsert.NotALeaf(V[cursor.page]);
      LoAtStart(f, V[cursor.page], sh[cursor.page].lo);
      DownStep(V, sh, root, f, cursor.page, 0, r);
      StepIn(db, cursor);
    }
    IndexInsert.OnFacts(V, cursor);
    IndexInsert.NotALeaf(V[cursor.page]);
    DownEnd(V, sh, root, f, cursor.page, r);
    next := V[cursor.page].cells[0].key;
    NowAtKey(V, sh, cursor);
    Landed(V, sh, f, r, cursor.page, 0);
  }

  lemma LoAtStart(f: Field, m: Node, lo: int)
    ensures LoAt(By(f), m, lo, 0) == lo
  {}

  /** The slot of the parent's that lists the page. */
  method FindSlot(cursor: Cursor, oldPage: Page, ghost m: Node)
    requires cursor.node.Valid() && cursor.node.Val() == m && m.kind != TableLeaf && |m.kids| == |m.cells| + 1
    requires exists i :: 0 <= i <= |m.cells| && m.kids[i] == oldPage
    modifies cursor`cell
    ensures cursor.cell <= |m.cells| && m.kids[cursor.cell] == oldPage
  {
    cursor.cell := 0;
    assert m.kids == cursor.node.childAddrs[..cursor.node.nbKeys + 1];
    for i := 0 to cursor.node.nbKeys + 1
      invariant forall j :: 0 <= j < i ==> m.kids[j] != oldPage
    {
      assert m.kids[i] == cursor.node.childAddrs[i];
      if cursor.node.childAddrs[i] == oldPage {
        cursor.cell := i;
        return;
      }
    }
    assert false;
  }

  /** `cursor_next_bt`: 0 with the cursor on the in-order successor, or 1 when there is none. */
  method CursorNext(db: Db, cursor: Cursor, ghost sh: Shape, ghost root: Page, ghost f: Field, ghost key: Key)
    returns (ret: int, ghost next: Key)
    requires db.Valid() && Walkable(db.nodes, sh, root, f) && AtKey(db.nodes, sh, cursor, key)
    modifies db`cache, db`cacheSize, cursor
    ensures db.Valid() && (ret == 0 || ret == 1)
    ensures ret == 0 ==> AtKey(db.nodes, sh, cursor, next) && Rank(f, key) < Rank(f, next)
                         && Gapless(db.nodes, sh, f, Rank(f, key) + 1, Rank(f, next))
    ensures ret == 1 ==> root in sh && Gapless(db.nodes, sh, f, Rank(f, key) + 1, sh[root].hi)
    ensures ret == 0 && cursor.node != old(cursor.node) ==>
      fresh(cursor.node) && fresh(cursor.node.keyVals) && fresh(cursor.node.childAddrs)
  {
    hide *;
    ghost var V, r := db.nodes, Rank(f, key);
    AtKeyFacts(V, sh, cursor, key);
    AfterCell(V, sh, root, f, cursor.page, cursor.cell, key);
    IndexInsert.OnFacts(V, cursor);
    IndexInsert.NotALeaf(V[cursor.page]);
    RootIsHighest(V, sh, root, f);
    next := key;
    cursor.cell := cursor.cell + 1;
    IndexInsert.NowOn(V, cursor);
    if cursor.node.kind != TableLeaf && cursor.node.kind != IndexLeaf {
      next := Down(db, cursor, sh, root, f, r);
      return 0, next;
    }
    while true
      invariant db.Valid() && On(V, cursor) && Standing(V, sh, f, r, cursor.page, cursor.cell)
      invariant cursor.page in sh && root in sh && sh[cursor.page].rank <= sh[root].rank
      invariant cursor.node != old(cursor.node) ==>
        fresh(cursor.node) && fresh(cursor.node.keyVals) && fresh(cursor.node.childAddrs)
      decreases sh[root].rank - sh[cursor.page].rank
    {
      IndexInsert.OnFacts(V, cursor);
      ghost var p, cell := cursor.page, cursor.cell;
      StandingFacts(V, sh, f, r, p, cell);
      if cursor.cell < cursor.node.nbKeys {
        Landed(V, sh, f, r, p, cell);
        next := V[p].cells[cell].key;
        NowAtKey(V, sh, cursor);
        return 0, next;
      }
      Fields(cursor.node);
      UpStep(V, sh, root, f, r, p, cell);
      var oldPage := cursor.page;
      cursor.page := cursor.node.parent;
      if cursor.page == NO_PAGE {
        return 1, next;
      }
      cursor.node := db.ReadNode(cursor.page);
      FindSlot(cursor, oldPage, V[cursor.page]);
      IndexInsert.NowOn(V, cursor);
    }
  }

  lemma StandingFacts(V: map<Page, Node>, sh: Shape, f: Field, r: int, p: Page, cell: nat)
    requires Standing(V, sh, f, r, p, cell)
    ensures p in sh && p in V && cell <= |V[p].cells|
  {}

  // ---------------------------------------------------------------- find_all

  /** The keys found so far: every match up to the last one, by rank. */
  ghost predicate Found(V: map<Page, Node>, sh: Shape, f: Field, probe: Record, lo: int, keys: seq<Key>, upto: int) {
    && ByRank(By(f), keys, lo, upto)
    && forall k {:trigger HasKey(V, sh, k)} :: HasKey(V, sh, k) && lo <= Rank(f, k) < upto ==>
         (k in keys <==> Matches(f, probe, k))
  }

  /** The keys of the tree whose records equal the probe, by rank. */
  ghost predicate AllMatches(V: map<Page, Node>, sh: Shape, f: Field, probe: Record, keys: seq<Key>) {
    && (forall k {:trigger k in keys} :: k in keys <==> HasKey(V, sh, k) && Matches(f, probe, k))
    && forall i, j {:trigger keys[i], keys[j]} :: 0 <= i < j < |keys| ==> Rank(f, keys[i]) < Rank(f, keys[j])
  }

  lemma FoundAt(V: map<Page, Node>, sh: Shape, f: Field, probe: Record, lo: int, keys: seq<Key>, upto: int, j: Key)
    requires Found(V, sh, f, probe, lo, keys, upto) && HasKey(V, sh, j)
    ensures lo <= Rank(f, j) < upto ==> (j in keys <==> Matches(f, probe, j))
    ensures j in keys ==> lo <= Rank(f, j) < upto
  {
    hide HasKey, Matches;
    if j in keys { var i :| 0 <= i < |keys| && keys[i] == j; }
  }

  lemma FoundNow(V: map<Page, Node>, sh: Shape, f: Field, probe: Record, lo: int, keys: seq<Key>, upto: int)
    requires ByRank(By(f), keys, lo, upto)
    requires forall k {:trigger HasKey(V, sh, k)} :: HasKey(V, sh, k) && lo <= Rank(f, k) < upto ==>
      (k in keys <==> Matches(f, probe, k))
    ensures Found(V, sh, f, probe, lo, keys, upto)
  {}

  lemma FoundFirst(V: map<Page, Node>, sh: Shape, root: Page, f: Field, probe: Record, k: Key)
    requires Searchable(V, sh, root, f, probe) && root in sh && FirstMatch(V, sh, f, probe, sh[root].lo, k)
    ensures sh[root].lo <= Rank(f, k) < sh[root].hi && Found(V, sh, f, probe, sh[root].lo, [k], Rank(f, k) + 1)
  {
    hide *;
    SearchFacts(V, sh, root, f, probe);
    FirstIs(V, sh, f, probe, sh[root].lo, k);
    RankIsKey(By(f), V, sh, root, k, k);
    RankIs(f, k);
    forall j | HasKey(V, sh, j) && sh[root].lo <= Rank(f, j) < Rank(f, k) + 1
      ensures j in [k] <==> Matches(f, probe, j)
    {
      RankIs(f, j);
      RankIsKey(By(f), V, sh, root, j, k);
      if j != k { MissAt(V, sh, f, probe, sh[root].lo, Rank(f, k), j); }
    }
    OneByRank(f, k, sh[root].lo);
    FoundNow(V, sh, f, probe, sh[root].lo, [k], Rank(f, k) + 1);
  }

  lemma RankIs(f: Field, k: Key)
    ensures Rank(f, k) == Ord(By(f), k)
  {}

  lemma MissAt(V: map<Page, Node>, sh: Shape, f: Field, probe: Record, lo: int, hi: int, j: Key)
    requires NoMatch(V, sh, f, probe, lo, hi) && HasKey(V, sh, j) && lo <= Rank(f, j) < hi
    ensures !Matches(f, probe, j)
  {}

  lemma OneByRank(f: Field, k: Key, lo: int)
    requires lo <= Rank(f, k)
    ensures ByRank(By(f), [k], lo, Rank(f, k) + 1)
  {}

  /** The next key either matches too, or ends the matches. */
  lemma FoundNext(V: map<Page, Node>, sh: Shape, root: Page, f: Field, probe: Record, keys: seq<Key>, k: Key, next: Key)
    requires Searchable(V, sh, root, f, probe) && root in sh
      && Found(V, sh, f, probe, sh[root].lo, keys, Rank(f, k) + 1)
    requires HasKey(V, sh, next) && Rank(f, k) < Rank(f, next) && Gapless(V, sh, f, Rank(f, k) + 1, Rank(f, next))
    ensures sh[root].lo <= Rank(f, next) < sh[root].hi
    ensures Matches(f, probe, next) ==> Found(V, sh, f, probe, sh[root].lo, keys + [next], Rank(f, next) + 1)
    ensures !Matches(f, probe, next) ==> Found(V, sh, f, probe, sh[root].lo, keys, Rank(f, next) + 1)
  {
    hide *;
    SearchFacts(V, sh, root, f, probe);
    var lo := sh[root].lo;
    RankIsKey(By(f), V, sh, root, next, next);
    RankIs(f, next);
    forall j | HasKey(V, sh, j) && lo <= Rank(f, j) < Rank(f, next) + 1
      ensures (j in keys <==> Matches(f, probe, j) && j != next) && (j in keys + [next] <==> j in keys || j == next)
    {
      RankIs(f, j);
      RankIsKey(By(f), V, sh, root, j, next);
      FoundAt(V, sh, f, probe, lo, keys, Rank(f, k) + 1, j);
      GapAt(V, sh, f, Rank(f, k) + 1, Rank(f, next), j);
    }
    NextByRank(V, sh, f, probe, lo, keys, k, next);
    if Matches(f, probe, next) {
      FoundNow(V, sh, f, probe, lo, keys + [next], Rank(f, next) + 1);
    } else {
      FoundNow(V, sh, f, probe, lo, keys, Rank(f, next) + 1);
    }
  }

  lemma GapAt(V: map<Page, Node>, sh: Shape, f: Field, lo: int, hi: int, j: Key)
    requires Gapless(V, sh, f, lo, hi) && HasKey(V, sh, j)
    ensures !(lo <= Rank(f, j) < hi)
  {}

  lemma NextByRank(V: map<Page, Node>, sh: Shape, f: Field, probe: Record, lo: int, keys: seq<Key>, k: Key, next: Key)
    requires Found(V, sh, f, probe, lo, keys, Rank(f, k) + 1) && Rank(f, k) < Rank(f, next) && lo <= Rank(f, next)
    ensures ByRank(By(f), keys, lo, Rank(f, next) + 1) && ByRank(By(f), keys + [next], lo, Rank(f, next) + 1)
  {
    hide HasKey, Matches;
  }

  lemma FoundAll(V: map<Page, Node>, sh: Shape, root: Page, f: Field, probe: Record, keys: seq<Key>, upto: int)
    requires Searchable(V, sh, root, f, probe) && root in sh && Found(V, sh, f, probe, sh[root].lo, keys, upto)
    requires NoMatch(V, sh, f, probe, upto, sh[root].hi) && forall i {:trigger keys[i]} :: 0 <= i < |keys| ==>
      HasKey(V, sh, keys[i])
    ensures AllMatches(V, sh, f, probe, keys)
  {
    hide Searchable, Matches;
    forall k ensures k in keys <==> HasKey(V, sh, k) && Matches(f, probe, k) {
      if HasKey(V, sh, k) { SearchFacts(V, sh, root, f, probe); RankIsKey(By(f), V, sh, root, k, k); }
    }
  }

  /** Past a key that no longer matches nothing does. */
  lemma NoMoreMatches(V: map<Page, Node>, sh: Shape, root: Page, f: Field, probe: Record, k: Key, next: Key, hi: int)
    requires Searchable(V, sh, root, f, probe) && Matches(f, probe, k) && HasKey(V, sh, next)
      && Rank(f, k) < Rank(f, next)
    requires !Matches(f, probe, next)
    ensures NoMatch(V, sh, f, probe, Rank(f, next) + 1, hi)
  {
    CmpFalls(f, probe, k, next);
    forall j | HasKey(V, sh, j) && Rank(f, next) + 1 <= Rank(f, j) < hi ensures !Matches(f, probe, j) {
      CmpFalls(f, probe, next, j);
    }
  }

  lemma GaplessMisses(V: map<Page, Node>, sh: Shape, f: Field, probe: Record, lo: int, hi: int)
    requires Gapless(V, sh, f, lo, hi)
    ensures NoMatch(V, sh, f, probe, lo, hi)
  {}

  lemma MatchExists(V: map<Page, Node>, sh: Shape, root: Page, f: Field, probe: Record, k: Key)
    requires Searchable(V, sh, root, f, probe) && HasKey(V, sh, k) && Matches(f, probe, k)
    ensures root in sh && !NoMatch(V, sh, f, probe, sh[root].lo, sh[root].hi)
  {
    RankIsKey(By(f), V, sh, root, k, k);
    assert Local(By(f), V, sh, root, root);
  }

  lemma MatchIs(V: map<Page, Node>, sh: Shape, root: Page, f: Field, probe: Record, k: Key)
    requires Searchable(V, sh, root, f, probe) && HasKey(V, sh, k)
    ensures k in f.value && Comparable(probe) && Comparable(f.value[k])
    ensures Compare(probe, f.value[k]) == 0 <==> Matches(f, probe, k)
  {}

  lemma FirstIs(V: map<Page, Node>, sh: Shape, f: Field, probe: Record, lo: int, k: Key)
    requires FirstMatch(V, sh, f, probe, lo, k)
    ensures HasKey(V, sh, k) && Matches(f, probe, k) && NoMatch(V, sh, f, probe, lo, Rank(f, k))
  {}

  ghost predicate Listed(V: map<Page, Node>, sh: Shape, keys: seq<Key>) {
    forall i {:trigger keys[i]} :: 0 <= i < |keys| ==> HasKey(V, sh, keys[i])
  }

  lemma ListedPush(V: map<Page, Node>, sh: Shape, keys: seq<Key>, k: Key)
    requires Listed(V, sh, keys) && HasKey(V, sh, k)
    ensures Listed(V, sh, keys + [k]) && Listed(V, sh, [k])
  {}

  lemma ListedAll(V: map<Page, Node>, sh: Shape, root: Page, f: Field, probe: Record, keys: seq<Key>, upto: int)
    requires Searchable(V, sh, root, f, probe) && root in sh && Found(V, sh, f, probe, sh[root].lo, keys, upto)
    requires NoMatch(V, sh, f, probe, upto, sh[root].hi) && Listed(V, sh, keys)
    ensures AllMatches(V, sh, f, probe, keys)
  {
    FoundAll(V, sh, root, f, probe, keys, upto);
  }

  /** `find_all`, when something matches: the keys whose record equals the probe, all of them, in in-order order. */
  method FindAll(db: Db, root: Page, probe: Record, n: nat, table: Page, ghost sh: Shape, ghost f: Field,
                 ghost match0: Key) returns (keys: seq<Key>)
    requires db.Valid() && Searchable(db.nodes, sh, root, f, probe) && Walkable(db.nodes, sh, root, f) && n == f.n
      && table == f.table
    requires HasKey(db.nodes, sh, match0) && Matches(f, probe, match0)
    modifies db`cache, db`cacheSize
    ensures db.Valid() && AllMatches(db.nodes, sh, f, probe, keys)
  {
    hide *;
    ghost var V := db.nodes;
    MatchExists(V, sh, root, f, probe, match0);
    SearchFacts(V, sh, root, f, probe);
    var found; ghost var k;
    found, k := FindBt(db, root, probe, n, table, sh, root, f);
    var cursor: Cursor := found;
    AtKeyFacts(V, sh, cursor, k);
    FirstIs(V, sh, f, probe, sh[root].lo, k);
    FoundFirst(V, sh, root, f, probe, k);
    keys := [cursor.node.keyVals[cursor.cell].key];
    NoneListed(V, sh, k);
    while true
      invariant db.Valid() && fresh(cursor) && AtKey(V, sh, cursor, k) && HasKey(V, sh, k) && Matches(f, probe, k)
      invariant Found(V, sh, f, probe, sh[root].lo, keys, Rank(f, k) + 1) && Listed(V, sh, keys)
        && Rank(f, k) < sh[root].hi
      decreases sh[root].hi - Rank(f, k)
    {
      var ret; ghost var next;
      ret, next := CursorNext(db, cursor, sh, root, f, k);
      if ret != 0 {
        GaplessMisses(V, sh, f, probe, Rank(f, k) + 1, sh[root].hi);
        ListedAll(V, sh, root, f, probe, keys, Rank(f, k) + 1);
        return;
      }
      AtKeyFacts(V, sh, cursor, next);
      FoundNext(V, sh, root, f, probe, keys, k, next);
      MatchIs(V, sh, root, f, probe, next);
      var nodeKey := FieldOf(db, cursor.node.keyVals[cursor.cell].key, n, table, f);
      var cmp := CompareR(probe, nodeKey);
      if cmp != 0 {
        NoMoreMatches(V, sh, root, f, probe, k, next, sh[root].hi);
        ListedAll(V, sh, root, f, probe, keys, Rank(f, next) + 1);
        return;
      }
      ListedPush(V, sh, keys, next);
      keys := keys + [cursor.node.keyVals[cursor.cell].key];
      k := next;
    }
  }

  lemma NoneListed(V: map<Page, Node>, sh: Shape, k: Key)
    requires HasKey(V, sh, k)
    ensures Listed(V, sh, [k])
  {}
}
