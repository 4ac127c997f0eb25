/** Tables side by side: a table's rows ascend, a table does not notice what happens on other pages,
    and giving one row a new value of the same length changes that row only. */
module TableChange {
  import opened Nodes
  import opened Codec
  import opened SearchTree
  import opened Cascade
  import opened LeafInsert
  import opened TableInsert
  import opened TableRows
  import opened TableChain
  import opened TableRun

  ghost predicate Climbing(rows: seq<Cell>) {
    forall i, j :: 0 <= i < j < |rows| ==> rows[i].key < rows[j].key
  }

  lemma ClimbingOn(a: seq<Cell>, b: seq<Cell>, mid: int)
    requires Climbing(a) && Climbing(b)
    requires forall i {:trigger a[i]} :: 0 <= i < |a| ==> a[i].key < mid
    requires forall i {:trigger b[i]} :: 0 <= i < |b| ==> mid <= b[i].key
    ensures Climbing(a + b)
  {}

  lemma LinkSpan(V: map<Page, Node>, sh: Shape, root: Page, chain: seq<Page>, i: nat)
    requires Ascending(V, sh, root, chain) && i < |chain|
    ensures ChainLink(V, sh, chain, i) && Climbing(V[chain[i]].cells) && sh[chain[i]].lo < sh[chain[i]].hi
    ensures forall j {:trigger V[chain[i]].cells[j]} :: 0 <= j < |V[chain[i]].cells| ==>
      sh[chain[i]].lo <= V[chain[i]].cells[j].key < sh[chain[i]].hi
  {
    assert ChainLink(V, sh, chain, i);
    SortedLeaf(V, sh, root, chain[i]);
    assert Local(Natural, V, sh, root, chain[i]);
    var n := V[chain[i]];
    forall j | 0 <= j < |n.cells| ensures sh[chain[i]].lo <= n.cells[j].key < sh[chain[i]].hi {
      assert sh[chain[i]].lo <= K(Natural, n, j) < sh[chain[i]].hi;
    }
  }

  lemma {:induction false} PrefixClimbs(V: map<Page, Node>, sh: Shape, root: Page, chain: seq<Page>, n: nat)
    requires Ascending(V, sh, root, chain) && n < |chain|
    ensures Climbing(Rows(V, chain[..n + 1])) && ChainLink(V, sh, chain, n)
    ensures var rows := Rows(V, chain[..n + 1]);
      forall i {:trigger rows[i]} :: 0 <= i < |rows| ==> rows[i].key < sh[chain[n]].hi
  {
    LinkSpan(V, sh, root, chain, n);
    RowsSnoc(V, chain[..n], chain[n], chain[..n + 1]);
    if n > 0 {
      PrefixClimbs(V, sh, root, chain, n - 1);
      assert ChainLink(V, sh, chain, n - 1);
    }
    hide Ascending, Rows;
    ClimbingOn(Rows(V, chain[..n]), V[chain[n]].cells, sh[chain[n]].lo);
  }

  /** A scan of a table lists its keys in strictly ascending order. */
  lemma RowsClimb(V: map<Page, Node>, t: Table)
    requires TableIs(V, t)
    ensures Climbing(RowsOf(V, t))
  {
    PrefixClimbs(V, t.sh, t.root, t.chain, |t.chain| - 1);
    assert t.chain[..|t.chain|] == t.chain;
  }

  // ---------------------------------------------------------------- other pages

  lemma OtherPages(V: map<Page, Node>, W: map<Page, Node>, t: Table)
    requires TableIs(V, t)
    requires forall p {:trigger p in t.sh} :: p in t.sh && p in V ==> p in W && W[p] == V[p]
    ensures TableIs(W, t) && RowsOf(W, t) == RowsOf(V, t)
  {
    var sh, chain := t.sh, t.chain;
    SpansPages(Natural, V, sh, t.root);
    TreeFrame(Natural, V, W, sh, t.root);
    hide Tree;
    forall i | 0 <= i < |chain|
      ensures ChainLink(W, sh, chain, i) && chain[i] in V && chain[i] in W && W[chain[i]] == V[chain[i]]
    {
      assert ChainLink(V, sh, chain, i);
      assert chain[i] in sh;
      if i + 1 < |chain| { assert ChainLink(V, sh, chain, i + 1); }
    }
    RowsFrame(V, W, chain);
  }

  // ---------------------------------------------------------------- one row gets a new value

  function SetRow(rows: seq<Cell>, key: Key, value: seq<Byte>): (r: seq<Cell>)
    ensures |r| == |rows|
    ensures forall i {:trigger r[i]} :: 0 <= i < |r| ==>
      r[i] == if rows[i].key == key then Cell(key, value) else rows[i]
  {
    seq(|rows|, i requires 0 <= i < |rows| => if rows[i].key == key then Cell(key, value) else rows[i])
  }

  lemma SetRowConcat(a: seq<Cell>, b: seq<Cell>, key: Key, value: seq<Byte>)
    ensures SetRow(a + b, key, value) == SetRow(a, key, value) + SetRow(b, key, value)
  {}

  lemma SetRowNone(rows: seq<Cell>, key: Key, value: seq<Byte>)
    requires forall i {:trigger rows[i]} :: 0 <= i < |rows| ==> rows[i].key != key
    ensures SetRow(rows, key, value) == rows
  {}

  lemma {:induction false} RowsSet(V: map<Page, Node>, W: map<Page, Node>, chain: seq<Page>, key: Key, value: seq<Byte>)
    requires forall i {:trigger chain[i]} :: 0 <= i < |chain| ==>
      chain[i] in V && chain[i] in W && W[chain[i]].cells == SetRow(V[chain[i]].cells, key, value)
    ensures Rows(W, chain) == SetRow(Rows(V, chain), key, value)
  {
    if chain != [] {
      var n := |chain| - 1;
      var c := chain[..n];
      assert forall i {:trigger c[i]} :: 0 <= i < |c| ==> c[i] == chain[i];
      RowsSet(V, W, c, key, value);
      SetRowConcat(Rows(V, c), V[chain[n]].cells, key, value);
    }
  }

  /** The page with the row's new value. */
  function Revalued(n: Node, i: nat, value: seq<Byte>): Node
    requires i < |n.cells|
  {
    n.(cells := n.cells[i := Cell(n.cells[i].key, value)])
  }

  lemma RevaluedIsSet(n: Node, i: nat, value: seq<Byte>)
    requires i < |n.cells| && Climbing(n.cells)
    ensures Revalued(n, i, value).cells == SetRow(n.cells, n.cells[i].key, value)
  {}

  lemma {:induction false} SameImages(n: Node, i: nat, value: seq<Byte>, j: nat)
    requires WellFormed(n) && n.kind == TableLeaf && i < |n.cells| && j <= |n.cells| && |value| == |n.cells[i].value|
    ensures |CellImages(Revalued(n, i, value), j)| == |CellImages(n, j)|
  {
    if j > 0 { SameImages(n, i, value, j - 1); }
  }

  lemma RevaluedFits(n: Node, i: nat, value: seq<Byte>, cap: nat)
    requires Fits(n, cap) && n.kind == TableLeaf && i < |n.cells| && |value| == |n.cells[i].value|
    ensures Fits(Revalued(n, i, value), cap)
  {
    SameImages(n, i, value, |n.cells|);
  }

  predicate SameKeys(m: Node, n: Node) {
    m.kind == n.kind && m.kids == n.kids && |m.cells| == |n.cells|
    && forall i {:trigger m.cells[i]} :: 0 <= i < |m.cells| ==> m.cells[i].key == n.cells[i].key
  }

  /** A search tree does not look at values. */
  lemma KeysFrame(V: map<Page, Node>, W: map<Page, Node>, sh: Shape, root: Page)
    requires Tree(Natural, V, sh, root)
    requires forall p :: p in sh ==> p in V && p in W && SameKeys(W[p], V[p])
    ensures Tree(Natural, W, sh, root)
  {
    forall p | p in sh ensures Local(Natural, W, sh, root, p) {
      assert Local(Natural, V, sh, root, p);
      forall i | 0 <= i < |W[p].cells| ensures K(Natural, W[p], i) == K(Natural, V[p], i) {}
      if !IsLeaf(W[p]) {
        forall i | 0 <= i <= |W[p].cells| ensures KidOk(Natural, W[p], p, sh, i) {
          assert KidOk(Natural, V[p], p, sh, i);
        }
      }
    }
  }

  lemma SetLink(V: map<Page, Node>, t: Table, p: Page, i: nat, value: seq<Byte>, j: nat)
    requires TableIs(V, t) && p in t.sh && p in V && V[p].kind == TableLeaf && i < |V[p].cells| && j < |t.chain|
    ensures var W := V[p := Revalued(V[p], i, value)];
      && t.chain[j] in V && t.chain[j] in W
      && W[t.chain[j]].cells == SetRow(V[t.chain[j]].cells, V[p].cells[i].key, value)
      && ChainLink(W, t.sh, t.chain, j)
  {
    LinkSpan(V, t.sh, t.root, t.chain, j);
    var x, key := t.chain[j], V[p].cells[i].key;
    if x == p {
      RevaluedIsSet(V[p], i, value);
    } else {
      forall k | 0 <= k < |V[x].cells| ensures V[x].cells[k].key != key {
        if V[x].cells[k].key == key {
          RowIsReached(V, t.sh, t.root, x, V[x].cells[k]);
          RowIsReached(V, t.sh, t.root, p, V[p].cells[i]);
          assert false;
        }
      }
      SetRowNone(V[x].cells, key, value);
    }
  }

  /** No page changes size. */
  ghost predicate SameSizes(V: map<Page, Node>, W: map<Page, Node>) {
    W.Keys == V.Keys && forall p {:trigger W[p]} {:trigger V[p]} :: p in V ==> SameLoads(V[p].cells, W[p].cells)
  }

  lemma RevaluedSizes(V: map<Page, Node>, p: Page, i: nat, value: seq<Byte>)
    requires p in V && i < |V[p].cells| && |value| == |V[p].cells[i].value|
    ensures SameSizes(V, V[p := Revalued(V[p], i, value)])
  {}

  /** What a table's last leaf can take does not depend on the values already there, only on their sizes. */
  lemma TakesAfter(V: map<Page, Node>, W: map<Page, Node>, t: Table, value: seq<Byte>)
    requires LastTakes(V, t, value) && SameSizes(V, W)
    ensures LastTakes(W, t, value)
  {
    var l, c := t.chain[|t.chain| - 1], Cell(0, value);
    TakesSame(V[l].cells + [c], W[l].cells + [c], l);
  }

  /** The table with one row's value replaced by another of the same length. */
  lemma SetKeepsTable(V: map<Page, Node>, t: Table, p: Page, i: nat, value: seq<Byte>)
    requires TableIs(V, t) && p in t.sh && p in V && V[p].kind == TableLeaf && i < |V[p].cells|
    requires |value| == |V[p].cells[i].value|
    ensures var W := V[p := Revalued(V[p], i, value)];
      TableIs(W, t) && RowsOf(W, t) == SetRow(RowsOf(V, t), V[p].cells[i].key, value)
  {
    var W, sh, root, chain, key := V[p := Revalued(V[p], i, value)], t.sh, t.root, t.chain, V[p].cells[i].key;
    SpansPages(Natural, V, sh, root);
    KeysFrame(V, W, sh, root);
    forall j | 0 <= j < |chain|
      ensures chain[j] in V && chain[j] in W && W[chain[j]].cells == SetRow(V[chain[j]].cells, key, value)
        && ChainLink(W, sh, chain, j)
    {
      SetLink(V, t, p, i, value, j);
    }
    RowsSet(V, W, chain, key, value);
    hide Tree, ChainLink, Rows;
    assert LegalBut(W, sh, {}) by {
      forall x | x in sh && x in W ensures LegalNode(W[x]) { assert LegalNode(V[x]) by { assert sh[x].rank >= 0; } }
    }
  }
}
