/** The leaves of a table tree along their right links: what an insert anywhere does to the chain, and when a scan
    of the chain still meets every row. */
module TableChain {
  import opened Nodes
  import opened SearchTree
  import opened Cascade
  import opened TableRows

  /** The rows of the leaves of `chain`, left to right. */
  ghost function Rows(V: map<Page, Node>, chain: seq<Page>): seq<Cell> {
    if chain == [] then []
    else Rows(V, chain[..|chain| - 1]) + (if chain[|chain| - 1] in V then V[chain[|chain| - 1]].cells else [])
  }

  ghost predicate ChainLink(V: map<Page, Node>, sh: Shape, chain: seq<Page>, i: int)
    requires 0 <= i < |chain|
  {
    && chain[i] in sh && chain[i] in V && V[chain[i]].kind == TableLeaf
    && V[chain[i]].kids == [if i + 1 < |chain| then chain[i + 1] else NO_PAGE]
    && (|chain| > 1 ==> V[chain[i]].cells != [])
    && (i + 1 < |chain| ==> chain[i + 1] in sh && sh[chain[i]].hi == sh[chain[i + 1]].lo)
  }

  /** The right links from the leftmost leaf to a leaf that has none: what a scan follows. */
  ghost predicate Strung(V: map<Page, Node>, sh: Shape, root: Page, chain: seq<Page>) {
    && root in sh && chain != []
    && (forall i {:trigger ChainLink(V, sh, chain, i)} :: 0 <= i < |chain| ==> ChainLink(V, sh, chain, i))
    && chain[0] in sh && sh[chain[0]].lo == sh[root].lo
  }

  /** The chain goes on to the end of the root's span. */
  ghost predicate Chained(V: map<Page, Node>, sh: Shape, root: Page, chain: seq<Page>) {
    Strung(V, sh, root, chain) && chain[|chain| - 1] in sh && sh[chain[|chain| - 1]].hi == sh[root].hi
  }

  // ---------------------------------------------------------------- the chain and the rows

  lemma {:induction false} RowsOfLink(V: map<Page, Node>, chain: seq<Page>, i: nat, c: Cell)
    requires i < |chain| && chain[i] in V && c in V[chain[i]].cells
    ensures c in Rows(V, chain)
  {
    if i < |chain| - 1 { RowsOfLink(V, chain[..|chain| - 1], i, c); }
  }

  lemma {:induction false} LinkOfRow(V: map<Page, Node>, chain: seq<Page>, c: Cell) returns (i: nat)
    requires c in Rows(V, chain)
    ensures i < |chain| && chain[i] in V && c in V[chain[i]].cells
  {
    var n := |chain| - 1;
    if c in Rows(V, chain[..n]) {
      i := LinkOfRow(V, chain[..n], c);
    } else {
      i := n;
    }
  }

  lemma {:induction false} RowsFrame(V: map<Page, Node>, W: map<Page, Node>, chain: seq<Page>)
    requires forall i {:trigger chain[i]} :: 0 <= i < |chain| ==>
      chain[i] in V && chain[i] in W && V[chain[i]].cells == W[chain[i]].cells
    ensures Rows(V, chain) == Rows(W, chain)
  {
    if chain != [] {
      var c := chain[..|chain| - 1];
      assert forall i {:trigger c[i]} :: 0 <= i < |c| ==> c[i] == chain[i];
      RowsFrame(V, W, c);
    }
  }

  lemma RowsSnoc(V: map<Page, Node>, pre: seq<Page>, p: Page, chain: seq<Page>)
    requires chain == pre + [p] && p in V
    ensures Rows(V, chain) == Rows(V, pre) + V[p].cells
  {
    assert chain[..|chain| - 1] == pre;
  }

  lemma Regroup(a: seq<Cell>, b: seq<Cell>, c: seq<Cell>)
    ensures a + b + c == a + (b + c)
  {}

  lemma {:induction false} RowsConcat(V: map<Page, Node>, a: seq<Page>, b: seq<Page>)
    ensures Rows(V, a + b) == Rows(V, a) + Rows(V, b)
  {
    if b == [] {
      assert a + b == a;
    } else {
      var n := |b| - 1;
      var last := if b[n] in V then V[b[n]].cells else [];
      RowsConcat(V, a, b[..n]);
      assert (a + b)[..|a| + n] == a + b[..n] && (a + b)[|a| + n] == b[n];
      Regroup(Rows(V, a), Rows(V, b[..n]), last);
    }
  }

  /** The rows before a link, of it, and after it. */
  lemma RowsAround(V: map<Page, Node>, chain: seq<Page>, i: nat)
    requires i < |chain| && chain[i] in V
    ensures Rows(V, chain) == Rows(V, chain[..i]) + V[chain[i]].cells + Rows(V, chain[i + 1..])
  {
    assert chain == chain[..i] + [chain[i]] + chain[i + 1..];
    RowsConcat(V, chain[..i] + [chain[i]], chain[i + 1..]);
    RowsSnoc(V, chain[..i], chain[i], chain[..i] + [chain[i]]);
  }

  /** Every key of the span belongs to one link of the chain. */
  lemma {:induction false} LinkFor(V: map<Page, Node>, sh: Shape, root: Page, chain: seq<Page>, k: int, upto: nat)
    returns (i: nat)
    requires Strung(V, sh, root, chain) && upto < |chain| && ChainLink(V, sh, chain, upto)
    requires sh[root].lo <= k < sh[chain[upto]].hi
    ensures i <= upto && ChainLink(V, sh, chain, i) && Covers(Natural, sh, chain[i], k)
  {
    if sh[chain[upto]].lo <= k {
      i := upto;
    } else {
      assert upto > 0;
      assert ChainLink(V, sh, chain, upto - 1);
      i := LinkFor(V, sh, root, chain, k, upto - 1);
    }
  }

  /** A complete chain misses no leaf. */
  lemma LeafIsLinked(V: map<Page, Node>, sh: Shape, root: Page, chain: seq<Page>, p: Page) returns (i: nat)
    requires Tree(Natural, V, sh, root) && Chained(V, sh, root, chain) && p in sh && p in V && IsLeaf(V[p])
    ensures i < |chain| && chain[i] == p
  {
    assert Local(Natural, V, sh, root, p);
    var k, n := sh[p].lo, |chain| - 1;
    assert ChainLink(V, sh, chain, n);
    i := LinkFor(V, sh, root, chain, k, n);
    ReachUnique(Natural, V, sh, root, p, k);
    ReachUnique(Natural, V, sh, root, chain[i], k);
  }

  /** The rows along a complete chain are the tree's rows. */
  lemma RowsAreTheRows(V: map<Page, Node>, sh: Shape, root: Page, chain: seq<Page>, key: Key, value: seq<Byte>)
    requires Tree(Natural, V, sh, root) && Chained(V, sh, root, chain)
    ensures Cell(key, value) in Rows(V, chain) <==> HasRow(V, sh, key, value)
  {
    if Cell(key, value) in Rows(V, chain) {
      var i := LinkOfRow(V, chain, Cell(key, value));
      assert ChainLink(V, sh, chain, i);
      assert LeafWith(V, sh, chain[i], Cell(key, value));
    }
    if HasRow(V, sh, key, value) {
      var p :| LeafWith(V, sh, p, Cell(key, value));
      var i := LeafIsLinked(V, sh, root, chain, p);
      RowsOfLink(V, chain, i, Cell(key, value));
    }
  }

  lemma {:induction false} LinksApart(V: map<Page, Node>, sh: Shape, root: Page, chain: seq<Page>, i: nat, j: nat)
    requires Tree(Natural, V, sh, root) && Strung(V, sh, root, chain) && i < j < |chain|
    ensures chain[i] in sh && chain[j] in sh && sh[chain[i]].hi <= sh[chain[j]].lo && chain[i] != chain[j]
    decreases j
  {
    assert ChainLink(V, sh, chain, i) && ChainLink(V, sh, chain, j) && ChainLink(V, sh, chain, j - 1);
    assert Local(Natural, V, sh, root, chain[j - 1]) && Local(Natural, V, sh, root, chain[i])
      && Local(Natural, V, sh, root, chain[j]);
    if i < j - 1 { LinksApart(V, sh, root, chain, i, j - 1); }
  }

  /** Two leaves on one page graph that start at one place go on alike. */
  lemma {:induction false} StrungAlike(V: map<Page, Node>, sh: Shape, root: Page, c: seq<Page>, d: seq<Page>, i: nat)
    requires Tree(Natural, V, sh, root) && Strung(V, sh, root, c) && Strung(V, sh, root, d) && NO_PAGE !in sh
    requires i < |c|
    ensures i < |d| && c[i] == d[i] && (i + 1 < |c| <==> i + 1 < |d|)
  {
    assert ChainLink(V, sh, c, 0) && ChainLink(V, sh, d, 0);
    if i == 0 {
      assert Local(Natural, V, sh, root, c[0]) && Local(Natural, V, sh, root, d[0]);
      ReachUnique(Natural, V, sh, root, c[0], sh[root].lo);
      ReachUnique(Natural, V, sh, root, d[0], sh[root].lo);
    } else {
      StrungAlike(V, sh, root, c, d, i - 1);
      assert ChainLink(V, sh, c, i - 1) && ChainLink(V, sh, d, i - 1);
    }
    assert ChainLink(V, sh, c, i) && ChainLink(V, sh, d, i);
    assert i + 1 < |c| ==> c[i + 1] in sh;
    assert i + 1 < |d| ==> d[i + 1] in sh;
  }

  /** There is one chain to follow. */
  lemma OneChain(V: map<Page, Node>, sh: Shape, root: Page, c: seq<Page>, d: seq<Page>)
    requires Tree(Natural, V, sh, root) && Strung(V, sh, root, c) && Strung(V, sh, root, d) && NO_PAGE !in sh
    ensures c == d
  {
    forall i | 0 <= i < |c| ensures i < |d| && c[i] == d[i] { StrungAlike(V, sh, root, c, d, i); }
    StrungAlike(V, sh, root, c, d, |c| - 1);
  }

  // ---------------------------------------------------------------- an insert at any link

  /** A row was inserted at link `i` of a complete chain: the leaf's new contents are `m`. */
  ghost predicate PutAt(n0: map<Page, Node>, live0: set<Page>, sh: Shape, n1: map<Page, Node>, sh': Shape, root: Page,
                        chain: seq<Page>, i: nat, m: Node, lp: Page, q: Page) {
    && Tree(Natural, n0, sh, root) && Chained(n0, sh, root, chain) && i < |chain| && chain[i] in n0
    && sh.Keys <= n0.Keys
    && m.kind == TableLeaf && m.kids == n0[chain[i]].kids && |m.cells| == |n0[chain[i]].cells| + 1 <= ORDER
    && LeafDone(Natural, n0, live0, sh, n1, sh', root, chain[i], m, lp, q)
  }

  /** What is strung together afterwards: `split_leaf_node` leaves the new leaf without a right neighbour. */
  ghost function ChainAfter(chain: seq<Page>, i: nat, m: Node, lp: Page, q: Page): seq<Page>
    requires i < |chain|
  {
    if |m.cells| < ORDER then chain else chain[..i] + [lp, q]
  }

  lemma OtherLink(n0: map<Page, Node>, live0: set<Page>, sh: Shape, n1: map<Page, Node>, sh': Shape, root: Page,
                  chain: seq<Page>, i: nat, m: Node, lp: Page, q: Page, j: nat)
    requires PutAt(n0, live0, sh, n1, sh', root, chain, i, m, lp, q) && j < |chain| && j != i
    ensures ChainLink(n0, sh, chain, j) && chain[j] != chain[i] && chain[i] != root
    ensures chain[j] in n1 && chain[j] in sh' && n1[chain[j]].cells == n0[chain[j]].cells
      && SameButParent(n1[chain[j]], n0[chain[j]])
    ensures sh'[chain[j]].lo == sh[chain[j]].lo && sh'[chain[j]].hi == sh[chain[j]].hi
  {
    assert ChainLink(n0, sh, chain, j) && ChainLink(n0, sh, chain, i);
    if i < j { LinksApart(n0, sh, root, chain, i, j); } else { LinksApart(n0, sh, root, chain, j, i); }
    if chain[i] == root { RootInterior(Natural, n0, sh, root, chain[j]); }
    hide Tree, Framed, LegalBut, Halves, Strung;
    if |m.cells| == ORDER { assert LeafKept(n0, sh, n1, sh', root, chain[j]); }
  }

  lemma LinkAfter(n0: map<Page, Node>, live0: set<Page>, sh: Shape, n1: map<Page, Node>, sh': Shape, root: Page,
                  chain: seq<Page>, i: nat, m: Node, lp: Page, q: Page, j: nat)
    requires PutAt(n0, live0, sh, n1, sh', root, chain, i, m, lp, q) && j < |ChainAfter(chain, i, m, lp, q)|
    ensures ChainLink(n1, sh', ChainAfter(chain, i, m, lp, q), j)
  {
    assert ChainLink(n0, sh, chain, i);
    if |m.cells| < ORDER {
      assert ChainLink(n0, sh, chain, j);
      if j != i { OtherLink(n0, live0, sh, n1, sh', root, chain, i, m, lp, q, j); }
      hide Tree, Framed, LegalBut;
    } else {
      if j < i { OtherLink(n0, live0, sh, n1, sh', root, chain, i, m, lp, q, j); }
      if j + 1 < i { OtherLink(n0, live0, sh, n1, sh', root, chain, i, m, lp, q, j + 1); }
      hide Tree, Framed, LegalBut, Strung;
    }
  }

  lemma StrungAfter(n0: map<Page, Node>, live0: set<Page>, sh: Shape, n1: map<Page, Node>, sh': Shape, root: Page,
                    chain: seq<Page>, i: nat, m: Node, lp: Page, q: Page)
    requires PutAt(n0, live0, sh, n1, sh', root, chain, i, m, lp, q)
    ensures Strung(n1, sh', root, ChainAfter(chain, i, m, lp, q))
  {
    var after := ChainAfter(chain, i, m, lp, q);
    assert ChainLink(n0, sh, chain, 0);
    if i > 0 { OtherLink(n0, live0, sh, n1, sh', root, chain, i, m, lp, q, 0); }
    forall j | 0 <= j < |after| ensures ChainLink(n1, sh', after, j) {
      LinkAfter(n0, live0, sh, n1, sh', root, chain, i, m, lp, q, j);
    }
    hide Tree, Framed, LegalBut, ChainLink;
  }

  lemma EndsAfter(n0: map<Page, Node>, live0: set<Page>, sh: Shape, n1: map<Page, Node>, sh': Shape, root: Page,
                  chain: seq<Page>, i: nat, m: Node, lp: Page, q: Page)
    requires PutAt(n0, live0, sh, n1, sh', root, chain, i, m, lp, q)
    ensures Chained(n1, sh', root, ChainAfter(chain, i, m, lp, q)) <==> |m.cells| < ORDER || i == |chain| - 1
  {
    StrungAfter(n0, live0, sh, n1, sh', root, chain, i, m, lp, q);
    assert ChainLink(n0, sh, chain, i);
    if i < |chain| - 1 {
      assert ChainLink(n0, sh, chain, |chain| - 1);
      LinksApart(n0, sh, root, chain, i, |chain| - 1);
      assert Local(Natural, n0, sh, root, chain[|chain| - 1]);
      OtherLink(n0, live0, sh, n1, sh', root, chain, i, m, lp, q, |chain| - 1);
    }
    hide Tree, Framed, LegalBut, ChainLink;
  }

  /** An insert into a complete chain leaves a complete chain if and only if its leaf had room or was the last. */
  lemma CompleteExactly(n0: map<Page, Node>, live0: set<Page>, sh: Shape, n1: map<Page, Node>, sh': Shape, root: Page,
                        chain: seq<Page>, i: nat, m: Node, lp: Page, q: Page)
    requires PutAt(n0, live0, sh, n1, sh', root, chain, i, m, lp, q) && NO_PAGE !in sh'
    ensures (exists c: seq<Page> :: Chained(n1, sh', root, c)) <==> |n0[chain[i]].cells| < ORDER - 1 || i == |chain| - 1
  {
    EndsAfter(n0, live0, sh, n1, sh', root, chain, i, m, lp, q);
    StrungAfter(n0, live0, sh, n1, sh', root, chain, i, m, lp, q);
    var after := ChainAfter(chain, i, m, lp, q);
    forall c: seq<Page> | Chained(n1, sh', root, c) ensures c == after { OneChain(n1, sh', root, c, after); }
  }

  /** The rows that a scan meets afterwards: those before the leaf, the leaf's with the new one, and, unless the leaf
      was cut, those after it. */
  lemma RowsAfter(n0: map<Page, Node>, live0: set<Page>, sh: Shape, n1: map<Page, Node>, sh': Shape, root: Page,
                  chain: seq<Page>, i: nat, m: Node, lp: Page, q: Page)
    requires PutAt(n0, live0, sh, n1, sh', root, chain, i, m, lp, q)
    ensures Rows(n1, ChainAfter(chain, i, m, lp, q)) ==
      Rows(n0, chain[..i]) + m.cells + if |m.cells| < ORDER then Rows(n0, chain[i + 1..]) else []
  {
    hide *;
    PutFacts(n0, live0, sh, n1, sh', root, chain, i, m, lp, q);
    var pre, post := chain[..i], chain[i + 1..];
    forall j | 0 <= j < |pre| ensures pre[j] in n0 && pre[j] in n1 && n0[pre[j]].cells == n1[pre[j]].cells {
      OtherLink(n0, live0, sh, n1, sh', root, chain, i, m, lp, q, j);
      LinkHeld(n0, sh, chain, j);
    }
    RowsFrame(n0, n1, pre);
    AfterIs(chain, i, m, lp, q);
    if |m.cells| < ORDER {
      forall j | 0 <= j < |post| ensures post[j] in n0 && post[j] in n1 && n0[post[j]].cells == n1[post[j]].cells {
        OtherLink(n0, live0, sh, n1, sh', root, chain, i, m, lp, q, i + 1 + j);
        LinkHeld(n0, sh, chain, i + 1 + j);
      }
      RowsFrame(n0, n1, post);
      RowsAround(n1, chain, i);
    } else {
      RowsSnoc(n1, pre, lp, pre + [lp]);
      assert pre + [lp] + [q] == pre + [lp, q];
      RowsSnoc(n1, pre + [lp], q, pre + [lp, q]);
      Regroup(Rows(n1, pre), n1[lp].cells, n1[q].cells);
    }
  }

  lemma LinkHeld(V: map<Page, Node>, sh: Shape, chain: seq<Page>, j: nat)
    requires j < |chain| && ChainLink(V, sh, chain, j)
    ensures chain[j] in V
  {}

  lemma AfterIs(chain: seq<Page>, i: nat, m: Node, lp: Page, q: Page)
    requires i < |chain|
    ensures ChainAfter(chain, i, m, lp, q) == if |m.cells| < ORDER then chain else chain[..i] + [lp, q]
  {}

  lemma PutFacts(n0: map<Page, Node>, live0: set<Page>, sh: Shape, n1: map<Page, Node>, sh': Shape, root: Page,
                 chain: seq<Page>, i: nat, m: Node, lp: Page, q: Page)
    requires PutAt(n0, live0, sh, n1, sh', root, chain, i, m, lp, q)
    ensures i < |chain| && chain[i] in n0 && |m.cells| <= ORDER
    ensures if |m.cells| < ORDER then chain[i] in n1 && n1[chain[i]].cells == m.cells
      else lp in n1 && q in n1 && n1[lp].cells + n1[q].cells == m.cells
  {
    if |m.cells| == ORDER { SplitCells(m, q); }
    hide Tree, Framed, LegalBut, LeafKept, NewInterior, StillInterior, SplitLeft, SplitRight, Strung;
  }

  lemma SplitCells(m: Node, q: Page)
    requires m.kind == TableLeaf
    ensures Saturated(m) ==> SplitLeft(m, q).cells + SplitRight(m).cells == m.cells
  {}

  /** The scan meets every row of the tree. */
  ghost predicate MeetsAll(V: map<Page, Node>, sh: Shape, chain: seq<Page>) {
    forall k, v {:trigger HasRow(V, sh, k, v)} :: HasRow(V, sh, k, v) ==> Cell(k, v) in Rows(V, chain)
  }

  /** After an insert into a complete chain a scan meets every row if and only if the leaf had room or was the last:
      a cut leaf in the middle hides all the rows to its right. */
  lemma MeetsAllExactly(n0: map<Page, Node>, live0: set<Page>, sh: Shape, n1: map<Page, Node>, sh': Shape, root: Page,
                        chain: seq<Page>, i: nat, m: Node, lp: Page, q: Page)
    requires PutAt(n0, live0, sh, n1, sh', root, chain, i, m, lp, q)
    ensures MeetsAll(n1, sh', ChainAfter(chain, i, m, lp, q)) <==> |n0[chain[i]].cells| < ORDER - 1 || i == |chain| - 1
  {
    var after := ChainAfter(chain, i, m, lp, q);
    EndsAfter(n0, live0, sh, n1, sh', root, chain, i, m, lp, q);
    assert Tree(Natural, n1, sh', root);
    if Chained(n1, sh', root, after) {
      forall k, v | HasRow(n1, sh', k, v) ensures Cell(k, v) in Rows(n1, after) {
        RowsAreTheRows(n1, sh', root, after, k, v);
      }
    } else {
      HiddenRow(n0, live0, sh, n1, sh', root, chain, i, m, lp, q);
    }
  }

  lemma HiddenRow(n0: map<Page, Node>, live0: set<Page>, sh: Shape, n1: map<Page, Node>, sh': Shape, root: Page,
                  chain: seq<Page>, i: nat, m: Node, lp: Page, q: Page)
    requires PutAt(n0, live0, sh, n1, sh', root, chain, i, m, lp, q) && |m.cells| == ORDER && i < |chain| - 1
    ensures !MeetsAll(n1, sh', ChainAfter(chain, i, m, lp, q))
  {
    var after := ChainAfter(chain, i, m, lp, q);
    OtherLink(n0, live0, sh, n1, sh', root, chain, i, m, lp, q, i + 1);
    StrungAfter(n0, live0, sh, n1, sh', root, chain, i, m, lp, q);
    assert n0[chain[i + 1]].cells != [];
    var c := n0[chain[i + 1]].cells[0];
    assert Cell(c.key, c.value) == c && LeafWith(n1, sh', chain[i + 1], Cell(c.key, c.value));
    assert HasRow(n1, sh', c.key, c.value);
    if c in Rows(n1, after) {
      var j := LinkOfRow(n1, after, c);
      assert LeafWith(n1, sh', after[j], c) by { assert ChainLink(n1, sh', after, j); }
      RowIsReached(n1, sh', root, chain[i + 1], c);
      RowIsReached(n1, sh', root, after[j], c);
      EndOfScan(n0, live0, sh, n1, sh', root, chain, i, m, lp, q, j);
    }
  }

  /** The leaf to the right is not met any more. */
  lemma EndOfScan(n0: map<Page, Node>, live0: set<Page>, sh: Shape, n1: map<Page, Node>, sh': Shape, root: Page,
                  chain: seq<Page>, i: nat, m: Node, lp: Page, q: Page, j: nat)
    requires PutAt(n0, live0, sh, n1, sh', root, chain, i, m, lp, q) && |m.cells| == ORDER && i < |chain| - 1
    requires j < |ChainAfter(chain, i, m, lp, q)|
    ensures ChainAfter(chain, i, m, lp, q)[j] != chain[i + 1]
  {
    OtherLink(n0, live0, sh, n1, sh', root, chain, i, m, lp, q, i + 1);
    if j < i { LinksApart(n0, sh, root, chain, j, i + 1); }
    LinksApart(n0, sh, root, chain, i, i + 1);
    hide Tree, Framed, LegalBut, Strung, LeafKept;
  }
}
