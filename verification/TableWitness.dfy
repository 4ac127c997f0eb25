/** Short runs from an empty file that show what goes wrong when keys do not ascend: a scan that loses rows, stored
    parents that go wrong, and rows that a search no longer finds. */
module TableWitness {
  import opened Options
  import opened Nodes
  import opened Codec
  import opened MemNodes
  import opened Disk
  import opened SearchTree
  import opened Cascade
  import opened PageTree
  import opened TableTree
  import opened LeafInsert
  import opened TableInsert
  import opened TableRows
  import opened TableChain
  import opened TableRun
  import opened TableScan
  import opened TableAnyOrder

  // ---------------------------------------------------------------- a root over its leaves

  /** Rows without values. */
  function Blank(keys: seq<Key>): seq<Cell> {
    seq(|keys|, i requires 0 <= i < |keys| => Cell(keys[i], []))
  }

  function InsKey(keys: seq<Key>, key: Key): seq<Key> {
    if keys == [] || key <= keys[0] then [key] + keys else [keys[0]] + InsKey(keys[1..], key)
  }

  ghost predicate Contents(V: map<Page, Node>, chain: seq<Page>, leaves: seq<seq<Key>>) {
    |leaves| == |chain| && forall i {:trigger chain[i]} {:trigger leaves[i]} :: 0 <= i < |chain| ==>
      chain[i] in V && V[chain[i]].cells == Blank(leaves[i])
  }

  /** A well-parented tree at page 0 of at most two levels, with the keys of its leaves. */
  ghost predicate Shelf(V: map<Page, Node>, sh: Shape, chain: seq<Page>, leaves: seq<seq<Key>>) {
    && TableOk(V, sh, 0) && WellParented(V, sh, 0) && Chained(V, sh, 0, chain) && sh[0].lo == 0 && sh[0].hi == KEY_LIMIT
    && Contents(V, chain, leaves) && NO_PAGE !in V
    && (forall p {:trigger p in sh} :: p in sh ==> p == 0 || p in chain)
    && (if |chain| == 1 then chain == [0] else 0 !in chain && |V[0].cells| == |chain| - 1)
  }

  predicate Belongs(leaves: seq<seq<Key>>, i: nat, key: Key) {
    && i < |leaves| <= 4 && |leaves[i]| < ORDER && key < KEY_LIMIT && key !in leaves[i]
    && (i > 0 ==> leaves[i] != [] && leaves[i][0] < key)
    && (i < |leaves| - 1 ==> leaves[i] != [] && key < leaves[i][|leaves[i]| - 1])
  }

  lemma {:induction false} PlaceBlank(n: Node, keys: seq<Key>, key: Key, from: nat)
    requires n.cells == Blank(keys) && from <= |keys| && key !in keys
    ensures var p := PlaceFrom(n, key, from); keys[from..p] + [key] + keys[p..] == InsKey(keys[from..], key)
    decreases |keys| - from
  {
    var rest := keys[from..];
    if from < |keys| {
      assert rest[0] == keys[from] && rest[1..] == keys[from + 1..];
      if keys[from] < key {
        PlaceBlank(n, keys, key, from + 1);
        var p := PlaceFrom(n, key, from + 1);
        assert keys[from..p] == [keys[from]] + keys[from + 1..p];
      } else {
        assert keys[from..from] == [];
      }
    } else {
      assert rest == [] && keys[from..from] == [];
    }
  }

  lemma WithBlank(n: Node, keys: seq<Key>, key: Key)
    requires n.cells == Blank(keys) && key !in keys
    ensures WithRow(n, key, []).cells == Blank(InsKey(keys, key)) && |InsKey(keys, key)| == |keys| + 1
  {
    PlaceBlank(n, keys, key, 0);
    var p := Place(n, key);
    assert keys[0..p] == keys[..p] && keys[0..] == keys;
    assert Blank(keys[..p] + [key] + keys[p..]) == n.cells[..p] + [Cell(key, [])] + n.cells[p..];
  }

  lemma {:induction false} BlankBulk(keys: seq<Key>)
    ensures Bulk(Blank(keys)) == CELL_HEADER * |keys|
  {
    if keys != [] {
      var n := |keys| - 1;
      assert Blank(keys)[..n] == Blank(keys[..n]);
      BlankBulk(keys[..n]);
    }
  }

  /** Rows without values fit every page. */
  lemma BlankHeld(n: Node, m: Node, keys: seq<Key>, l: Page, root: Page)
    requires Plain(n) && n.kind == TableLeaf && m == n.(cells := Blank(keys)) && |keys| <= ORDER
    requires forall i {:trigger keys[i]} :: 0 <= i < |keys| ==> keys[i] < KEY_LIMIT
    ensures CanHold(m, l, root)
  {
    assert Plain(m) by { assert forall i {:trigger m.cells[i]} :: 0 <= i < |m.cells| ==> m.cells[i].key == keys[i]; }
    BlankBulk(keys);
    if |keys| < ORDER {
      LeafFits(m, Cap(l));
    } else {
      BlankBulk(keys[2..]);
      BlankBulk(keys[..2]);
      assert m.cells[2..] == Blank(keys[2..]) && m.cells[..2] == Blank(keys[..2]);
      SplitPlain(m, 1);
      LeafFits(SplitRight(m), PAGE_SIZE);
      forall q: Page | q < PAGE_LIMIT ensures Fits(SplitLeft(m, q), if l == root then PAGE_SIZE else Cap(l)) {
        SplitPlain(m, q);
        LeafFits(SplitLeft(m, q), if l == root then PAGE_SIZE else Cap(l));
      }
    }
  }

  /** The leaf of the shelf that a key belongs to. */
  lemma ShelfLeaf(V: map<Page, Node>, sh: Shape, chain: seq<Page>, leaves: seq<seq<Key>>, i: nat, key: Key)
    requires Shelf(V, sh, chain, leaves) && Belongs(leaves, i, key)
    ensures i < |chain| && ChainLink(V, sh, chain, i) && chain[i] in V && Covers(Natural, sh, 0, key)
      && Reach(Natural, V, sh, 0, 0, key) == chain[i]
    ensures Absent(V[chain[i]], key) && V[chain[i]].kind == TableLeaf && |V[chain[i]].cells| == |leaves[i]|
    ensures chain[i] != 0 ==> !IsLeaf(V[0]) && sh[chain[i]].par == 0 && V[chain[i]].parent == 0
    ensures chain[i] == 0 <==> |chain| == 1
  {
    var l, keys := chain[i], leaves[i];
    assert ChainLink(V, sh, chain, i);
    assert Local(Natural, V, sh, 0, l);
    assert forall j {:trigger V[l].cells[j]} :: 0 <= j < |keys| ==> V[l].cells[j].key == keys[j];
    assert keys != [] ==> sh[l].lo <= K(Natural, V[l], 0) && K(Natural, V[l], |keys| - 1) < sh[l].hi;
    ReachUnique(Natural, V, sh, 0, l, key);
    if l != 0 { ShelfParent(V, sh, chain, leaves, i); }
  }

  lemma ShelfParent(V: map<Page, Node>, sh: Shape, chain: seq<Page>, leaves: seq<seq<Key>>, i: nat)
    requires Shelf(V, sh, chain, leaves) && i < |chain| && chain[i] != 0
    ensures chain[i] in V && chain[i] in sh && 0 in V && !IsLeaf(V[0]) && sh[chain[i]].par == 0
      && V[chain[i]].parent == 0
  {
    var l := chain[i];
    assert ChainLink(V, sh, chain, i);
    assert Local(Natural, V, sh, 0, l);
    forall j | 0 <= j < |chain| ensures chain[j] in V && IsLeaf(V[chain[j]]) { assert ChainLink(V, sh, chain, j); }
    assert sh[l].par !in chain;
    assert sh[l].rank >= 0;
  }

  function Flat(leaves: seq<seq<Key>>): seq<Key> {
    if leaves == [] then [] else Flat(leaves[..|leaves| - 1]) + leaves[|leaves| - 1]
  }

  lemma {:induction false} RowsOfContents(V: map<Page, Node>, chain: seq<Page>, leaves: seq<seq<Key>>)
    requires Contents(V, chain, leaves)
    ensures Rows(V, chain) == Blank(Flat(leaves))
  {
    if chain != [] {
      var n := |chain| - 1;
      var c, l := chain[..n], leaves[..n];
      assert forall i {:trigger c[i]} :: 0 <= i < n ==> c[i] == chain[i] && l[i] == leaves[i];
      RowsOfContents(V, c, l);
      assert Blank(Flat(l) + leaves[n]) == Blank(Flat(l)) + Blank(leaves[n]);
    }
  }

  lemma ShelfRows(V: map<Page, Node>, sh: Shape, chain: seq<Page>, leaves: seq<seq<Key>>, k: Key)
    requires Shelf(V, sh, chain, leaves)
    ensures HasRow(V, sh, k, []) <==> k in Flat(leaves)
  {
    RowsOfContents(V, chain, leaves);
    RowsAreTheRows(V, sh, 0, chain, k, []);
    var keys := Flat(leaves);
    hide Shelf, Rows, HasRow, Flat;
    if k in keys {
      var i :| 0 <= i < |keys| && keys[i] == k;
      assert Blank(keys)[i] == Cell(k, []);
    }
  }

  // ---------------------------------------------------------------- one more key

  lemma ShelfInsertable(db: Db, sh: Shape, chain: seq<Page>, leaves: seq<seq<Key>>, i: nat, key: Key)
    requires db.Valid() && Shelf(db.nodes, sh, chain, leaves) && Belongs(leaves, i, key)
    ensures i < |chain| && chain[i] in db.nodes && Insertable(db.nodes, sh, 0, key, [])
    ensures var l := chain[i]; var m := WithRow(db.nodes[l], key, []);
      && Reach(Natural, db.nodes, sh, 0, 0, key) == l && m.cells == Blank(InsKey(leaves[i], key))
      && |m.cells| == |leaves[i]| + 1
      && m.kind == TableLeaf && m.kids == db.nodes[l].kids && Climb(db.nodes, sh, 0, l) == 0 && sh.Keys <= db.nodes.Keys
    ensures |leaves[i]| == ORDER - 1 && 1 < |leaves| <= 3 ==> ParentTakes(db.nodes, sh, 0, key, [])
    ensures |leaves| == 4 ==> chain[i] != 0 && ParentFull(db.nodes, sh, chain[i])
    ensures chain[i] == 0 || (|leaves| <= 3 ==> !ParentFull(db.nodes, sh, chain[i]))
  {
    var V, l, m := db.nodes, chain[i], WithRow(db.nodes[chain[i]], key, []);
    ShelfLeaf(V, sh, chain, leaves, i, key);
    SpansPages(Natural, V, sh, 0);
    WithBlank(V[l], leaves[i], key);
    db.NodeOk(l);
    FitsPlain(V[l], Cap(l));
    assert Local(Natural, V, sh, 0, 0) && Local(Natural, V, sh, 0, l);
    hide Tree, LegalBut, Chained, Contents;
    ShortInsKey(V[l], leaves[i], key);
    BlankHeld(V[l], m, InsKey(leaves[i], key), l, 0);
    assert Enterable(V, sh, 0, key, []);
    assert sh[l].rank >= 0 && sh[0].rank >= 0;
  }

  lemma {:induction false} InsKeyMembers(keys: seq<Key>, key: Key, k: Key)
    ensures k in InsKey(keys, key) <==> k in keys || k == key
  {
    if keys != [] && key > keys[0] {
      InsKeyMembers(keys[1..], key, k);
      assert keys == [keys[0]] + keys[1..];
    }
  }

  lemma ShortInsKey(n: Node, keys: seq<Key>, key: Key)
    requires n.cells == Blank(keys) && ShortKeys(n) && key < KEY_LIMIT
    ensures forall i {:trigger InsKey(keys, key)[i]} :: 0 <= i < |InsKey(keys, key)| ==>
      InsKey(keys, key)[i] < KEY_LIMIT
  {
    forall i | 0 <= i < |InsKey(keys, key)| ensures InsKey(keys, key)[i] < KEY_LIMIT {
      var k := InsKey(keys, key)[i];
      InsKeyMembers(keys, key, k);
      if k in keys {
        var j :| 0 <= j < |keys| && keys[j] == k;
        assert n.cells[j].key == k;
      }
    }
  }

  /** The leaves after a key was put at leaf `i`; a leaf cut in the middle ends the chain. */
  function LeavesAfter(leaves: seq<seq<Key>>, i: nat, key: Key): seq<seq<Key>>
    requires i < |leaves|
  {
    var full := InsKey(leaves[i], key);
    if |full| < ORDER then leaves[i := full] else leaves[..i] + [full[..2], full[2..]]
  }

  /** What one insert into the shelf has done. */
  ghost predicate ShelfPut(n0: map<Page, Node>, live0: set<Page>, sh: Shape, chain: seq<Page>, leaves: seq<seq<Key>>,
                           i: nat, key: Key, n1: map<Page, Node>, sh': Shape, lp: Page, q: Page)
  {
    && Shelf(n0, sh, chain, leaves) && Belongs(leaves, i, key) && i < |chain| && chain[i] in n0
    && var m := WithRow(n0[chain[i]], key, []);
      && m.cells == Blank(InsKey(leaves[i], key)) && |m.cells| == |leaves[i]| + 1
      && PutAt(n0, live0, sh, n1, sh', 0, chain, i, m, lp, q) && NO_PAGE !in n1
  }

  lemma PutContents(n0: map<Page, Node>, live0: set<Page>, sh: Shape, chain: seq<Page>, leaves: seq<seq<Key>>, i: nat,
                    key: Key, n1: map<Page, Node>, sh': Shape, lp: Page, q: Page)
    requires ShelfPut(n0, live0, sh, chain, leaves, i, key, n1, sh', lp, q)
    ensures var chain' := ChainAfter(chain, i, WithRow(n0[chain[i]], key, []), lp, q);
      Contents(n1, chain', LeavesAfter(leaves, i, key))
  {
    hide *;
    PutFactsOf(n0, live0, sh, chain, leaves, i, key, n1, sh', lp, q);
    var m, full := WithRow(n0[chain[i]], key, []), InsKey(leaves[i], key);
    var chain', leaves' := ChainAfter(chain, i, m, lp, q), LeavesAfter(leaves, i, key);
    AfterIs(chain, i, m, lp, q);
    LeavesAre(leaves, i, key);
    PutHalves(n0, live0, sh, n1, sh', chain, i, m, lp, q, full);
    forall j | 0 <= j < |chain'| ensures chain'[j] in n1 && n1[chain'[j]].cells == Blank(leaves'[j]) {
      if j < i || (|m.cells| < ORDER && j != i) {
        OtherLink(n0, live0, sh, n1, sh', 0, chain, i, m, lp, q, j);
        ContentsAt(n0, chain, leaves, j);
      }
    }
    ContentsNow(n1, chain', leaves');
  }

  lemma PutFactsOf(n0: map<Page, Node>, live0: set<Page>, sh: Shape, chain: seq<Page>, leaves: seq<seq<Key>>, i: nat,
                   key: Key, n1: map<Page, Node>, sh': Shape, lp: Page, q: Page)
    requires ShelfPut(n0, live0, sh, chain, leaves, i, key, n1, sh', lp, q)
    ensures i < |chain| == |leaves| && chain[i] in n0 && Contents(n0, chain, leaves) && ORDER == 4
      && Shelf(n0, sh, chain, leaves) && Belongs(leaves, i, key)
    ensures var m := WithRow(n0[chain[i]], key, []);
      m.cells == Blank(InsKey(leaves[i], key)) && PutAt(n0, live0, sh, n1, sh', 0, chain, i, m, lp, q)
  {
    hide LeafDone, Tree, Chained;
  }

  lemma LeavesAre(leaves: seq<seq<Key>>, i: nat, key: Key)
    requires i < |leaves|
    ensures var full := InsKey(leaves[i], key);
      LeavesAfter(leaves, i, key) == if |full| < ORDER then leaves[i := full] else leaves[..i] + [full[..2], full[2..]]
  {}

  lemma ContentsAt(V: map<Page, Node>, chain: seq<Page>, leaves: seq<seq<Key>>, j: nat)
    requires Contents(V, chain, leaves) && j < |chain|
    ensures j < |leaves| && chain[j] in V && V[chain[j]].cells == Blank(leaves[j])
  {}

  lemma ContentsNow(V: map<Page, Node>, chain: seq<Page>, leaves: seq<seq<Key>>)
    requires |leaves| == |chain|
    requires forall i {:trigger chain[i]} :: 0 <= i < |chain| ==> chain[i] in V && V[chain[i]].cells == Blank(leaves[i])
    ensures Contents(V, chain, leaves)
  {}

  lemma PutHalves(n0: map<Page, Node>, live0: set<Page>, sh: Shape, n1: map<Page, Node>, sh': Shape, chain: seq<Page>,
                  i: nat, m: Node, lp: Page, q: Page, full: seq<Key>)
    requires PutAt(n0, live0, sh, n1, sh', 0, chain, i, m, lp, q) && m.cells == Blank(full)
    ensures |m.cells| == |full| <= ORDER
    ensures if |full| < ORDER then chain[i] in n1 && n1[chain[i]].cells == Blank(full)
      else lp in n1 && q in n1 && n1[lp].cells == Blank(full[..2]) && n1[q].cells == Blank(full[2..])
  {
    assert |full| == ORDER ==> Blank(full)[..2] == Blank(full[..2]) && Blank(full)[2..] == Blank(full[2..]);
    hide Tree, Framed, LegalBut, Chained, LeafKept, NewInterior, StillInterior;
  }

  /** With room in the leaf, or when the only or the last leaf is cut, there is a shelf again. */
  lemma ShelfAgain(n0: map<Page, Node>, live0: set<Page>, sh: Shape, chain: seq<Page>, leaves: seq<seq<Key>>, i: nat,
                   key: Key, n1: map<Page, Node>, sh': Shape, lp: Page, q: Page)
    requires ShelfPut(n0, live0, sh, chain, leaves, i, key, n1, sh', lp, q) && WellParented(n1, sh', 0)
    requires |leaves[i]| < ORDER - 1 || i == |leaves| - 1 <= 2
    requires |leaves[i]| == ORDER - 1 && |leaves| == 1 ==> sh'.Keys == {0, lp, q}
    requires |leaves[i]| == ORDER - 1 && |leaves| > 1 ==>
      sh'.Keys == sh.Keys + {q} && 0 in n0 && 0 in n1 && |n1[0].cells| == |n0[0].cells| + 1
    ensures var chain' := ChainAfter(chain, i, WithRow(n0[chain[i]], key, []), lp, q);
      Shelf(n1, sh', chain', LeavesAfter(leaves, i, key))
  {
    hide *;
    ShelfFacts(n0, live0, sh, chain, leaves, i, key, n1, sh', lp, q);
    var m := WithRow(n0[chain[i]], key, []);
    var chain' := ChainAfter(chain, i, m, lp, q);
    AfterIs(chain, i, m, lp, q);
    PutContents(n0, live0, sh, chain, leaves, i, key, n1, sh', lp, q);
    EndsAfter(n0, live0, sh, n1, sh', 0, chain, i, m, lp, q);
    PutRoot(n0, live0, sh, n1, sh', chain, i, m, lp, q);
    if |m.cells| == ORDER {
      if |leaves| == 1 { TwoKids(n1, sh', lp, q); } else { OneMorePage(sh, sh', chain, i, q); }
    } else {
      assert n1[chain[i]] == m;
    }
    ShelfNow(n1, sh', chain', LeavesAfter(leaves, i, key));
  }

  lemma OneMorePage(sh: Shape, sh': Shape, chain: seq<Page>, i: nat, q: Page)
    requires i == |chain| - 1 && sh'.Keys == sh.Keys + {q} && forall p {:trigger p in sh} :: p in sh ==>
      p == 0 || p in chain
    ensures forall p {:trigger p in sh'} :: p in sh' ==> p == 0 || p in chain[..i] + [chain[i], q]
    ensures |chain[..i] + [chain[i], q]| == |chain| + 1
  {
    assert chain == chain[..i] + [chain[i]];
  }

  lemma ShelfFacts(n0: map<Page, Node>, live0: set<Page>, sh: Shape, chain: seq<Page>, leaves: seq<seq<Key>>, i: nat,
                   key: Key, n1: map<Page, Node>, sh': Shape, lp: Page, q: Page)
    requires ShelfPut(n0, live0, sh, chain, leaves, i, key, n1, sh', lp, q)
    ensures i < |chain| == |leaves| && chain[i] in n0 && chain[i] in sh && 0 in n0 && 0 in sh && NO_PAGE !in n1
      && sh[0].lo == 0 && sh[0].hi == KEY_LIMIT
    ensures var m := WithRow(n0[chain[i]], key, []);
      |m.cells| == |leaves[i]| + 1 <= ORDER == 4 && PutAt(n0, live0, sh, n1, sh', 0, chain, i, m, lp, q)
        && |n0[chain[i]].cells| == |leaves[i]|
    ensures forall p {:trigger p in sh} :: p in sh ==> p == 0 || p in chain
    ensures if |chain| == 1 then chain == [0] else 0 !in chain && |n0[0].cells| == |chain| - 1
  {
    assert ChainLink(n0, sh, chain, i);
  }

  lemma ShelfNow(V: map<Page, Node>, sh: Shape, chain: seq<Page>, leaves: seq<seq<Key>>)
    requires TableOk(V, sh, 0) && WellParented(V, sh, 0) && Chained(V, sh, 0, chain) && 0 in sh && sh[0].lo == 0
      && sh[0].hi == KEY_LIMIT
    requires Contents(V, chain, leaves) && NO_PAGE !in V && forall p {:trigger p in sh} :: p in sh ==>
      p == 0 || p in chain
    requires if |chain| == 1 then chain == [0] else 0 !in chain && 0 in V && |V[0].cells| == |chain| - 1
    ensures Shelf(V, sh, chain, leaves)
  {}

  lemma PutRoot(n0: map<Page, Node>, live0: set<Page>, sh: Shape, n1: map<Page, Node>, sh': Shape, chain: seq<Page>,
                i: nat, m: Node, lp: Page, q: Page)
    requires PutAt(n0, live0, sh, n1, sh', 0, chain, i, m, lp, q)
    ensures TableOk(n1, sh', 0) && 0 in sh && 0 in sh' && sh'[0].lo == sh[0].lo && sh'[0].hi == sh[0].hi
      && |m.cells| <= ORDER
    ensures |m.cells| < ORDER ==> n1 == n0[chain[i] := m] && sh' == sh
    ensures |m.cells| == ORDER ==>
      q !in sh && lp in sh' && q in sh' && lp != q && (if chain[i] == 0 then lp !in sh else lp == chain[i])
    ensures |m.cells| == ORDER ==> lp in n1 && q in n1 && IsLeaf(n1[lp]) && IsLeaf(n1[q]) && 0 in n1 && !IsLeaf(n1[0])
  {
    if |m.cells| == ORDER { SplitKinds(m, q); }
    hide Tree, Framed, LegalBut, Chained, LeafKept, NewInterior, StillInterior, SplitLeft, SplitRight;
  }

  /** A root over two leaves and nothing else has one separator. */
  lemma TwoKids(V: map<Page, Node>, sh: Shape, lp: Page, q: Page)
    requires TableOk(V, sh, 0) && sh.Keys == {0, lp, q} && !IsLeaf(V[0]) && lp != 0 && q != 0
    ensures |V[0].cells| == 1
  {
    assert Local(Natural, V, sh, 0, 0);
    KidsDistinct(Natural, V, sh, 0, 0);
    assert LegalNode(V[0]) by { assert sh[0].rank >= 0; }
    forall j | 0 <= j <= |V[0].cells| ensures V[0].kids[j] in {lp, q} { assert KidOk(Natural, V[0], 0, sh, j); }
    AtMost(V[0].kids, {lp, q});
  }

  /** Distinct pages of a set are no more than its pages. */
  lemma AtMost(kids: seq<Page>, pages: set<Page>)
    requires forall i {:trigger kids[i]} :: 0 <= i < |kids| ==> kids[i] in pages
    requires forall i, j {:trigger kids[i], kids[j]} :: 0 <= i < j < |kids| ==> kids[i] != kids[j]
    ensures |kids| <= |pages|
  {
    var s := set i | 0 <= i < |kids| :: kids[i];
    DistinctCount(kids);
    assert s <= pages;
    SubsetCount(s, pages);
  }

  lemma SubsetCount(a: set<Page>, b: set<Page>)
    requires a <= b
    ensures |a| <= |b|
  {
    assert b == a + (b - a);
  }

  lemma {:induction false} DistinctCount(kids: seq<Page>)
    requires forall i, j {:trigger kids[i], kids[j]} :: 0 <= i < j < |kids| ==> kids[i] != kids[j]
    ensures |set i | 0 <= i < |kids| :: kids[i]| == |kids|
  {
    if kids != [] {
      var n := |kids| - 1;
      var front := kids[..n];
      assert forall i {:trigger front[i]} :: 0 <= i < n ==> front[i] == kids[i];
      DistinctCount(front);
      var a, b := set i | 0 <= i < n :: front[i], set i | 0 <= i < |kids| :: kids[i];
      forall x | x in b ensures x in a + {kids[n]} {
        var i :| 0 <= i < |kids| && kids[i] == x;
        if i < n { assert front[i] == x; }
      }
      assert b == a + {kids[n]};
    }
  }

  /** Inserts a key without a value. */
  method PutBlank(db: Db, key: Key, ghost i: nat, ghost sh: Shape, ghost chain: seq<Page>, ghost leaves: seq<seq<Key>>)
    returns (ghost sh': Shape, ghost chain': seq<Page>)
    requires db.Valid() && Shelf(db.nodes, sh, chain, leaves) && Belongs(leaves, i, key) && db.nbPages + 3 < NO_PAGE
    modifies db
    ensures db.Valid() && db.nbPages <= old(db.nbPages) + 3 && Tree(Natural, db.nodes, sh', 0)
    ensures |leaves[i]| < ORDER - 1 || i == |leaves| - 1 <= 2 ==>
      Shelf(db.nodes, sh', chain', LeavesAfter(leaves, i, key))
    ensures Strung(db.nodes, sh', 0, chain') && Contents(db.nodes, chain', LeavesAfter(leaves, i, key)) && 0 in db.nodes
    ensures |leaves[i]| == ORDER - 1 && |leaves| == 4 ==> !WellParented(db.nodes, sh', 0)
    ensures forall k {:trigger HasRow(db.nodes, sh', k, [])} :: HasRow(db.nodes, sh', k, []) <==>
      k in Flat(leaves) || k == key
  {
    hide *;
    ghost var n0, live0 := db.nodes, db.live;
    db.AllBelow();
    ShelfInsertable(db, sh, chain, leaves, i, key);
    ghost var l := chain[i];
    ghost var m := WithRow(n0[l], key, []);
    var ret;
    ghost var lp, q;
    ret, sh', lp, q := Insert(db, 0, key, [], sh);
    db.AllBelow();
    ShelfPutNow(n0, live0, sh, chain, leaves, i, key, db.nodes, sh', lp, q);
    chain' := ChainAfter(chain, i, m, lp, q);
    PutContents(n0, live0, sh, chain, leaves, i, key, db.nodes, sh', lp, q);
    StrungAfter(n0, live0, sh, db.nodes, sh', 0, chain, i, m, lp, q);
    forall k ensures HasRow(db.nodes, sh', k, []) <==> k in Flat(leaves) || k == key {
      ShelfRows(n0, sh, chain, leaves, k);
      InsertAddsRow(n0, live0, sh, db.nodes, sh', 0, l, key, [], lp, q, k, []);
    }
    if |leaves[i]| < ORDER - 1 || i == |leaves| - 1 <= 2 {
      CutShelf(n0, live0, sh, chain, leaves, i, key, db.nodes, sh', lp, q);
      ShelfAgain(n0, live0, sh, chain, leaves, i, key, db.nodes, sh', lp, q);
    }
  }

  lemma ShelfPutNow(n0: map<Page, Node>, live0: set<Page>, sh: Shape, chain: seq<Page>, leaves: seq<seq<Key>>, i: nat,
                    key: Key, n1: map<Page, Node>, sh': Shape, lp: Page, q: Page)
    requires Shelf(n0, sh, chain, leaves) && Belongs(leaves, i, key) && i < |chain| && chain[i] in n0
      && sh.Keys <= n0.Keys && NO_PAGE !in n1
    requires var m := WithRow(n0[chain[i]], key, []);
      && m.cells == Blank(InsKey(leaves[i], key)) && |m.cells| == |leaves[i]| + 1 && m.kind == TableLeaf
      && m.kids == n0[chain[i]].kids
      && LeafDone(Natural, n0, live0, sh, n1, sh', 0, chain[i], m, lp, q)
    ensures ShelfPut(n0, live0, sh, chain, leaves, i, key, n1, sh', lp, q)
    ensures PutAt(n0, live0, sh, n1, sh', 0, chain, i, WithRow(n0[chain[i]], key, []), lp, q)
    ensures Tree(Natural, n1, sh', 0) && 0 in n1 && ORDER == 4 && |leaves[i]| <= 3 && |leaves| == |chain|
      && WellParented(n0, sh, 0)
    ensures |leaves| == 1 ==> IsLeaf(n0[0]) && |n0[0].cells| == |leaves[0]| && chain == [0]
    ensures |leaves| > 1 ==> chain[i] != 0
    ensures |n0[chain[i]].cells| == |leaves[i]| && n0[chain[i]].kind == TableLeaf && TableOk(n0, sh, 0)
  {
    assert ChainLink(n0, sh, chain, i);
  }

  lemma CutShelf(n0: map<Page, Node>, live0: set<Page>, sh: Shape, chain: seq<Page>, leaves: seq<seq<Key>>, i: nat,
                 key: Key, n1: map<Page, Node>, sh': Shape, lp: Page, q: Page)
    requires ShelfPut(n0, live0, sh, chain, leaves, i, key, n1, sh', lp, q) && n0.Keys <= live0
    requires |leaves[i]| == ORDER - 1 && 1 < |leaves| <= 3 ==>
      ParentTakes(n0, sh, 0, key, []) && Reach(Natural, n0, sh, 0, 0, key) == chain[i]
      && n1 == CutAtParent(n0, chain[i], WithRow(n0[chain[i]], key, []), q) && q !in live0
    ensures |leaves[i]| == ORDER - 1 && 1 < |leaves| <= 3 ==>
      sh'.Keys == sh.Keys + {q} && 0 in n0 && 0 in n1 && |n1[0].cells| == |n0[0].cells| + 1
  {
    hide *;
    PutFactsOf(n0, live0, sh, chain, leaves, i, key, n1, sh', lp, q);
    if |leaves[i]| == ORDER - 1 && 1 < |leaves| <= 3 {
      var l := chain[i];
      var m := WithRow(n0[l], key, []);
      TakesAtRoot(n0, sh, chain, leaves, i, key, live0, q);
      CutPages(n0, l, m, q);
      WithAt(n0[0], SplitKey(m), q);
      OneNewPage(n0, live0, sh, n1, sh', chain, i, m, lp, q);
    }
  }

  lemma TakesAtRoot(n0: map<Page, Node>, sh: Shape, chain: seq<Page>, leaves: seq<seq<Key>>, i: nat, key: Key,
                    live0: set<Page>, q: Page)
    requires Shelf(n0, sh, chain, leaves) && Belongs(leaves, i, key) && i < |chain| && 1 < |leaves| && n0.Keys <= live0
      && q !in live0
    requires ParentTakes(n0, sh, 0, key, []) && Reach(Natural, n0, sh, 0, 0, key) == chain[i]
    ensures chain[i] in n0 && chain[i] != 0 && 0 in n0 && |n0[0].kids| == |n0[0].cells| + 1
    ensures var m := WithRow(n0[chain[i]], key, []);
      |m.cells| == ORDER && m.parent == 0 && Saturated(m) && HasRoom(n0[0]) && q !in n0
  {
    ShelfLeaf(n0, sh, chain, leaves, i, key);
    assert Local(Natural, n0, sh, 0, 0) && Local(Natural, n0, sh, 0, chain[i]);
    hide Tree, Chained, Contents, WellParented, Insertable;
  }

  lemma OneNewPage(n0: map<Page, Node>, live0: set<Page>, sh: Shape, n1: map<Page, Node>, sh': Shape, chain: seq<Page>,
                   i: nat, m: Node, lp: Page, q: Page)
    requires PutAt(n0, live0, sh, n1, sh', 0, chain, i, m, lp, q) && n1.Keys == n0.Keys + {q} && |m.cells| == ORDER
      && n0.Keys <= live0
    ensures sh'.Keys == sh.Keys + {q}
  {
    hide Tree, Chained, LegalBut, KeysKept, Local, LeafKept, NewInterior, StillInterior;
    assert q in sh' && q !in sh;
    assert n1.Keys == n0.Keys + (sh'.Keys - sh.Keys);
    assert forall p :: p in sh' && p !in sh ==> p !in live0;
    assert sh'.Keys - sh.Keys == {q};
  }

  // ---------------------------------------------------------------- what goes wrong

  /** An empty table at page 0 of a new file. */
  method EmptyShelf() returns (db: Db, ghost sh: Shape, ghost chain: seq<Page>)
    ensures fresh(db) && db.Valid() && db.nbPages == 1 && Shelf(db.nodes, sh, chain, [[]])
  {
    hide *;
    db := new Db(1);
    var root := NewLeaf();
    EmptyFits(0);
    var ret := db.WriteNode(root, 0);
    db.AllBelow();
    ghost var t := EmptyTable(db.nodes, 0);
    sh, chain := t.sh, t.chain;
    EmptyIsShelf(db.nodes, t);
  }

  lemma PagesApart(V: map<Page, Node>, sh: Shape, root: Page, chain: seq<Page>)
    requires Tree(Natural, V, sh, root) && Chained(V, sh, root, chain)
    ensures forall i, j {:trigger chain[i], chain[j]} :: 0 <= i < j < |chain| ==> chain[i] != chain[j]
  {
    forall i, j | 0 <= i < j < |chain| ensures chain[i] != chain[j] { LinksApart(V, sh, root, chain, i, j); }
  }

  lemma EmptyIsShelf(V: map<Page, Node>, t: Table)
    requires TableIs(V, t) && t.root == 0 && t.sh.Keys == {0} && 0 in V && V[0] == EmptyLeaf() && NO_PAGE !in V
    ensures Shelf(V, t.sh, t.chain, [[]])
  {
    PagesApart(V, t.sh, 0, t.chain);
    forall i | 0 <= i < |t.chain| ensures t.chain[i] in t.sh { assert ChainLink(V, t.sh, t.chain, i); }
    AtMost(t.chain, {0});
    assert Blank([]) == [];
  }

  /** After 10, 20, 30, 40, 50 and 5: two leaves of three keys. */
  method TwoLeaves() returns (db: Db, ghost sh: Shape, ghost chain: seq<Page>)
    ensures fresh(db) && db.Valid() && db.nbPages <= 19 && Shelf(db.nodes, sh, chain, [[5, 10, 20], [30, 40, 50]])
  {
    hide *;
    SmallLimits();
    db, sh, chain := EmptyShelf();
    FirstThree();
    sh, chain := PutBlank(db, 10, 0, sh, chain, [[]]);
    sh, chain := PutBlank(db, 20, 0, sh, chain, [[10]]);
    sh, chain := PutBlank(db, 30, 0, sh, chain, [[10, 20]]);
    NextThree();
    sh, chain := PutBlank(db, 40, 0, sh, chain, [[10, 20, 30]]);
    sh, chain := PutBlank(db, 50, 1, sh, chain, [[10, 20], [30, 40]]);
    sh, chain := PutBlank(db, 5, 0, sh, chain, [[10, 20], [30, 40, 50]]);
  }

  lemma SmallLimits()
    ensures NO_PAGE > 1000 && ORDER == 4
  {}

  /** Where a key goes among its leaf's keys. */
  lemma {:induction false} InsAt(keys: seq<Key>, key: Key, i: nat)
    requires i <= |keys| && (forall j {:trigger keys[j]} :: 0 <= j < i ==> keys[j] < key)
      && (i < |keys| ==> key <= keys[i])
    ensures InsKey(keys, key) == keys[..i] + [key] + keys[i..]
  {
    if i > 0 {
      InsAt(keys[1..], key, i - 1);
      assert keys[1..][..i - 1] == keys[1..i] && keys[1..][i - 1..] == keys[i..];
      assert keys[..i] == [keys[0]] + keys[1..i];
    }
  }

  /** `full` is `keys` with `key` at place `at`. */
  predicate WithKey(keys: seq<Key>, key: Key, at: nat, full: seq<Key>) {
    && at < |full| == |keys| + 1 && full[at] == key
    && forall j {:trigger full[j]} :: 0 <= j < |full| ==>
         (j < at ==> full[j] == keys[j] && full[j] < key) && (at < j ==> full[j] == keys[j - 1] && key <= full[j])
  }

  lemma InsIs(keys: seq<Key>, key: Key, at: nat, full: seq<Key>)
    requires WithKey(keys, key, at, full)
    ensures InsKey(keys, key) == full
  {
    assert forall j {:trigger keys[j]} :: 0 <= j < at ==> full[j] == keys[j];
    assert at < |keys| ==> full[at + 1] == keys[at];
    InsAt(keys, key, at);
    assert full == keys[..at] + [key] + keys[at..];
  }

  lemma RoomFor(leaves: seq<seq<Key>>, i: nat, key: Key, at: nat, full: seq<Key>)
    requires i < |leaves| && WithKey(leaves[i], key, at, full) && |full| < 4
    ensures LeavesAfter(leaves, i, key) == leaves[i := full]
  {
    InsIs(leaves[i], key, at, full);
  }

  lemma CutFor(leaves: seq<seq<Key>>, i: nat, key: Key, at: nat, full: seq<Key>)
    requires i < |leaves| && WithKey(leaves[i], key, at, full) && |full| == 4
    ensures LeavesAfter(leaves, i, key) == leaves[..i] + [[full[0], full[1]], [full[2], full[3]]]
  {
    InsIs(leaves[i], key, at, full);
    assert full[..2] == [full[0], full[1]] && full[2..] == [full[2], full[3]];
  }

  lemma FirstThree()
    ensures Belongs([[]], 0, 10) && LeavesAfter([[]], 0, 10) == [[10]]
    ensures Belongs([[10]], 0, 20) && LeavesAfter([[10]], 0, 20) == [[10, 20]]
    ensures Belongs([[10, 20]], 0, 30) && LeavesAfter([[10, 20]], 0, 30) == [[10, 20, 30]]
  {
    hide InsKey, LeavesAfter;
    RoomFor([[]], 0, 10, 0, [10]);
    RoomFor([[10]], 0, 20, 1, [10, 20]);
    RoomFor([[10, 20]], 0, 30, 2, [10, 20, 30]);
  }

  lemma NextThree()
    ensures Belongs([[10, 20, 30]], 0, 40) && LeavesAfter([[10, 20, 30]], 0, 40) == [[10, 20], [30, 40]]
    ensures Belongs([[10, 20], [30, 40]], 1, 50) && LeavesAfter([[10, 20], [30, 40]], 1, 50) == [[10, 20], [30, 40, 50]]
    ensures Belongs([[10, 20], [30, 40, 50]], 0, 5)
    ensures LeavesAfter([[10, 20], [30, 40, 50]], 0, 5) == [[5, 10, 20], [30, 40, 50]]
  {
    hide InsKey, LeavesAfter;
    CutFor([[10, 20, 30]], 0, 40, 3, [10, 20, 30, 40]);
    RoomFor([[10, 20], [30, 40]], 1, 50, 2, [30, 40, 50]);
    RoomFor([[10, 20], [30, 40, 50]], 0, 5, 0, [5, 10, 20]);
  }

  /** With 6 as well the first leaf is cut: the tree has all seven rows, and a scan of it ends after four. */
  method ScanLosesRows() returns (db: Db, ghost sh: Shape, rows: Option<seq<Cell>>)
    ensures fresh(db) && db.Valid() && Tree(Natural, db.nodes, sh, 0) && rows == Some(Blank([5, 6, 10, 20]))
    ensures forall k {:trigger HasRow(db.nodes, sh, k, [])} :: HasRow(db.nodes, sh, k, []) <==>
      k in {5, 6, 10, 20, 30, 40, 50}
  {
    hide *;
    SmallLimits();
    ghost var chain;
    db, sh, chain := TwoLeaves();
    SixthKey();
    sh, chain := PutBlank(db, 6, 0, sh, chain, [[5, 10, 20], [30, 40, 50]]);
    SixRows();
    ghost var t := Table(0, sh, chain);
    Scanned(db.nodes, t);
    rows := ScanAll(db, 0, t);
  }

  lemma SixthKey()
    ensures Belongs([[5, 10, 20], [30, 40, 50]], 0, 6)
    ensures LeavesAfter([[5, 10, 20], [30, 40, 50]], 0, 6) == [[5, 6], [10, 20]]
  {
    hide InsKey, LeavesAfter;
    CutFor([[5, 10, 20], [30, 40, 50]], 0, 6, 1, [5, 6, 10, 20]);
  }

  lemma SixRows()
    ensures Flat([[5, 10, 20], [30, 40, 50]]) == [5, 10, 20, 30, 40, 50]
  {
    var leaves: seq<seq<Key>> := [[5, 10, 20], [30, 40, 50]];
    assert leaves[..1] == [[5, 10, 20]] && leaves[..1][..0] == [];
    assert Flat(leaves[..1]) == [5, 10, 20];
  }

  lemma Scanned(V: map<Page, Node>, t: Table)
    requires Tree(Natural, V, t.sh, 0) && Strung(V, t.sh, 0, t.chain) && t.root == 0 && 0 in V
      && Contents(V, t.chain, [[5, 6], [10, 20]])
    ensures Scannable(V, t) && RowsOf(V, t) == Blank([5, 6, 10, 20]) && RowsOf(V, t) != []
  {
    RowsOfContents(V, t.chain, [[5, 6], [10, 20]]);
    assert [[5, 6], [10, 20]][..1] == [[5, 6]] && [[5, 6]][..0] == [];
    assert Flat([[5, 6]]) == [5, 6] && Flat([[5, 6], [10, 20]]) == [5, 6, 10, 20];
    assert |Blank([5, 6, 10, 20])| == 4;
  }

  // ---------------------------------------------------------------- stored parents

  /** After 10, 20, ..., 80: four leaves under a full root. */
  method FourLeaves() returns (db: Db, ghost sh: Shape, ghost chain: seq<Page>)
    ensures fresh(db) && db.Valid() && db.nbPages <= 25
    ensures Shelf(db.nodes, sh, chain, [[10, 20], [30, 40], [50, 60], [70, 80]])
  {
    hide *;
    SmallLimits();
    db, sh, chain := EmptyShelf();
    FirstThree();
    sh, chain := PutBlank(db, 10, 0, sh, chain, [[]]);
    sh, chain := PutBlank(db, 20, 0, sh, chain, [[10]]);
    sh, chain := PutBlank(db, 30, 0, sh, chain, [[10, 20]]);
    NextThree();
    sh, chain := PutBlank(db, 40, 0, sh, chain, [[10, 20, 30]]);
    sh, chain := PutBlank(db, 50, 1, sh, chain, [[10, 20], [30, 40]]);
    ThirdLeaf();
    sh, chain := PutBlank(db, 60, 1, sh, chain, [[10, 20], [30, 40, 50]]);
    sh, chain := PutBlank(db, 70, 2, sh, chain, [[10, 20], [30, 40], [50, 60]]);
    FourthLeaf();
    sh, chain := PutBlank(db, 80, 2, sh, chain, [[10, 20], [30, 40], [50, 60, 70]]);
  }

  lemma ThirdLeaf()
    ensures Belongs([[10, 20], [30, 40, 50]], 1, 60)
    ensures LeavesAfter([[10, 20], [30, 40, 50]], 1, 60) == [[10, 20], [30, 40], [50, 60]]
    ensures Belongs([[10, 20], [30, 40], [50, 60]], 2, 70)
    ensures LeavesAfter([[10, 20], [30, 40], [50, 60]], 2, 70) == [[10, 20], [30, 40], [50, 60, 70]]
  {
    hide InsKey, LeavesAfter;
    CutFor([[10, 20], [30, 40, 50]], 1, 60, 3, [30, 40, 50, 60]);
    RoomFor([[10, 20], [30, 40], [50, 60]], 2, 70, 2, [50, 60, 70]);
  }

  lemma FourthLeaf()
    ensures Belongs([[10, 20], [30, 40], [50, 60, 70]], 2, 80)
    ensures LeavesAfter([[10, 20], [30, 40], [50, 60, 70]], 2, 80) == [[10, 20], [30, 40], [50, 60], [70, 80]]
  {
    hide InsKey, LeavesAfter;
    CutFor([[10, 20], [30, 40], [50, 60, 70]], 2, 80, 3, [50, 60, 70, 80]);
  }

  /** With 90 and 100 as well the root is cut, and some stored parent is no longer the page that lists its child:
      ten rows in ascending order are enough. */
  method ParentsGoStale() returns (db: Db, ghost sh: Shape, ghost chain: seq<Page>)
    ensures fresh(db) && db.Valid() && Tree(Natural, db.nodes, sh, 0) && !WellParented(db.nodes, sh, 0)
    ensures Contents(db.nodes, chain, [[10, 20], [30, 40], [50, 60], [70, 80], [90, 100]])
  {
    hide *;
    SmallLimits();
    db, sh, chain := FourLeaves();
    NinthKey();
    sh, chain := PutBlank(db, 90, 3, sh, chain, [[10, 20], [30, 40], [50, 60], [70, 80]]);
    TenthKey();
    sh, chain := PutBlank(db, 100, 3, sh, chain, [[10, 20], [30, 40], [50, 60], [70, 80, 90]]);
  }

  lemma NinthKey()
    ensures Belongs([[10, 20], [30, 40], [50, 60], [70, 80]], 3, 90)
    ensures LeavesAfter([[10, 20], [30, 40], [50, 60], [70, 80]], 3, 90) == [[10, 20], [30, 40], [50, 60], [70, 80, 90]]
  {
    hide InsKey, LeavesAfter;
    RoomFor([[10, 20], [30, 40], [50, 60], [70, 80]], 3, 90, 2, [70, 80, 90]);
  }

  lemma TenthKey()
    ensures Belongs([[10, 20], [30, 40], [50, 60], [70, 80, 90]], 3, 100)
    ensures LeavesAfter([[10, 20], [30, 40], [50, 60], [70, 80, 90]], 3, 100)
      == [[10, 20], [30, 40], [50, 60], [70, 80], [90, 100]]
  {
    hide InsKey, LeavesAfter;
    CutFor([[10, 20], [30, 40], [50, 60], [70, 80, 90]], 3, 100, 3, [70, 80, 90, 100]);
  }

  /** A tree like the one that these ten rows make, with 71 and 72 added to its fourth leaf: the root is page 0, the
      halves of the cut root are 6 and 7, and the leaves below 7 still name page 0 as their parent. */
  function StaleNode(p: Page): Node {
    if p == 0 then Node(NO_PAGE, TableInterior, Blank([70]), [6, 7])
    else if p == 6 then Node(0, TableInterior, Blank([30, 50]), [1, 2, 3])
    else if p == 7 then Node(0, TableInterior, Blank([90]), [4, 5])
    else if p == 1 then Node(6, TableLeaf, Blank([10, 20]), [2])
    else if p == 2 then Node(6, TableLeaf, Blank([30, 40]), [3])
    else if p == 3 then Node(6, TableLeaf, Blank([50, 60]), [4])
    else if p == 4 then Node(0, TableLeaf, Blank([70, 71, 72, 80]), [5])
    else Node(0, TableLeaf, Blank([90, 100]), [NO_PAGE])
  }

  function StaleInfo(p: Page): Info {
    if p == 0 then Info(0, KEY_LIMIT, 2, NO_PAGE)
    else if p == 6 then Info(0, 70, 1, 0)
    else if p == 7 then Info(70, KEY_LIMIT, 1, 0)
    else if p == 1 then Info(0, 30, 0, 6)
    else if p == 2 then Info(30, 50, 0, 6)
    else if p == 3 then Info(50, 70, 0, 6)
    else if p == 4 then Info(70, 90, 0, 7)
    else Info(90, KEY_LIMIT, 0, 7)
  }

  const STALE: map<Page, Node> := map p: Page | 0 <= p < 8 :: StaleNode(p)
  const STALE_SHAPE: Shape := map p: Page | 0 <= p < 8 :: StaleInfo(p)

  lemma StaleLeaf(p: Page)
    requires 1 <= p <= 5
    ensures Local(Natural, STALE, STALE_SHAPE, 0, p)
  {
    StaleKeys(p);
    StaleLinks(p);
    hide Sorted, Within, Linked, Blank;
  }

  lemma StaleKeys(p: Page)
    requires 1 <= p <= 5
    ensures Sorted(Natural, StaleNode(p)) && Within(Natural, StaleNode(p), StaleInfo(p).lo, StaleInfo(p).hi)
  {
    if p == 1 { BlankWithin(StaleNode(p), [10, 20], 0, 30); }
    else if p == 2 { BlankWithin(StaleNode(p), [30, 40], 30, 50); }
    else if p == 3 { BlankWithin(StaleNode(p), [50, 60], 50, 70); }
    else if p == 4 { BlankWithin(StaleNode(p), [70, 71, 72, 80], 70, 90); }
    else { BlankWithin(StaleNode(p), [90, 100], 90, KEY_LIMIT); }
    hide Sorted, Within, Blank;
  }

  lemma BlankWithin(n: Node, keys: seq<Key>, lo: int, hi: int)
    requires n.cells == Blank(keys) && lo < hi
    requires forall i, j {:trigger keys[i], keys[j]} :: 0 <= i < j < |keys| ==> keys[i] < keys[j]
    requires forall i {:trigger keys[i]} :: 0 <= i < |keys| ==> lo <= keys[i] < hi
    ensures Sorted(Natural, n) && Within(Natural, n, lo, hi)
  {
    forall i | 0 <= i < |keys| ensures K(Natural, n, i) == keys[i] {}
  }

  lemma StaleLinks(p: Page)
    requires 1 <= p <= 5
    ensures p in STALE && p in STALE_SHAPE && 0 in STALE_SHAPE && STALE[p] == StaleNode(p)
      && STALE_SHAPE[p] == StaleInfo(p)
    ensures Linked(STALE, STALE_SHAPE, 0, p) && KindOk(Natural, StaleNode(p)) && IsLeaf(StaleNode(p))
  {
    hide Blank;
    var b := StaleInfo(p).par;
    assert STALE[b] == StaleNode(b);
    assert p < 4 ==> StaleNode(6).kids[p - 1] == p;
    assert p >= 4 ==> StaleNode(7).kids[p - 4] == p;
  }

  lemma StaleInterior(p: Page)
    requires p == 0 || p == 6 || p == 7
    ensures Local(Natural, STALE, STALE_SHAPE, 0, p)
  {
    var n := STALE[p];
    forall i | 0 <= i <= |n.cells| ensures KidOk(Natural, n, p, STALE_SHAPE, i) {
      assert i == 0 || i == 1 || i == 2;
    }
  }

  /** Cut at page 0 the fourth leaf gives its new half everything from 72 on that the root answers for: the row 90 is in
      the tree, and after the cut no search finds it. */
  lemma StaleCutLosesRow(q: Page)
    requires q >= 8
    ensures CutReadyAt(STALE, STALE_SHAPE, 0, 4, STALE[4], q) && HasRow(STALE, STALE_SHAPE, 90, [])
    ensures !Found(CutAtParent(STALE, 4, STALE[4], q), RanksWith(STALE_SHAPE, q), 0, 90, [])
  {
    forall p | p in STALE_SHAPE ensures Local(Natural, STALE, STALE_SHAPE, 0, p) {
      if 1 <= p <= 5 { StaleLeaf(p); } else { StaleInterior(p); }
    }
    StaleFacts(q);
    hide *;
    FoundExactly(STALE, STALE_SHAPE, 0, 4, STALE[4], q, 90, []);
  }

  lemma StaleFacts(q: Page)
    requires q >= 8 && Tree(Natural, STALE, STALE_SHAPE, 0)
    ensures CutReadyAt(STALE, STALE_SHAPE, 0, 4, STALE[4], q) && HasRow(STALE, STALE_SHAPE, 90, [])
    ensures STALE[4].parent in STALE && STALE[4].parent in STALE_SHAPE && Saturated(STALE[4])
    ensures !InNewHalf(STALE, STALE_SHAPE, 0, 4, STALE[4], 90) && Diverted(STALE, STALE_SHAPE, STALE[4], 90)
  {
    assert STALE[5].cells[0] == Cell(90, []);
    assert LeafWith(STALE, STALE_SHAPE, 5, Cell(90, []));
    RowIsReached(STALE, STALE_SHAPE, 0, 5, Cell(90, []));
    PlaceIs(STALE[0], 72, 1);
  }
}
