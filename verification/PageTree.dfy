/** Trees of pages: the cursor, and the operations that the table trees and the index trees share. */
module PageTree {
  import opened Nodes
  import opened Codec
  import opened MemNodes
  import opened Disk
  import opened SearchTree
  import opened Cascade

  class Cursor {
    var page: Page
    var node: MemNode
    var cell: nat

    constructor (page: Page, node: MemNode)
      ensures this.page == page && this.node == node && cell == 0
    {
      this.page, this.node, cell := page, node, 0;
    }
  }

  /** The cursor has read the page it is on. */
  ghost predicate On(nodes: map<Page, Node>, cursor: Cursor)
    reads cursor, cursor.node, cursor.node.keyVals, cursor.node.childAddrs
  {
    cursor.page in nodes && cursor.node.Valid() && cursor.node.Val() == nodes[cursor.page]
  }

  method StepIn(db: Db, cursor: Cursor)
    requires db.Valid() && On(db.nodes, cursor) && !IsLeaf(db.nodes[cursor.page])
    requires cursor.cell <= cursor.node.nbKeys && db.nodes[cursor.page].kids[cursor.cell] in db.nodes
    modifies db`cache, db`cacheSize, cursor
    ensures db.Valid() && On(db.nodes, cursor) && cursor.cell == 0
    ensures cursor.page == old(db.nodes[cursor.page].kids[cursor.cell])
    ensures fresh(cursor.node) && fresh(cursor.node.keyVals) && fresh(cursor.node.childAddrs)
  {
    cursor.page := cursor.node.childAddrs[cursor.cell];
    hide Db.Valid;
    cursor.node := db.ReadNode(cursor.page);
    cursor.cell := 0;
  }

  /** A descent for `k` passes every separator that is not above `k`. */
  lemma ChildIs(o: Order, V: map<Page, Node>, sh: Shape, root: Page, p: Page, k: int, i: int)
    requires Tree(o, V, sh, root) && p in sh && p in V && !IsLeaf(V[p]) && 0 <= i <= |V[p].cells|
    requires forall j {:trigger K(o, V[p], j)} :: 0 <= j < i ==> K(o, V[p], j) <= k
    requires i < |V[p].cells| ==> k < K(o, V[p], i)
    ensures i < |V[p].kids| && V[p].kids[i] in sh && V[p].kids[i] in V && sh[V[p].kids[i]].rank < sh[p].rank
    ensures Reach(o, V, sh, root, p, k) == Reach(o, V, sh, root, V[p].kids[i], k)
  {
    assert Local(o, V, sh, root, p);
    assert KidOk(o, V[p], p, sh, i);
    assert Local(o, V, sh, root, V[p].kids[i]);
    var c := ChildFor(o, V[p], k);
  }

  // ---------------------------------------------------------------- one node in memory

  method AddCell(node: MemNode, offset: nat, c: Cell)
    requires node.Valid() && node.kind == TableLeaf && offset <= node.nbKeys < ORDER
    modifies node`nbKeys, node.keyVals
    ensures node.Valid() && node.Val() == old(InsertCell(node.Val(), offset, c))
  {
    InsertInArr(node.keyVals, node.nbKeys, c, offset);
    node.nbKeys := node.nbKeys + 1;
  }

  method AddKid(node: MemNode, offset: nat, key: Key, page: Page)
    requires node.Valid() && node.kind != TableLeaf && offset <= node.nbKeys < ORDER
    modifies node`nbKeys, node.keyVals, node.childAddrs
    ensures node.Valid() && node.Val() == old(InsertKid(node.Val(), offset, key, page))
  {
    ghost var n, nb := node.Val(), node.nbKeys;
    assert node.keyVals[..offset] == n.cells[..offset] && node.keyVals[offset..nb] == n.cells[offset..];
    assert node.childAddrs[..offset + 1] == n.kids[..offset + 1]
      && node.childAddrs[offset + 1..nb + 1] == n.kids[offset + 1..];
    InsertInArr(node.keyVals, node.nbKeys, Cell(key, []), offset);
    InsertInArr(node.childAddrs, node.nbKeys + 1, page, offset + 1);
    node.nbKeys := node.nbKeys + 1;
  }

  // ---------------------------------------------------------------- splitting a node

  /** Moves the right half of a saturated interior node (or index node) out to a new page. */
  method SplitOff(node: MemNode) returns (right: MemNode, key: Key)
    requires node.Valid() && node.nbKeys == ORDER && node.kind != TableLeaf
    modifies node`nbKeys, node.childAddrs
    ensures fresh(right) && fresh(right.keyVals) && fresh(right.childAddrs) && node.Valid() && right.Valid()
    ensures Saturated(old(node.Val())) && key == SplitKey(old(node.Val()))
    ensures node.Val() == SplitLeft(old(node.Val()), 0) && right.Val() == SplitRight(old(node.Val()))
  {
    ghost var n := node.Val();
    right := new MemNode(node.parent, node.kind, ORDER - ORDER / 2 - 1);
    key := node.keyVals[ORDER / 2].key;
    for i := ORDER / 2 + 1 to ORDER
      modifies right.keyVals
      invariant forall j :: ORDER / 2 < j < i ==> right.keyVals[j - ORDER / 2 - 1] == node.keyVals[j]
    {
      right.keyVals[i - ORDER / 2 - 1] := node.keyVals[i];
    }
    for i := ORDER / 2 + 1 to ORDER + 1
      modifies right.childAddrs, node.childAddrs
      invariant forall j :: ORDER / 2 < j < i ==> right.childAddrs[j - ORDER / 2 - 1] == old(node.childAddrs[j])
      invariant forall j :: 0 <= j <= ORDER && !(ORDER / 2 < j < i) ==> node.childAddrs[j] == old(node.childAddrs[j])
    {
      right.childAddrs[i - ORDER / 2 - 1] := node.childAddrs[i];
      node.childAddrs[i] := 0;
    }
    node.nbKeys := ORDER / 2;
    assert node.keyVals[..2] == n.cells[..2] && node.childAddrs[..3] == n.kids[..3];
    assert right.keyVals[..1] == n.cells[3..] && right.childAddrs[..2] == n.kids[3..];
  }

  method SplitInternalNode(db: Db, node: MemNode) returns (key: Key, page: Page)
    requires db.Valid() && db.nbPages + 1 < NO_PAGE
    requires node.Valid() && node.nbKeys == ORDER && node.kind != TableLeaf && Plain(node.Val())
    modifies db, node`nbKeys, node.childAddrs
    ensures db.Valid() && node.Valid() && Saturated(old(node.Val()))
    ensures page !in old(db.live) && db.live == old(db.live) + {page} && page < db.nbPages <= old(db.nbPages) + 1
    ensures key == SplitKey(old(node.Val())) && node.Val() == SplitLeft(old(node.Val()), page)
    ensures db.nodes == old(db.nodes)[page := SplitRight(old(node.Val()))]
  {
    ghost var n := node.Val();
    SplitPlain(n, 0);
    hide *;
    var right;
    right, key := SplitOff(node);
    page := db.CreateAddr();
    InteriorFits(SplitRight(n), page);
    var ret := db.WriteNode(right, page);
    SplitLeftIgnores(n, 0, page);
  }

  lemma SplitLeftIgnores(n: Node, q: Page, r: Page)
    requires Saturated(n) && n.kind != TableLeaf
    ensures SplitLeft(n, q) == SplitLeft(n, r)
  {}

  lemma CapOf(page: Page)
    ensures Cap(page) == if page == 0 then PAGE_SIZE - DB_HEADER else PAGE_SIZE
  {}

  // ---------------------------------------------------------------- a new root

  method WriteEmptyRoot(ghost o: Order, kind: Kind, db: Db, page: Page, home: Page)
    requires kind == InteriorKind(o) && db.Valid() && page in db.nodes && home < PAGE_LIMIT
    modifies db`cache, db`cacheSize, db`pages, db`nodes
    ensures db.Valid() && db.nodes == old(db.nodes)[page := EmptyRoot(o, home)]
  {
    var root := new MemNode(NO_PAGE, kind, 0);
    root.childAddrs[0] := home;
    ghost var r := EmptyRoot(o, home);
    assert Plain(r);
    InteriorFits(r, page);
    assert root.Val() == r;
    db.LiveBound(page);
    hide *;
    var ret := db.WriteNode(root, page);
  }

  /** Reads a node and writes it back under another parent. */
  method Retell(db: Db, page: Page, parent: Page)
    requires db.Valid() && page in db.nodes && parent < PAGE_LIMIT
    modifies db`cache, db`cacheSize, db`pages, db`nodes
    ensures db.Valid() && db.nodes == old(db.nodes)[page := old(db.nodes)[page].(parent := parent)]
  {
    db.NodeOk(page);
    db.LiveBound(page);
    ReparentFits(db.nodes[page], parent, Cap(page));
    {
      hide *;
      var node := db.ReadNode(page);
      ghost var was := node.Val();
      SetParent(node, parent);
      var ret := db.WriteNode(node, page);
    }
  }

  method SetParent(node: MemNode, parent: Page)
    requires node.Valid()
    modifies node`parent
    ensures node.Valid() && node.Val() == old(node.Val()).(parent := parent)
  {
    node.parent := parent;
  }

  lemma KidsAre(node: MemNode, kids: seq<Page>)
    requires node.Valid() && node.kind != TableLeaf && kids == node.Val().kids
    ensures |kids| == node.nbKeys + 1 <= node.childAddrs.Length
    ensures forall i {:trigger kids[i]} :: 0 <= i <= node.nbKeys ==> kids[i] == node.childAddrs[i]
  {}

  lemma RetoldNone(nodes: map<Page, Node>, kids: seq<Page>, home: Page)
    ensures Reparent(nodes, kids[..0], home) == nodes
  {}

  lemma RetoldOne(nodes: map<Page, Node>, kids: seq<Page>, i: nat, home: Page)
    requires i < |kids| && forall j :: 0 <= j < |kids| ==> kids[j] in nodes
    ensures kids[i] in Reparent(nodes, kids[..i], home)
    ensures var was := Reparent(nodes, kids[..i], home);
      Reparent(nodes, kids[..i + 1], home) == was[kids[i] := was[kids[i]].(parent := home)]
  {
    assert kids[..i + 1][..i] == kids[..i];
  }

  method RetellKids(db: Db, node: MemNode, home: Page)
    requires db.Valid() && node.Valid() && node.kind != TableLeaf && home < PAGE_LIMIT
    requires forall i :: 0 <= i < |node.Val().kids| ==> node.Val().kids[i] in db.nodes
    modifies db`cache, db`cacheSize, db`pages, db`nodes
    ensures db.Valid() && db.nodes == Reparent(old(db.nodes), node.Val().kids, home)
  {
    ghost var kids := node.Val().kids;
    KidsAre(node, kids);
    RetoldNone(db.nodes, kids, home);
    for i := 0 to node.nbKeys + 1
      invariant db.Valid() && db.nodes == Reparent(old(db.nodes), kids[..i], home)
    {
      hide Db.Valid, MemNode.Val;
      RetoldOne(old(db.nodes), kids, i, home);
      Retell(db, node.childAddrs[i], home);
    }
    assert kids[..node.nbKeys + 1] == kids;
  }

  /** Moves the root's remaining contents to a new page, so that the root page keeps its number. */
  method CreateRoot(ghost o: Order, kind: Kind, db: Db, page: Page, node: MemNode, sibling: Page) returns (home: Page)
    requires db.Valid() && db.nbPages + 1 < NO_PAGE && node.Valid() && node.parent == NO_PAGE
    requires page in db.nodes && sibling in db.nodes && sibling != page && Fits(node.Val(), PAGE_SIZE)
    requires kind == InteriorKind(o)
    requires !IsLeaf(node.Val()) ==> forall i :: 0 <= i < |node.Val().kids| ==> node.Val().kids[i] in db.nodes
    modifies db, node`parent
    ensures db.Valid() && node.Valid() && node.Val() == old(node.Val()).(parent := page)
    ensures home !in old(db.live) && home != 0 && db.live == old(db.live) + {home}
      && home < db.nbPages <= old(db.nbPages) + 1
    ensures db.nodes == Rehome(o, old(db.nodes), page, home, old(node.Val()), sibling)
  {
    hide *;
    ghost var left := node.Val();
    Fields(node);
    ghost var n0 := db.nodes;
    db.LiveBound(page);
    db.LiveBound(sibling);
    db.AllBelow();
    home := db.CreateAddr();
    db.LiveBound(home);
    WriteEmptyRoot(o, kind, db, page, home);
    ReparentFits(left, page, PAGE_SIZE);
    SetParent(node, page);
    CapOf(home);
    var ret := db.WriteNode(node, home);
    Retell(db, sibling, page);
    RehomeSteps(o, n0, page, home, left, sibling);
    Fields(node);
    LeafKinds(left);
    if node.kind != TableLeaf && node.kind != IndexLeaf {
      RetellKids(db, node, home);
    }
  }

  lemma TableRootKind()
    ensures InteriorKind(Natural) == TableInterior
  {}

  lemma LeafKinds(n: Node)
    ensures IsLeaf(n) <==> n.kind == TableLeaf || n.kind == IndexLeaf
  {}

  lemma RehomeSteps(o: Order, n0: map<Page, Node>, page: Page, home: Page, left: Node, sibling: Page)
    requires page in n0 && sibling in n0 && sibling != page && home !in n0
    ensures
      var n1 := n0[page := EmptyRoot(o, home)][home := left.(parent := page)];
      var n2 := n1[sibling := n1[sibling].(parent := page)];
      && n1[sibling] == n0[sibling]
      && Rehome(o, n0, page, home, left, sibling) == (if IsLeaf(left) then n2 else Reparent(n2, left.kids, home))
  {}

  // ---------------------------------------------------------------- inserting a separator, and upwards

  ghost predicate KidPlace(o: Order, n: Node, pos: nat, key: Key) {
    && !IsLeaf(n) && KindOk(o, n) && |n.cells| < ORDER && PosFor(o, n, pos, key)
  }

  lemma InsertKidPlain(o: Order, n: Node, pos: nat, key: Key, q: Page)
    requires Plain(n) && KindOk(o, n) && n.kind != TableLeaf && |n.cells| < ORDER && pos <= |n.cells| && key < KEY_LIMIT
      && q < PAGE_LIMIT
    ensures Plain(InsertKid(n, pos, key, q))
  {}

  lemma KidPlaceFacts(o: Order, m: Node, pos: nat, key: Key)
    requires KidPlace(o, m, pos, key)
    ensures KindOk(o, m) && m.kind != TableLeaf && |m.cells| < ORDER && pos <= |m.cells| && |m.kids| == |m.cells| + 1
  {}

  /** `key` and the page `value` to its right belong at `pos` in `addr`: with them there the graph is a search tree. */
  ghost predicate CanInsert(o: Order, nodes: map<Page, Node>, addr: Page, key: Key, value: Page, root: Page, sh: Shape,
                            pos: nat, pend: map<Page, Node>)
  {
    && Pending(nodes, pend, sh, addr) && KidPlace(o, nodes[addr], pos, key)
    && key < KEY_LIMIT && value < PAGE_LIMIT
    && Ready(o, WithKid(o, nodes, addr, key, value, pos, pend), sh, root, addr)
    && root in sh && sh[addr].rank <= sh[root].rank
  }

  /** How many pages an insert at `addr` may need: none unless it splits. */
  ghost function Growth(sh: Shape, root: Page, addr: Page, n: Node): nat
    requires root in sh && addr in sh && sh[addr].rank <= sh[root].rank
  {
    if |n.cells| < ORDER - 1 then 0 else sh[root].rank - sh[addr].rank + 2
  }

  ghost function WithKid(o: Order, nodes: map<Page, Node>, addr: Page, key: Key, value: Page, pos: nat,
                         pend: map<Page, Node>): map<Page, Node>
    requires addr in nodes && KidPlace(o, nodes[addr], pos, key)
  {
    Virtual(nodes, pend, addr, InsertKid(nodes[addr], pos, key, value))
  }

  lemma InsertFacts(o: Order, n0: map<Page, Node>, addr: Page, key: Key, value: Page, root: Page, sh: Shape, pos: nat,
                    pend: map<Page, Node>)
    requires CanInsert(o, n0, addr, key, value, root, sh, pos, pend)
    ensures addr in n0 && Pending(n0, pend, sh, addr) && KidPlace(o, n0[addr], pos, key) && key < KEY_LIMIT
      && value < PAGE_LIMIT
    ensures var M := InsertKid(n0[addr], pos, key, value);
      && Virtual(n0, pend, addr, M) == WithKid(o, n0, addr, key, value, pos, pend)
      && Ready(o, Virtual(n0, pend, addr, M), sh, root, addr)
      && |M.cells| == |n0[addr].cells| + 1 <= ORDER == 4 && M.kind != TableLeaf
    ensures addr in sh && root in sh && sh[addr].rank <= sh[root].rank
    ensures Growth(sh, root, addr, n0[addr]) ==
      if |n0[addr].cells| == ORDER - 1 then sh[root].rank - sh[addr].rank + 2 else 0
  {}

  /** The last write of an insert: what was pending becomes real. */
  method WriteSettled(ghost o: Order, db: Db, node: MemNode, page: Page, ghost n0: map<Page, Node>,
                      ghost live0: set<Page>, ghost pend: map<Page, Node>, ghost W: map<Page, Node>, ghost sh: Shape,
                      ghost sh': Shape, ghost root: Page, ghost addr: Page) returns (ret: int)
    requires db.Valid() && node.Valid() && Plain(node.Val()) && node.kind != TableLeaf
    requires Settled(o, n0, live0, db.nodes, page, node.Val(), pend, W, sh, sh', root, addr)
    modifies db`cache, db`cacheSize, db`pages, db`nodes
    ensures ret == 0 && db.Valid() && pend.Keys <= db.nodes.Keys
    ensures Grown(o, W, sh, db.nodes + pend, sh', root, addr) && Framed(n0, live0, db.nodes, sh, sh')
  {
    SettledWrite(o, n0, live0, db.nodes, page, node.Val(), pend, W, sh, sh', root, addr);
    assert page in db.nodes;
    db.LiveBound(page);
    InteriorFits(node.Val(), page);
    hide *;
    ret := db.WriteNode(node, page);
  }

  /** Once `m` is written at `page` the graph is the grown tree. */
  ghost predicate Settled(o: Order, n0: map<Page, Node>, live0: set<Page>, n1: map<Page, Node>, page: Page, m: Node,
                          pend: map<Page, Node>, W: map<Page, Node>, sh: Shape, sh': Shape, root: Page, addr: Page)
  {
    && page in n1 && pend.Keys <= n1.Keys
    && Grown(o, W, sh, n1[page := m] + pend, sh', root, addr)
    && Framed(n0, live0, n1[page := m], sh, sh')
  }

  lemma SettledNow(o: Order, n0: map<Page, Node>, live0: set<Page>, pend: map<Page, Node>, W: map<Page, Node>,
                   sh: Shape, root: Page, addr: Page, M: Node)
    requires Pending(n0, pend, sh, addr) && W == Virtual(n0, pend, addr, M) && Ready(o, W, sh, root, addr)
      && |M.cells| < ORDER
    ensures Settled(o, n0, live0, n0, addr, M, pend, W, sh, sh, root, addr)
  {
    GrownNothing(o, W, sh, root, addr);
    assert W == n0[addr := M] + pend;
    assert sh.Keys - sh.Keys == {};
    hide Grown;
  }

  lemma SettledWrite(o: Order, n0: map<Page, Node>, live0: set<Page>, n1: map<Page, Node>, page: Page, m: Node,
                     pend: map<Page, Node>, W: map<Page, Node>, sh: Shape, sh': Shape, root: Page, addr: Page)
    requires Settled(o, n0, live0, n1, page, m, pend, W, sh, sh', root, addr)
    ensures page in n1 && pend.Keys <= n1[page := m].Keys
    ensures Grown(o, W, sh, n1[page := m] + pend, sh', root, addr) && Framed(n0, live0, n1[page := m], sh, sh')
  {}

  lemma BelowStart(o: Order, n0: map<Page, Node>, pend: map<Page, Node>, sh: Shape, root: Page, addr: Page, M: Node,
                   W: map<Page, Node>)
    requires Pending(n0, pend, sh, addr) && W == Virtual(n0, pend, addr, M) && Ready(o, W, sh, root, addr)
    requires forall p {:trigger p in n0} :: p in n0 ==> p < NO_PAGE
    ensures Tree(o, W, sh, root) && addr in sh && !IsLeaf(M) && M.kind != TableLeaf
    ensures M.parent == NO_PAGE <==> addr == root
    ensures M.parent != NO_PAGE ==> M.parent == sh[addr].par
    ensures sh.Keys <= n0.Keys
  {
    SpansPages(o, W, sh, root);
    assert W.Keys == n0.Keys && W[addr] == M;
    assert Local(o, W, sh, root, addr);
    assert sh[addr].rank >= 0;
    if addr != root { var i := ParentSlot(o, W, sh, root, addr); }
  }

  lemma BelowStep(o: Order, n0: map<Page, Node>, live0: set<Page>, pend: map<Page, Node>, sh: Shape, root: Page,
                  addr: Page, pos: nat, q: Page, M: Node, W: map<Page, Node>)
    returns (X: map<Page, Node>, s1: Shape)
    requires Pending(n0, pend, sh, addr) && W == Virtual(n0, pend, addr, M) && Ready(o, W, sh, root, addr)
    requires addr != root && |M.cells| == ORDER && Plain(M) && M.kind != TableLeaf && q < PAGE_LIMIT && n0.Keys <= live0
      && q !in live0
    requires Slot(o, W, sh, addr, sh[addr].par, pos)
    ensures Saturated(M) && addr in W && W[addr] == M && addr in sh
    ensures SplitLeft(M, q).parent == sh[addr].par && Plain(SplitLeft(M, q)) && SplitLeft(M, q).kind != TableLeaf
    ensures var a, n1, p1 := sh[addr].par, n0[q := SplitRight(M)], pend[addr := SplitLeft(M, q)];
      && CanInsert(o, n1, a, SplitKey(M), q, root, s1, pos, p1)
      && X == WithKid(o, n1, a, SplitKey(M), q, pos, p1)
      && CutEffect(W, sh, X, s1, root, addr, a, q)
      && s1[root].rank - s1[a].rank < sh[root].rank - sh[addr].rank
      && Growth(s1, root, a, n1[a]) <= sh[root].rank - sh[addr].rank + 1
    ensures s1.Keys == sh.Keys + {q} && q !in sh
  {
    s1 := NewShape(o, W, sh, addr, sh[addr].par, q, {addr});
    PassUp(o, n0, pend, sh, root, addr, pos, q, M, W);
    SplitPlain(M, q);
    SplitKinds(M, q);
    hide Ready, CutEffect, Plain, Slot;
    X := WithKid(o, n0[q := SplitRight(M)], sh[addr].par, SplitKey(M), q, pos, pend[addr := SplitLeft(M, q)]);
  }

  lemma BelowDone(o: Order, n0: map<Page, Node>, live0: set<Page>, pend: map<Page, Node>, sh: Shape, s1: Shape,
                  root: Page, addr: Page, a: Page, q: Page, M: Node, W: map<Page, Node>, X: map<Page, Node>,
                  n2: map<Page, Node>, s': Shape)
    requires Saturated(M) && Pending(n0, pend, sh, addr) && n0.Keys <= live0 && q !in live0
    requires CutEffect(W, sh, X, s1, root, addr, a, q) && addr in W && |W[addr].cells| == ORDER
    requires Grown(o, X, s1, n2 + pend[addr := SplitLeft(M, q)], s', root, a)
    requires Framed(n0[q := SplitRight(M)], live0 + {q}, n2, s1, s')
    requires s1.Keys == sh.Keys + {q} && q !in sh
    ensures Settled(o, n0, live0, n2, addr, SplitLeft(M, q), pend, W, sh, s', root, addr)
  {
    var left := SplitLeft(M, q);
    assert addr in n2;
    ThroughCut(o, W, sh, X, s1, root, addr, a, q, n2 + pend[addr := left], s');
    Settle(n2, pend, addr, left);
    assert s1.Keys <= s'.Keys;
    FramedUp(n0, live0, q, SplitRight(M), n2, addr, left, sh, s1, s');
    hide Grown;
  }

  /** After `split_internal_node` and `create_root`. */
  ghost predicate RootHalved(o: Order, n0: map<Page, Node>, live0: set<Page>, root: Page, q: Page, home: Page, M: Node,
                             n2: map<Page, Node>)
  {
    && Saturated(M) && Plain(M) && !IsLeaf(M)
    && q !in live0 && home !in live0 && q != home && n0.Keys <= live0
    && q < PAGE_LIMIT && home < PAGE_LIMIT && root < PAGE_LIMIT
    && n2 == Rehome(o, n0[q := SplitRight(M)], root, home, SplitLeft(M, q), q)
  }

  lemma RootHalvedNow(o: Order, n0: map<Page, Node>, live0: set<Page>, root: Page, q: Page, home: Page, M: Node,
                      n2: map<Page, Node>)
    requires Saturated(M) && Plain(M) && !IsLeaf(M)
    requires q !in live0 && home !in live0 + {q} && n0.Keys <= live0
    requires q < PAGE_LIMIT && home < PAGE_LIMIT && root < PAGE_LIMIT
    requires n2 == Rehome(o, n0[q := SplitRight(M)], root, home, SplitLeft(M, q), q)
    ensures RootHalved(o, n0, live0, root, q, home, M, n2)
  {}

  method HalveRoot(ghost o: Order, kind: Kind, db: Db, addr: Page, node: MemNode, ghost root: Page, ghost sh: Shape,
                   ghost pend: map<Page, Node>, ghost M: Node, ghost W: map<Page, Node>)
    returns (key: Key, q: Page, home: Page)
    requires db.Valid() && node.Valid() && node.Val() == M && node.nbKeys == ORDER && Plain(M) && node.parent == NO_PAGE
    requires Pending(db.nodes, pend, sh, addr) && W == Virtual(db.nodes, pend, addr, M) && Ready(o, W, sh, root, addr)
    requires kind == InteriorKind(o) && db.nbPages + 2 < NO_PAGE
    modifies db, node`nbKeys, node`parent, node.childAddrs
    ensures db.Valid() && node.Valid() && addr == root && node.parent == root && Saturated(M) && key == SplitKey(M)
    ensures node.Val() == SplitLeft(M, q).(parent := root)
    ensures RootHalved(o, old(db.nodes), old(db.live), root, q, home, M, db.nodes)
    ensures db.live == old(db.live) + {q, home} && db.nbPages <= old(db.nbPages) + 2
  {
    hide *;
    ghost var n0, live0 := db.nodes, db.live;
    db.AllBelow();
    Fields(node);
    BelowStart(o, n0, pend, sh, root, addr, M, W);
    RootKidsWritten(o, n0, pend, sh, root, addr, M, W);
    db.LiveBound(addr);
    key, q := SplitInternalNode(db, node);
    db.LiveBound(q);
    LeftReady(o, n0, sh, M, q);
    Fields(node);
    home := CreateRoot(o, kind, db, addr, node, q);
    db.LiveBound(home);
    Fields(node);
    RootHalvedNow(o, n0, live0, root, q, home, M, db.nodes);
  }

  lemma RootKidsWritten(o: Order, n0: map<Page, Node>, pend: map<Page, Node>, sh: Shape, root: Page, addr: Page,
                        M: Node, W: map<Page, Node>)
    requires Pending(n0, pend, sh, addr) && W == Virtual(n0, pend, addr, M) && Ready(o, W, sh, root, addr)
    requires addr == root && |M.cells| == ORDER
    ensures |M.kids| == ORDER + 1 && forall i {:trigger M.kids[i]} :: 0 <= i <= ORDER ==> M.kids[i] in n0
  {
    SpansPages(o, W, sh, root);
    assert W[root] == M && Local(o, W, sh, root, root);
    forall i | 0 <= i <= ORDER ensures M.kids[i] in n0 { assert KidOk(o, M, root, sh, i); }
  }

  lemma LeftReady(o: Order, n0: map<Page, Node>, sh: Shape, M: Node, q: Page)
    requires Plain(M) && Saturated(M) && !IsLeaf(M) && q < PAGE_LIMIT
    requires forall i {:trigger M.kids[i]} :: 0 <= i <= ORDER ==> M.kids[i] in n0
    ensures var left := SplitLeft(M, q);
      && Fits(left, PAGE_SIZE) && !IsLeaf(left) && left.parent == M.parent
      && (forall i :: 0 <= i < |left.kids| ==> left.kids[i] in n0)
  {
    SplitPlain(M, q);
    InteriorFits(SplitLeft(M, q), 1);
  }

  lemma RootRaise(o: Order, n0: map<Page, Node>, live0: set<Page>, pend: map<Page, Node>, sh: Shape, root: Page,
                  q: Page, home: Page, M: Node, W: map<Page, Node>, n2: map<Page, Node>)
    returns (X: map<Page, Node>, s2: Shape, p2: map<Page, Node>)
    requires Pending(n0, pend, sh, root) && W == Virtual(n0, pend, root, M) && Ready(o, W, sh, root, root)
    requires RootHalved(o, n0, live0, root, q, home, M, n2)
    ensures p2 == pend[home := SplitLeft(M, q).(parent := root)]
    ensures CanInsert(o, n2, root, SplitKey(M), q, root, s2, 0, p2) && X == WithKid(o, n2, root, SplitKey(M), q, 0, p2)
      && n2[root].cells == []
    ensures RootRaised(o, n0, sh, root, q, home, W, X, s2, n2) && Growth(s2, root, root, n2[root]) == 0
    ensures Plain(SplitLeft(M, q).(parent := root)) && SplitLeft(M, q).kind != TableLeaf
  {
    hide *;
    RootHalvedFacts(o, n0, live0, root, q, home, M, n2);
    VirtualKeys(n0, pend, sh, root, M, W);
    PassRoot(o, n0, pend, sh, root, q, home, M, W);
    SplitPlain(M, q);
    SplitKinds(M, q);
    ReadyPages(o, W, sh, root);
    s2 := RootShape(o, W, sh, root, home, q);
    p2 := pend[home := SplitLeft(M, q).(parent := root)];
    KidCount(o, home);
    X := Virtual(n2, p2, root, InsertKid(EmptyRoot(o, home), 0, SplitKey(M), q));
    RootCanInsert(o, n2, root, home, SplitKey(M), q, s2, p2);
    RootRaisedNow(o, n0, sh, root, q, home, M, W, X, s2, n2, p2);
  }

  lemma RootHalvedFacts(o: Order, n0: map<Page, Node>, live0: set<Page>, root: Page, q: Page, home: Page, M: Node,
                        n2: map<Page, Node>)
    requires RootHalved(o, n0, live0, root, q, home, M, n2)
    ensures Saturated(M) && Plain(M) && !IsLeaf(M) && M.kind != TableLeaf && |M.cells| == ORDER
    ensures q !in n0 && home !in n0 && q != home && q < PAGE_LIMIT && home < PAGE_LIMIT && root < PAGE_LIMIT
    ensures n2 == Rehome(o, n0[q := SplitRight(M)], root, home, SplitLeft(M, q), q)
    ensures |M.kids| == |M.cells| + 1
  {}

  lemma ReadyPages(o: Order, W: map<Page, Node>, sh: Shape, root: Page)
    requires Ready(o, W, sh, root, root)
    ensures sh.Keys <= W.Keys && root in sh && root in W
  {
    SpansPages(o, W, sh, root);
  }

  lemma KidCount(o: Order, home: Page)
    ensures |EmptyRoot(o, home).kids| == |EmptyRoot(o, home).cells| + 1 && |EmptyRoot(o, home).cells| == 0
  {}

  lemma VirtualKeys(n0: map<Page, Node>, pend: map<Page, Node>, sh: Shape, root: Page, M: Node, W: map<Page, Node>)
    requires W == Virtual(n0, pend, root, M) && Pending(n0, pend, sh, root)
    ensures root in n0 && W.Keys == n0.Keys && W[root] == M
  {}

  lemma RootRaisedNow(o: Order, n0: map<Page, Node>, sh: Shape, root: Page, q: Page, home: Page, M: Node,
                      W: map<Page, Node>, X: map<Page, Node>, s2: Shape, n2: map<Page, Node>, p2: map<Page, Node>)
    requires Saturated(M) && Grown(o, W, sh, X, s2, root, root)
      && X == Virtual(n2, p2, root, InsertKid(EmptyRoot(o, home), 0, SplitKey(M), q))
    requires s2.Keys == sh.Keys + {q, home} && q !in sh && home !in sh && sh.Keys <= n0.Keys && root in sh
    requires n2.Keys == n0.Keys + {q, home} && forall p {:trigger n2[p]} :: p in n0 && p !in sh ==> n2[p] == n0[p]
    requires n2[root] == EmptyRoot(o, home) && Plain(SplitLeft(M, q)) && root < PAGE_LIMIT && Pending(n2, p2, s2, root)
    ensures RootRaised(o, n0, sh, root, q, home, W, X, s2, n2) && Growth(s2, root, root, n2[root]) == 0
      && n2[root].cells == []
    ensures Plain(SplitLeft(M, q).(parent := root))
  {
    hide Grown, SplitLeft;
  }

  lemma RootCanInsert(o: Order, n2: map<Page, Node>, root: Page, home: Page, key: Key, q: Page, s2: Shape,
                      p2: map<Page, Node>)
    requires Pending(n2, p2, s2, root) && n2[root] == EmptyRoot(o, home) && key < KEY_LIMIT && q < PAGE_LIMIT
    requires Ready(o, Virtual(n2, p2, root, InsertKid(EmptyRoot(o, home), 0, key, q)), s2, root, root)
    ensures CanInsert(o, n2, root, key, q, root, s2, 0, p2)
    ensures WithKid(o, n2, root, key, q, 0, p2) == Virtual(n2, p2, root, InsertKid(EmptyRoot(o, home), 0, key, q))
  {
    hide Ready, Virtual;
  }

  ghost predicate RootRaised(o: Order, n0: map<Page, Node>, sh: Shape, root: Page, q: Page, home: Page,
                             W: map<Page, Node>, X: map<Page, Node>, s2: Shape, n2: map<Page, Node>)
  {
    && Grown(o, W, sh, X, s2, root, root) && root in X && |X[root].cells| == 1
    && s2.Keys == sh.Keys + {q, home} && q !in sh && home !in sh && sh.Keys <= n0.Keys
    && n2.Keys == n0.Keys + {q, home} && (forall p {:trigger n2[p]} :: p in n0 && p !in sh ==> n2[p] == n0[p])
  }

  lemma RootDone(o: Order, n0: map<Page, Node>, live0: set<Page>, pend: map<Page, Node>, sh: Shape, s2: Shape,
                 root: Page, q: Page, home: Page, M: Node, W: map<Page, Node>, X: map<Page, Node>, n2: map<Page, Node>,
                 n3: map<Page, Node>, s': Shape)
    requires RootHalved(o, n0, live0, root, q, home, M, n2) && RootRaised(o, n0, sh, root, q, home, W, X, s2, n2)
    requires Grown(o, X, s2, n3 + pend[home := SplitLeft(M, q).(parent := root)], s', root, root)
    requires Framed(n2, live0 + {q, home}, n3, s2, s')
    requires Pending(n0, pend, sh, root)
    ensures Settled(o, n0, live0, n3, home, SplitLeft(M, q).(parent := root), pend, W, sh, s', root, root)
  {
    var left := SplitLeft(M, q).(parent := root);
    assert s' == s2 && n3 + pend[home := left] == X;
    assert home in n3 && home !in pend;
    Settle(n3, pend, home, left);
    FramedRoot(n0, live0, q, home, n2, n3, left, sh, s2);
    hide Grown, Rehome, Pending;
  }
}
