/** The paged B+-tree of rows: inserting a separator, and splitting upwards along stored parent links. */
module TableTree {
  import opened Nodes
  import opened Codec
  import opened MemNodes
  import opened Disk
  import opened SearchTree
  import opened Cascade
  import opened PageTree

  /** The first cell whose key is not below `key`. */
  method OffsetFor(node: MemNode, key: Key) returns (offset: nat)
    requires node.Valid()
    ensures offset <= node.nbKeys
    ensures forall j :: 0 <= j < offset ==> node.keyVals[j].key < key
    ensures offset < node.nbKeys ==> key <= node.keyVals[offset].key
  {
    offset := 0;
    while offset < node.nbKeys && key > node.keyVals[offset].key
      invariant offset <= node.nbKeys
      invariant forall j :: 0 <= j < offset ==> node.keyVals[j].key < key
    {
      offset := offset + 1;
    }
  }

  method SplitOffLeaf(node: MemNode) returns (right: MemNode, key: Key)
    requires node.Valid() && node.nbKeys == ORDER && node.kind == TableLeaf
    modifies node`nbKeys
    ensures fresh(right) && fresh(right.keyVals) && fresh(right.childAddrs) && node.Valid() && right.Valid()
    ensures Saturated(old(node.Val())) && key == SplitKey(old(node.Val())) && right.Val() == SplitRight(old(node.Val()))
    ensures node.kind == TableLeaf && node.Val() == old(node.Val()).(cells := old(node.Val()).cells[..2])
  {
    right := new MemNode(node.parent, TableLeaf, ORDER - ORDER / 2);
    right.childAddrs[0] := NO_PAGE;
    key := node.keyVals[ORDER / 2].key;
    for i := ORDER / 2 to ORDER
      modifies right.keyVals
      invariant forall j :: ORDER / 2 <= j < i ==> right.keyVals[j - ORDER / 2] == node.keyVals[j]
    {
      right.keyVals[i - ORDER / 2] := node.keyVals[i];
    }
    node.nbKeys := ORDER / 2;
  }

  /** The right half of a saturated leaf goes to a new page, which becomes its right neighbour. */
  method SplitLeafNode(db: Db, node: MemNode) returns (key: Key, page: Page)
    requires db.Valid() && db.nbPages + 1 < NO_PAGE
    requires node.Valid() && node.nbKeys == ORDER && node.kind == TableLeaf
    requires Fits(SplitRight(node.Val()), PAGE_SIZE)
    modifies db, node`nbKeys, node.childAddrs
    ensures db.Valid() && node.Valid() && Saturated(old(node.Val()))
    ensures page !in old(db.live) && db.live == old(db.live) + {page} && page < db.nbPages <= old(db.nbPages) + 1
    ensures key == SplitKey(old(node.Val())) && node.Val() == SplitLeft(old(node.Val()), page)
    ensures db.nodes == old(db.nodes)[page := SplitRight(old(node.Val()))]
  {
    hide *;
    ghost var n := node.Val();
    var right;
    right, key := SplitOffLeaf(node);
    page := db.CreateAddr();
    CapOf(page);
    var ret := db.WriteNode(right, page);
    LeafLink(node);
    node.childAddrs[0] := page;
    LeafLinked(node, n, page);
  }

  lemma LeafLink(node: MemNode)
    requires node.Valid()
    ensures node.childAddrs.Length > 0 && node.nbKeys <= node.keyVals.Length && node.Val().parent == node.parent
    ensures node.Val().cells == node.keyVals[..node.nbKeys] && node.Val().kind == node.kind
  {}

  lemma LeafLinked(node: MemNode, n: Node, page: Page)
    requires node.Valid() && node.kind == TableLeaf == n.kind && Saturated(n) && node.childAddrs.Length > 0
      && node.childAddrs[0] == page
    requires node.nbKeys <= node.keyVals.Length && node.keyVals[..node.nbKeys] == n.cells[..2]
      && node.parent == n.parent
    ensures node.Val() == SplitLeft(n, page)
  {}

  /** How many of a node's keys are below `key`, up to the first that is not. */
  function Place(n: Node, key: Key): (pos: nat)
    ensures pos <= |n.cells|
  {
    PlaceFrom(n, key, 0)
  }

  function PlaceFrom(n: Node, key: Key, from: nat): (pos: nat)
    requires from <= |n.cells|
    ensures from <= pos <= |n.cells|
    ensures forall j :: from <= j < pos ==> n.cells[j].key < key
    ensures pos < |n.cells| ==> key <= n.cells[pos].key
    decreases |n.cells| - from
  {
    if from < |n.cells| && n.cells[from].key < key then PlaceFrom(n, key, from + 1) else from
  }

  lemma PlaceIs(n: Node, key: Key, offset: nat)
    requires offset <= |n.cells|
    requires forall j :: 0 <= j < offset ==> n.cells[j].key < key
    requires offset < |n.cells| ==> key <= n.cells[offset].key
    ensures offset == Place(n, key)
  {
    var p := Place(n, key);
  }

  lemma PosIsPlace(n: Node, pos: nat, key: Key)
    requires KidPlace(Natural, n, pos, key)
    ensures pos == Place(n, key) && n.kind == TableInterior && |n.cells| < ORDER && |n.kids| == |n.cells| + 1
  {
    assert forall j {:trigger n.cells[j]} :: 0 <= j < pos ==> K(Natural, n, j) < key;
    PlaceIs(n, key, pos);
  }

  /** An interior node that can take one more separator without being split. */
  predicate HasRoom(n: Node) {
    n.kind == TableInterior && |n.kids| == |n.cells| + 1 && |n.cells| < ORDER - 1
  }

  function WithSeparator(n: Node, key: Key, q: Page): Node
    requires |n.kids| == |n.cells| + 1
  {
    InsertKid(n, Place(n, key), key, q)
  }

  /** The node with the separator added, as `insert_internal` has it in memory. */
  method ReadWithKid(db: Db, addr: Page, key: Key, value: Page) returns (node: MemNode)
    requires db.Valid() && addr in db.nodes && key < KEY_LIMIT && value < PAGE_LIMIT
    requires var n := db.nodes[addr]; n.kind == TableInterior && |n.cells| < ORDER && |n.kids| == |n.cells| + 1
    modifies db`cache, db`cacheSize
    ensures db.Valid() && fresh(node) && fresh(node.keyVals) && fresh(node.childAddrs) && node.Valid()
    ensures node.Val() == WithSeparator(db.nodes[addr], key, value) && Plain(node.Val())
  {
    hide *;
    ghost var n := db.nodes[addr];
    db.NodeOk(addr);
    FitsPlain(n, Cap(addr));
    node := db.ReadNode(addr);
    KidsOf(node);
    var offset := OffsetFor(node, key);
    PlaceIs(n, key, offset);
    InsertKidPlain(Natural, n, offset, key, value);
    SeparatorIs(n, key, value);
    AddKid(node, offset, key, value);
  }

  lemma SeparatorIs(n: Node, key: Key, q: Page)
    requires |n.kids| == |n.cells| + 1
    ensures WithSeparator(n, key, q) == InsertKid(n, Place(n, key), key, q)
  {}

  lemma KidsOf(node: MemNode)
    requires node.Valid()
    ensures node.nbKeys <= node.keyVals.Length && node.nbKeys == |node.Val().cells| && node.kind == node.Val().kind
    ensures forall j {:trigger node.keyVals[j]} {:trigger node.Val().cells[j]} :: 0 <= j < node.nbKeys ==>
      node.keyVals[j] == node.Val().cells[j]
  {}

  /** How far below the root a page is, by rank. */
  ghost function Depth(sh: Shape, root: Page, addr: Page): nat {
    if addr in sh && root in sh && sh[addr].rank <= sh[root].rank then sh[root].rank - sh[addr].rank else 0
  }

  lemma NoGrowth(n: map<Page, Node>, addr: Page, key: Key, value: Page, root: Page, sh: Shape, pos: nat,
                 pend: map<Page, Node>)
    requires addr in n && HasRoom(n[addr])
    ensures CanInsert(Natural, n, addr, key, value, root, sh, pos, pend) ==> Growth(sh, root, addr, n[addr]) == 0
  {}

  lemma DepthIs(sh: Shape, root: Page, addr: Page)
    ensures addr in sh && root in sh && sh[addr].rank <= sh[root].rank ==>
      Depth(sh, root, addr) == sh[root].rank - sh[addr].rank
  {}

  /** Inserts a separator and the page to its right into the interior node at `addr`, splitting upwards. A node with
      room takes the separator and that is all, wherever the call came from. `pend` holds the pages below whose contents
      the callers will write when this call returns. */
  method InsertInternal(db: Db, addr: Page, key: Key, value: Page, ghost root: Page, ghost sh: Shape, ghost pos: nat,
                        ghost pend: map<Page, Node>)
    returns (ret: int, ghost sh': Shape)
    requires db.Valid() && addr in db.nodes && key < KEY_LIMIT && value < PAGE_LIMIT
    requires HasRoom(db.nodes[addr]) || CanInsert(Natural, db.nodes, addr, key, value, root, sh, pos, pend)
    requires CanInsert(Natural, db.nodes, addr, key, value, root, sh, pos, pend) ==>
      db.nbPages + Growth(sh, root, addr, db.nodes[addr]) < NO_PAGE
    modifies db
    ensures ret == 0 && db.Valid() && old(db.live) <= db.live
    ensures old(CanInsert(Natural, db.nodes, addr, key, value, root, sh, pos, pend)) ==>
      && pend.Keys <= db.nodes.Keys
      && Grown(Natural, old(WithKid(Natural, db.nodes, addr, key, value, pos, pend)), sh, db.nodes + pend, sh', root,
           addr)
      && Framed(old(db.nodes), old(db.live), db.nodes, sh, sh')
      && db.nbPages <= old(db.nbPages + Growth(sh, root, addr, db.nodes[addr]))
    ensures old(HasRoom(db.nodes[addr])) ==>
      db.nodes == old(db.nodes[addr := WithSeparator(db.nodes[addr], key, value)]) && db.live == old(db.live)
        && db.nbPages == old(db.nbPages)
    decreases Depth(sh, root, addr), if addr in db.nodes then |db.nodes[addr].cells| else 0, 1
  {
    hide *;
    ghost var n0, live0 := db.nodes, db.live;
    ghost var safe := CanInsert(Natural, n0, addr, key, value, root, sh, pos, pend);
    InternalFacts(n0, addr, key, value, root, sh, pos, pend);
    ghost var M := WithSeparator(n0[addr], key, value);
    ghost var W := if safe then WithKid(Natural, n0, addr, key, value, pos, pend) else n0;
    var page := addr;
    var node := ReadWithKid(db, addr, key, value);
    Fields(node);
    if node.nbKeys >= ORDER {
      if node.parent == NO_PAGE {
        page, sh' := SplitRoot(db, addr, node, root, sh, pend, M, W);
      } else {
        sh' := SplitBelow(db, addr, node, root, sh, pend, M, W);
      }
    } else {
      sh' := sh;
      if safe { SettledNow(Natural, n0, live0, pend, W, sh, root, addr, M); }
    }
    if safe { SettledWrite(Natural, n0, live0, db.nodes, page, node.Val(), pend, W, sh, sh', root, addr); }
    Fields(node);
    db.LiveBound(page);
    InteriorFits(node.Val(), page);
    ret := db.WriteNode(node, page);
  }

  lemma InternalFacts(n0: map<Page, Node>, addr: Page, key: Key, value: Page, root: Page, sh: Shape, pos: nat,
                      pend: map<Page, Node>)
    requires addr in n0 && (HasRoom(n0[addr]) || CanInsert(Natural, n0, addr, key, value, root, sh, pos, pend))
    ensures var n := n0[addr]; n.kind == TableInterior && |n.cells| < ORDER == 4 && |n.kids| == |n.cells| + 1
    ensures var M := WithSeparator(n0[addr], key, value); |M.cells| == |n0[addr].cells| + 1 && M.kind != TableLeaf
    ensures HasRoom(n0[addr]) ==> |n0[addr].cells| < ORDER - 1
    ensures CanInsert(Natural, n0, addr, key, value, root, sh, pos, pend) ==>
      var M := WithSeparator(n0[addr], key, value);
      && Pending(n0, pend, sh, addr) && KidPlace(Natural, n0[addr], pos, key) && addr in sh && root in sh
      && sh[addr].rank <= sh[root].rank
      && WithKid(Natural, n0, addr, key, value, pos, pend) == Virtual(n0, pend, addr, M)
      && Ready(Natural, Virtual(n0, pend, addr, M), sh, root, addr)
      && Depth(sh, root, addr) == sh[root].rank - sh[addr].rank
      && Growth(sh, root, addr, n0[addr]) ==
           if |n0[addr].cells| == ORDER - 1 then sh[root].rank - sh[addr].rank + 2 else 0
  {
    if CanInsert(Natural, n0, addr, key, value, root, sh, pos, pend) {
      InsertFacts(Natural, n0, addr, key, value, root, sh, pos, pend);
      PosIsPlace(n0[addr], pos, key);
    }
    hide Ready, Pending, Virtual;
  }

  /** Splitting a page below the root: its parent takes the separator. */
  method SplitBelow(db: Db, addr: Page, node: MemNode, ghost root: Page, ghost sh: Shape, ghost pend: map<Page, Node>,
                    ghost M: Node, ghost W: map<Page, Node>)
    returns (ghost sh': Shape)
    requires db.Valid() && node.Valid() && node.Val() == M && node.nbKeys == ORDER && Plain(M) && node.parent != NO_PAGE
    requires Pending(db.nodes, pend, sh, addr) && W == Virtual(db.nodes, pend, addr, M)
      && Ready(Natural, W, sh, root, addr)
    requires root in sh && sh[addr].rank <= sh[root].rank && db.nbPages + (sh[root].rank - sh[addr].rank) + 2 < NO_PAGE
    modifies db, node`nbKeys, node.childAddrs
    ensures db.Valid() && node.Valid() && old(db.live) <= db.live && Plain(node.Val()) && node.kind != TableLeaf
    ensures Settled(Natural, old(db.nodes), old(db.live), db.nodes, addr, node.Val(), pend, W, sh, sh', root, addr)
    ensures db.nbPages <= old(db.nbPages) + (sh[root].rank - sh[addr].rank) + 2
    decreases Depth(sh, root, addr), 3, 0
  {
    hide *;
    ghost var n0, live0 := db.nodes, db.live;
    db.AllBelow();
    Fields(node);
    BelowStart(Natural, n0, pend, sh, root, addr, M, W);
    ghost var pos2 := ParentSlot(Natural, W, sh, root, addr);
    var key, q := SplitInternalNode(db, node);
    db.LiveBound(q);
    ghost var X, s1 := BelowStep(Natural, n0, live0, pend, sh, root, addr, pos2, q, M, W);
    Fields(node);
    ghost var p1 := pend[addr := SplitLeft(M, q)];
    InsertFacts(Natural, db.nodes, node.parent, key, q, root, s1, pos2, p1);
    DepthIs(sh, root, addr);
    DepthIs(s1, root, node.parent);
    var ret;
    ret, sh' := InsertInternal(db, node.parent, key, q, root, s1, pos2, p1);
    BelowDone(Natural, n0, live0, pend, sh, s1, root, addr, sh[addr].par, q, M, W, X, db.nodes, sh');
  }

  /** Splitting the root page: its left half moves away, and the emptied root takes the separator. */
  method SplitRoot(db: Db, addr: Page, node: MemNode, ghost root: Page, ghost sh: Shape, ghost pend: map<Page, Node>,
                   ghost M: Node, ghost W: map<Page, Node>)
    returns (page: Page, ghost sh': Shape)
    requires db.Valid() && node.Valid() && node.Val() == M && node.nbKeys == ORDER && Plain(M) && node.parent == NO_PAGE
    requires Pending(db.nodes, pend, sh, addr) && W == Virtual(db.nodes, pend, addr, M)
      && Ready(Natural, W, sh, root, addr)
    requires root in sh && sh[addr].rank <= sh[root].rank && db.nbPages + (sh[root].rank - sh[addr].rank) + 2 < NO_PAGE
    modifies db, node`nbKeys, node`parent, node.childAddrs
    ensures db.Valid() && node.Valid() && old(db.live) <= db.live && Plain(node.Val()) && node.kind != TableLeaf
    ensures Settled(Natural, old(db.nodes), old(db.live), db.nodes, page, node.Val(), pend, W, sh, sh', root, addr)
    ensures db.nbPages <= old(db.nbPages) + (sh[root].rank - sh[addr].rank) + 2
    decreases Depth(sh, root, addr), 3, 0
  {
    hide *;
    TableRootKind();
    ghost var n0, live0 := db.nodes, db.live;
    var key, q;
    key, q, page := HalveRoot(Natural, TableInterior, db, addr, node, root, sh, pend, M, W);
    ghost var n2 := db.nodes;
    ghost var X, s2, p2 := RootRaise(Natural, n0, live0, pend, sh, root, q, page, M, W, n2);
    InsertFacts(Natural, db.nodes, node.parent, key, q, root, s2, 0, p2);
    DepthIs(sh, root, addr);
    DepthIs(s2, root, node.parent);
    var ret;
    ret, sh' := InsertInternal(db, node.parent, key, q, root, s2, 0, p2);
    RootDone(Natural, n0, live0, pend, sh, s2, root, q, page, M, W, X, n2, db.nodes, sh');
    Fields(node);
  }
}
