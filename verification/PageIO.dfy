/** Writing a node into a page buffer and reading it back, pointer by pointer. */
module PageIO {
  import opened Nodes
  import opened Codec
  import opened MemNodes

  method Put(buf: array<Byte>, at: nat, bytes: seq<Byte>)
    requires at + |bytes| <= buf.Length
    modifies buf
    ensures buf[..] == old(buf[..at]) + bytes + old(buf[at + |bytes|..])
  {
    for i := 0 to |bytes|
      invariant buf[..at] == old(buf[..at]) && buf[at..at + i] == bytes[..i]
      invariant buf[at + i..] == old(buf[at + i..])
    {
      buf[at + i] := bytes[i];
    }
    assert buf[..] == buf[..at] + buf[at..at + |bytes|] + buf[at + |bytes|..];
  }

  /** A half-written page: what has been written, then zeros. */
  predicate Filled(buf: seq<Byte>, done: seq<Byte>) {
    |done| <= |buf| && buf == done + Zeros(|buf| - |done|)
  }

  /** Writing at the pointer extends what has been written. */
  method Extend(rpage: array<Byte>, ghost done: seq<Byte>, ptr: nat, bytes: seq<Byte>)
    requires Filled(rpage[..], done) && ptr == |done| && ptr + |bytes| <= rpage.Length
    modifies rpage
    ensures Filled(rpage[..], done + bytes)
  {
    ghost var was := rpage[..];
    Put(rpage, ptr, bytes);
    assert was[..ptr] == done;
    assert rpage[..] == done + bytes + Zeros(rpage.Length - |done + bytes|);
  }

  lemma {:induction false} RoomLeft(n: Node, i: nat)
    requires WellFormed(n) && i <= |n.cells|
    ensures CellOffset(n, i) + CELL_HEADER * (|n.cells| - i) <= Size(n)
    decreases |n.cells| - i
  {
    if i < |n.cells| {
      RoomLeft(n, i + 1);
      assert CellImages(n, i + 1) == CellImages(n, i) + CellImage(n, i);
    }
  }

  method PutHeader(rpage: array<Byte>, ghost n: Node, parent: Page, kind: Kind, nbCells: nat, right: Page)
    requires WellFormed(n) && NODE_HEADER <= rpage.Length && Filled(rpage[..], [])
    requires n.parent == parent && n.kind == kind && |n.cells| == nbCells && Right(n) == right
    modifies rpage
    ensures Filled(rpage[..], Header(n))
  {
    hide LE, Filled;
    Extend(rpage, [], 0, LE(parent, 8));
    Extend(rpage, [] + LE(parent, 8), 8, LE(KindCode(kind), 4));
    Extend(rpage, [] + LE(parent, 8) + LE(KindCode(kind), 4), 12, LE(nbCells % 0x1_0000, 2) + [0, 0]);
    Extend(rpage, [] + LE(parent, 8) + LE(KindCode(kind), 4) + (LE(nbCells % 0x1_0000, 2) + [0, 0]), 16, LE(right, 8));
    assert [] + LE(parent, 8) + LE(KindCode(kind), 4) + (LE(nbCells % 0x1_0000, 2) + [0, 0]) + LE(right, 8)
      == Header(n);
  }

  method PutCell(rpage: array<Byte>, ptr: nat, ghost done: seq<Byte>, key: Key, payload: seq<Byte>)
    requires |done| == ptr && ptr + CELL_HEADER + |payload| <= rpage.Length
    requires Filled(rpage[..], done)
    modifies rpage
    ensures Filled(rpage[..], done + (CellHeader(key, |payload|) + payload))
  {
    hide CellHeader, Filled;
    Extend(rpage, done, ptr, CellHeader(key, |payload|));
    Extend(rpage, done + CellHeader(key, |payload|), ptr + CELL_HEADER, payload);
    assert done + CellHeader(key, |payload|) + payload == done + (CellHeader(key, |payload|) + payload);
  }

  /** What has been written once `i` cells are down. */
  ghost function Upto(n: Node, i: nat): seq<Byte>
    requires WellFormed(n) && i <= |n.cells|
  {
    Header(n) + CellImages(n, i)
  }

  lemma UptoNext(n: Node, i: nat)
    requires WellFormed(n) && i < |n.cells|
    ensures Upto(n, i + 1) == Upto(n, i) + (CellHeader(n.cells[i].key, |Payload(n, i)|) + Payload(n, i))
    ensures |Upto(n, i)| == CellOffset(n, i)
    ensures |Upto(n, i + 1)| == CellOffset(n, i + 1) == CellOffset(n, i) + CELL_HEADER + |Payload(n, i)|
    ensures CellOffset(n, i + 1) + CELL_HEADER * (|n.cells| - i - 1) <= Size(n)
  {
    RoomLeft(n, i + 1);
    assert CellImages(n, i + 1) == CellImages(n, i) + CellImage(n, i);
    assert Header(n) + (CellImages(n, i) + CellImage(n, i)) == Header(n) + CellImages(n, i) + CellImage(n, i);
  }

  /** The page of a table leaf. A payload that fits leaves the overflow branch untaken. */
  method WriteTlNode(node: MemNode, cap: nat) returns (rpage: array<Byte>)
    requires node.Valid() && node.kind == TableLeaf && Lays(node.Val(), cap)
    ensures fresh(rpage) && rpage[..] == Image(node.Val(), cap)
  {
    ghost var n := node.Val();
    rpage := new Byte[cap](_ => 0);
    RoomLeft(n, 0);
    var available := cap - (NODE_HEADER + CELL_HEADER * node.nbKeys);
    PutHeader(rpage, n, node.parent, TableLeaf, node.nbKeys, node.childAddrs[0]);
    var ptr := NODE_HEADER;
    assert Upto(n, 0) == Header(n);
    for i := 0 to node.nbKeys
      invariant ptr == CellOffset(n, i) == |Upto(n, i)| <= cap
      invariant available == cap - ptr - CELL_HEADER * (node.nbKeys - i)
      invariant Filled(rpage[..], Upto(n, i))
    {
      UptoNext(n, i);
      hide Filled, CellHeader, Upto, CellOffset, Size, Lays;
      var value := node.keyVals[i].value;
      assert value == Payload(n, i) && node.keyVals[i].key == n.cells[i].key;
      assert |value| <= available;
      available := available - |value|;
      PutCell(rpage, ptr, Upto(n, i), node.keyVals[i].key, value);
      ptr := ptr + CELL_HEADER + |value|;
    }
  }

  /** The page of any other node: each cell is followed by the child to its left. */
  method WriteTiNode(node: MemNode, cap: nat) returns (rpage: array<Byte>)
    requires node.Valid() && node.kind != TableLeaf && Lays(node.Val(), cap)
    ensures fresh(rpage) && rpage[..] == Image(node.Val(), cap)
  {
    ghost var n := node.Val();
    rpage := new Byte[cap](_ => 0);
    RoomLeft(n, 0);
    PutHeader(rpage, n, node.parent, node.kind, node.nbKeys, node.childAddrs[node.nbKeys]);
    var ptr := NODE_HEADER;
    assert Upto(n, 0) == Header(n);
    for i := 0 to node.nbKeys
      invariant ptr == CellOffset(n, i) == |Upto(n, i)| <= cap
      invariant Filled(rpage[..], Upto(n, i))
    {
      UptoNext(n, i);
      hide Filled, CellHeader, Upto, CellOffset, Size, Lays;
      var child := LE(node.childAddrs[i], 8);
      assert child == Payload(n, i) && node.keyVals[i].key == n.cells[i].key;
      PutCell(rpage, ptr, Upto(n, i), node.keyVals[i].key, child);
      ptr := ptr + CELL_HEADER + 8;
    }
  }

  method WritePage(node: MemNode, cap: nat) returns (rpage: array<Byte>)
    requires node.Valid() && Lays(node.Val(), cap)
    ensures fresh(rpage) && rpage[..] == Image(node.Val(), cap)
  {
    hide Lays, Image;
    if node.kind == TableLeaf {
      rpage := WriteTlNode(node, cap);
    } else {
      rpage := WriteTiNode(node, cap);
    }
  }

  method ParseHeader(data: seq<Byte>, ghost n: Node, ghost cap: nat) returns (node: MemNode)
    requires Lays(n, cap) && data == Image(n, cap)
    ensures fresh(node) && fresh(node.keyVals) && fresh(node.childAddrs) && node.Valid()
    ensures node.parent == n.parent && node.kind == n.kind && node.nbKeys == |n.cells|
    ensures node.childAddrs[if n.kind == TableLeaf then 0 else |n.cells|] == Right(n)
  {
    HeaderRoundTrip(n, cap);
    hide Image, Right, FromLE;
    var code := FromLE(data[8..12]);
    var kind := if code == 13 then TableLeaf else if code == 5 then TableInterior else if code == 10 then IndexLeaf
      else IndexInterior;
    node := new MemNode(FromLE(data[0..8]), kind, FromLE(data[12..14]));
    node.childAddrs[if kind == TableLeaf then 0 else node.nbKeys] := FromLE(data[16..24]);
  }

  /** Reading the page that holds `n` gives what the page keeps of `n`. */
  method ParseNode(data: seq<Byte>, ghost n: Node, ghost cap: nat) returns (node: MemNode)
    requires Lays(n, cap) && data == Image(n, cap)
    ensures fresh(node) && fresh(node.keyVals) && fresh(node.childAddrs) && node.Valid()
    ensures node.Val() == Stored(n)
  {
    hide *;
    node := ParseHeader(data, n, cap);
    LaidOut(n, cap);
    Room(node);
    ghost var cells, kids := Stored(n).cells, n.kids;
    if node.kind == TableLeaf {
      ParseTlCells(data, node.keyVals, node.nbKeys, n, cap);
    } else {
      ParseTiCells(data, node.keyVals, node.childAddrs, node.nbKeys, n, cap);
      assert kids == kids[..node.nbKeys] + [kids[node.nbKeys]];
    }
    ValOf(node);
  }

  lemma LaidOut(n: Node, cap: nat)
    requires Lays(n, cap)
    ensures WellFormed(n) && |n.kids| == (if n.kind == TableLeaf then 1 else |n.cells| + 1)
      && Right(n) == n.kids[|n.kids| - 1]
    ensures Stored(n) == Node(n.parent, n.kind, Stored(n).cells, n.kids)
  {}

  lemma Room(node: MemNode)
    requires node.Valid()
    ensures node.nbKeys <= node.keyVals.Length && node.nbKeys < node.childAddrs.Length
  {}

  method ReadTlCell(data: seq<Byte>, ptr: nat, ghost n: Node, ghost cap: nat, ghost i: nat)
    returns (cell: Cell, next: nat)
    requires Lays(n, cap) && data == Image(n, cap) && n.kind == TableLeaf
    requires i < |n.cells| && ptr == CellOffset(n, i)
    ensures cell == Stored(n).cells[i] && next == CellOffset(n, i + 1) < PAGE_SIZE
  {
    CellFields(n, cap, i);
    assert Stored(n).cells[i] == Cell(n.cells[i].key % KEY_LIMIT, n.cells[i].value);
    hide Image, Lays, CellOffset, Size, LE, FromLE, Stored;
    var size := FromLE(data[ptr + 4..ptr + 8]);
    cell := Cell(FromLE(data[ptr..ptr + 4]), data[ptr + CELL_HEADER..ptr + CELL_HEADER + size]);
    next := ptr + CELL_HEADER + size;
  }

  method ReadTiCell(data: seq<Byte>, ptr: nat, ghost n: Node, ghost cap: nat, ghost i: nat)
    returns (cell: Cell, child: Page, next: nat)
    requires Lays(n, cap) && data == Image(n, cap) && n.kind != TableLeaf
    requires i < |n.cells| && ptr == CellOffset(n, i)
    ensures cell == Stored(n).cells[i] && child == n.kids[i] && next == CellOffset(n, i + 1) < PAGE_SIZE
  {
    CellFields(n, cap, i);
    ChildRoundTrip(n, cap, i);
    hide Image, CellOffset, Size, LE, FromLE;
    cell := Cell(FromLE(data[ptr..ptr + 4]), []);
    child := FromLE(data[ptr + CELL_HEADER..ptr + CELL_HEADER + 8]);
    next := ptr + CELL_HEADER + FromLE(data[ptr + 4..ptr + 8]);
  }

  method ParseTlCells(data: seq<Byte>, keyVals: array<Cell>, nb: nat, ghost n: Node, ghost cap: nat)
    requires Lays(n, cap) && data == Image(n, cap) && n.kind == TableLeaf
    requires nb == |n.cells| <= keyVals.Length
    modifies keyVals
    ensures keyVals[..nb] == Stored(n).cells
  {
    var ptr := NODE_HEADER;
    ghost var cells := Stored(n).cells;
    assert |cells| == nb;
    hide *;
    for i := 0 to nb
      invariant ptr == CellOffset(n, i)
      invariant |keyVals[..]| == keyVals.Length && keyVals[..i] == cells[..i]
    {
      keyVals[i], ptr := ReadTlCell(data, ptr, n, cap, i);
    }
  }

  method ParseTiCells(data: seq<Byte>, keyVals: array<Cell>, childAddrs: array<Page>, nb: nat, ghost n: Node,
                      ghost cap: nat)
    requires Lays(n, cap) && data == Image(n, cap) && n.kind != TableLeaf
    requires nb == |n.cells| <= keyVals.Length && nb < childAddrs.Length
    modifies keyVals, childAddrs
    ensures keyVals[..nb] == Stored(n).cells && childAddrs[..nb] == n.kids[..nb]
    ensures childAddrs[nb] == old(childAddrs[nb])
  {
    var ptr := NODE_HEADER;
    ghost var cells, kids := Stored(n).cells, n.kids;
    assert |cells| == nb && |kids| == nb + 1;
    hide *;
    for i := 0 to nb
      invariant ptr == CellOffset(n, i)
      invariant |keyVals[..]| == keyVals.Length && keyVals[..i] == cells[..i]
      invariant childAddrs[..i] == kids[..i] && childAddrs[nb] == old(childAddrs[nb])
    {
      keyVals[i], childAddrs[i], ptr := ReadTiCell(data, ptr, n, cap, i);
    }
  }

  lemma ChildRoundTrip(n: Node, cap: nat, i: nat)
    requires Lays(n, cap) && i < |n.cells| && n.kind != TableLeaf
    ensures |Payload(n, i)| == 8 && FromLE(Payload(n, i)) == n.kids[i]
  {
    FieldSizes();
    IntRoundTrip(n.kids[i], 8);
  }

  lemma HeaderRoundTrip(n: Node, cap: nat)
    requires Lays(n, cap)
    ensures var d := Image(n, cap);
      && FromLE(d[0..8]) == n.parent && FromLE(d[8..12]) == KindCode(n.kind)
      && FromLE(d[12..14]) == |n.cells| && FromLE(d[16..24]) == Right(n)
  {
    HeaderAt(n, cap);
    FieldSizes();
    IntRoundTrip(n.parent, 8);
    IntRoundTrip(KindCode(n.kind), 4);
    IntRoundTrip(|n.cells|, 2);
    IntRoundTrip(Right(n), 8);
  }

  lemma CellFields(n: Node, cap: nat, i: nat)
    requires Lays(n, cap) && i < |n.cells|
    ensures CellOffset(n, i + 1) == CellOffset(n, i) + CELL_HEADER + |Payload(n, i)| <= cap
    ensures CellOffset(n, i + 1) <= Size(n)
    ensures var d, p := Image(n, cap), CellOffset(n, i);
      && FromLE(d[p..p + 4]) == n.cells[i].key % KEY_LIMIT
      && FromLE(d[p + 4..p + 8]) == |Payload(n, i)|
      && d[p + CELL_HEADER..p + CELL_HEADER + |Payload(n, i)|] == Payload(n, i)
  {
    CellAt(n, cap, i);
    var d, p, c := Image(n, cap), CellOffset(n, i), CellImage(n, i);
    var s := d[p..CellOffset(n, i + 1)];
    var key, size, payload := n.cells[i].key % KEY_LIMIT, |Payload(n, i)|, Payload(n, i);
    FieldSizes();
    IntRoundTrip(key, 4);
    IntRoundTrip(size, 4);
    SubSlices(d, p, s, LE(key, 4), LE(size, 4), LE(0, 8), payload);
  }

  lemma SubSlices(d: seq<Byte>, p: nat, s: seq<Byte>, a: seq<Byte>, b: seq<Byte>, z: seq<Byte>, v: seq<Byte>)
    requires |a| == 4 && |b| == 4 && |z| == 8 && s == a + b + z + v
    requires p + |s| <= |d| && d[p..p + |s|] == s
    ensures d[p..p + 4] == a && d[p + 4..p + 8] == b && d[p + 16..p + 16 + |v|] == v
  {
    assert forall k :: 0 <= k < |s| ==> d[p + k] == s[k];
    assert d[p..p + 4] == s[..4] == a;
    assert d[p + 4..p + 8] == s[4..8] == b;
    assert d[p + 16..p + 16 + |v|] == s[16..] == v;
  }
}
