/** The in-memory node that cursors work on: fixed arrays with room for one cell too many. */
module MemNodes {
  import opened Nodes

  class MemNode {
    var parent: Page
    var kind: Kind
    var nbKeys: nat
    const keyVals: array<Cell>
    const childAddrs: array<Page>

    ghost predicate Valid()
      reads this
    {
      nbKeys <= ORDER && keyVals.Length == ORDER + 1 && childAddrs.Length == ORDER + 2
    }

    ghost function Val(): (n: Node)
      requires Valid()
      reads this, keyVals, childAddrs
    {
      Node(parent, kind, keyVals[..nbKeys], childAddrs[..if kind == TableLeaf then 1 else nbKeys + 1])
    }

    constructor (parent: Page, kind: Kind, nbKeys: nat)
      requires nbKeys <= ORDER
      ensures Valid() && fresh(keyVals) && fresh(childAddrs)
      ensures this.parent == parent && this.kind == kind && this.nbKeys == nbKeys
    {
      this.parent, this.kind, this.nbKeys := parent, kind, nbKeys;
      keyVals := new Cell[ORDER + 1];
      childAddrs := new Page[ORDER + 2];
    }
  }

  lemma Fields(m: MemNode)
    requires m.Valid()
    ensures m.Val().parent == m.parent && m.Val().kind == m.kind && |m.Val().cells| == m.nbKeys
  {}

  lemma ValOf(m: MemNode)
    requires m.Valid()
    ensures m.nbKeys <= m.keyVals.Length && m.nbKeys + 1 <= m.childAddrs.Length && 1 <= m.childAddrs.Length
    ensures m.Val() == Node(m.parent, m.kind, m.keyVals[..m.nbKeys],
      m.childAddrs[..if m.kind == TableLeaf then 1 else m.nbKeys + 1])
  {}

  lemma CellsOf(m: MemNode)
    requires m.Valid()
    ensures m.nbKeys <= m.keyVals.Length && m.Val().cells == m.keyVals[..m.nbKeys]
  {}

  /** Copies a stored node into fresh memory, field by field. */
  method FromNode(n: Node) returns (m: MemNode)
    requires |n.cells| <= ORDER && |n.kids| == if n.kind == TableLeaf then 1 else |n.cells| + 1
    ensures fresh(m) && fresh(m.keyVals) && fresh(m.childAddrs) && m.Valid()
    ensures m.Val() == n
  {
    m := new MemNode(n.parent, n.kind, |n.cells|);
    for i := 0 to |n.kids|
      invariant m.Valid() && m.parent == n.parent && m.kind == n.kind && m.nbKeys == |n.cells|
      invariant m.childAddrs[..i] == n.kids[..i]
    {
      m.childAddrs[i] := n.kids[i];
    }
    for i := 0 to |n.cells|
      invariant m.Valid() && m.parent == n.parent && m.kind == n.kind && m.nbKeys == |n.cells|
      invariant m.childAddrs[..|n.kids|] == n.kids && m.keyVals[..i] == n.cells[..i]
    {
      m.keyVals[i] := n.cells[i];
    }
  }

  method ToNode(m: MemNode) returns (n: Node)
    requires m.Valid()
    ensures n == m.Val()
  {
    n := Node(m.parent, m.kind, m.keyVals[..m.nbKeys], m.childAddrs[..if m.kind == TableLeaf then 1 else m.nbKeys + 1]);
  }

  method InsertInArr<T>(arr: array<T>, size: nat, val: T, offset: nat)
    requires offset <= size < arr.Length
    modifies arr
    ensures arr[..size + 1] == old(arr[..offset] + [val] + arr[offset..size])
    ensures arr[size + 1..] == old(arr[size + 1..])
  {
    var i := size;
    while i > offset
      invariant offset <= i <= size
      invariant arr[..i] == old(arr[..i])
      invariant arr[i + 1..size + 1] == old(arr[i..size])
      invariant arr[size + 1..] == old(arr[size + 1..])
    {
      arr[i] := arr[i - 1];
      i := i - 1;
    }
    arr[offset] := val;
  }
}
