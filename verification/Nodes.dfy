/** The values that the page trees are made of: what one page holds once decoded. */
module Nodes {
  type Page = nat
  type Key = nat
  type Byte = b: int | 0 <= b < 256 witness 0

  /** `(Page)-1`: no parent, or no right neighbour. */
  const NO_PAGE: Page := 0xFFFF_FFFF_FFFF_FFFF
  const ORDER: nat := 4

  datatype Kind = TableLeaf | TableInterior | IndexLeaf | IndexInterior
  datatype Cell = Cell(key: Key, value: seq<Byte>)

  /** A table leaf has one link, its right neighbour; every other node has one more link than it has cells. */
  datatype Node = Node(parent: Page, kind: Kind, cells: seq<Cell>, kids: seq<Page>)

  predicate IsLeaf(n: Node) {
    n.kind == TableLeaf || n.kind == IndexLeaf
  }

  predicate WellFormed(n: Node) {
    && |n.kids| == (if n.kind == TableLeaf then 1 else |n.cells| + 1)
    && (n.kind != TableLeaf ==> forall i :: 0 <= i < |n.cells| ==> n.cells[i].value == [])
  }

  /** Two nodes that agree on everything except the parent link. */
  predicate SameButParent(m: Node, n: Node) {
    m.kind == n.kind && m.cells == n.cells && m.kids == n.kids
  }

  function InsertCell(n: Node, pos: nat, c: Cell): Node
    requires pos <= |n.cells|
  {
    n.(cells := n.cells[..pos] + [c] + n.cells[pos..])
  }

  /** A separator at `pos` and the page to its right. */
  function InsertKid(n: Node, pos: nat, k: Key, q: Page): Node
    requires pos <= |n.cells| && |n.kids| == |n.cells| + 1
  {
    n.(cells := n.cells[..pos] + [Cell(k, [])] + n.cells[pos..],
       kids := n.kids[..pos + 1] + [q] + n.kids[pos + 1..])
  }

  /** A saturated node is cut at cell ORDER/2. Only a table leaf keeps the cell whose key moves up. */
  predicate Saturated(n: Node) {
    |n.cells| == ORDER && |n.kids| == (if n.kind == TableLeaf then 1 else ORDER + 1)
  }

  function SplitLeft(n: Node, q: Page): Node
    requires Saturated(n)
  {
    n.(cells := n.cells[..2], kids := if n.kind == TableLeaf then [q] else n.kids[..3])
  }

  function SplitRight(n: Node): Node
    requires Saturated(n)
  {
    if n.kind == TableLeaf then n.(cells := n.cells[2..], kids := [NO_PAGE])
    else n.(cells := n.cells[3..], kids := n.kids[3..])
  }

  function SplitKey(n: Node): Key
    requires Saturated(n)
  {
    n.cells[2].key
  }
}
