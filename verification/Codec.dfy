/** How a node is laid out in a page, and that reading the layout gives the node back. */
module Codec {
  import opened Nodes

  const PAGE_SIZE: nat := 512
  const DB_HEADER: nat := 56
  const NODE_HEADER: nat := 24
  const CELL_HEADER: nat := 16
  const KEY_LIMIT: nat := 0x1_0000_0000
  const PAGE_LIMIT: nat := 0x1_0000_0000_0000_0000

  // ---------------------------------------------------------------- little-endian integers

  function Pow256(w: nat): nat {
    if w == 0 then 1 else 256 * Pow256(w - 1)
  }

  function LE(n: nat, w: nat): (s: seq<Byte>)
    ensures |s| == w
  {
    if w == 0 then [] else [n % 256] + LE(n / 256, w - 1)
  }

  function FromLE(s: seq<Byte>): nat {
    if s == [] then 0 else s[0] + 256 * FromLE(s[1..])
  }

  /** A field of `w` bytes gives back every number below 256^w, and only those. */
  lemma {:induction false} IntRoundTrip(n: nat, w: nat)
    ensures FromLE(LE(n, w)) == n <==> n < Pow256(w)
  {
    if w > 0 {
      assert LE(n, w)[1..] == LE(n / 256, w - 1);
      IntRoundTrip(n / 256, w - 1);
    }
  }

  lemma FieldSizes()
    ensures Pow256(2) == 0x1_0000 && Pow256(4) == KEY_LIMIT && Pow256(8) == PAGE_LIMIT
  {
    assert Pow256(2) == 256 * Pow256(1) && Pow256(3) == 256 * Pow256(2) && Pow256(4) == 256 * Pow256(3);
    assert Pow256(5) == 256 * Pow256(4) && Pow256(6) == 256 * Pow256(5) && Pow256(7) == 256 * Pow256(6);
  }

  // ---------------------------------------------------------------- nodes

  /** Page 0 also carries the database header. */
  function Cap(addr: Page): nat {
    if addr == 0 then PAGE_SIZE - DB_HEADER else PAGE_SIZE
  }

  function KindCode(k: Kind): nat {
    match k
    case TableLeaf => 13
    case TableInterior => 5
    case IndexLeaf => 10
    case IndexInterior => 2
  }

  function Payload(n: Node, i: nat): seq<Byte>
    requires WellFormed(n) && i < |n.cells|
  {
    if n.kind == TableLeaf then n.cells[i].value else LE(n.kids[i], 8)
  }

  function Right(n: Node): Page
    requires WellFormed(n)
  {
    n.kids[|n.kids| - 1]
  }

  function Header(n: Node): (s: seq<Byte>)
    requires WellFormed(n)
    ensures |s| == NODE_HEADER
  {
    LE(n.parent, 8) + LE(KindCode(n.kind), 4) + LE(|n.cells| % 0x1_0000, 2) + [0, 0] + LE(Right(n), 8)
  }

  /** The stored key is an unsigned int: a wider key is truncated. The overflow link is 0. */
  function CellHeader(key: Key, size: nat): (s: seq<Byte>)
    ensures |s| == CELL_HEADER
  {
    LE(key % KEY_LIMIT, 4) + LE(size, 4) + LE(0, 8)
  }

  function CellImage(n: Node, i: nat): seq<Byte>
    requires WellFormed(n) && i < |n.cells|
  {
    CellHeader(n.cells[i].key, |Payload(n, i)|) + Payload(n, i)
  }

  function CellImages(n: Node, i: nat): seq<Byte>
    requires WellFormed(n) && i <= |n.cells|
  {
    if i == 0 then [] else CellImages(n, i - 1) + CellImage(n, i - 1)
  }

  function Size(n: Node): nat
    requires WellFormed(n)
  {
    NODE_HEADER + |CellImages(n, |n.cells|)|
  }

  function Zeros(k: nat): (s: seq<Byte>)
    ensures |s| == k
  {
    seq(k, i => 0)
  }

  /** What a page can lay out: real page numbers, and payloads that do not spill. */
  predicate Lays(n: Node, cap: nat) {
    && WellFormed(n) && |n.cells| <= ORDER
    && n.parent < PAGE_LIMIT
    && (forall i :: 0 <= i < |n.kids| ==> n.kids[i] < PAGE_LIMIT)
    && Size(n) <= cap && Size(n) < PAGE_SIZE
  }

  predicate ShortKeys(n: Node) {
    forall i {:trigger n.cells[i]} :: 0 <= i < |n.cells| ==> n.cells[i].key < KEY_LIMIT
  }

  predicate Fits(n: Node, cap: nat) {
    Lays(n, cap) && ShortKeys(n)
  }

  function Image(n: Node, cap: nat): (s: seq<Byte>)
    requires Lays(n, cap)
    ensures |s| == cap
  {
    Header(n) + CellImages(n, |n.cells|) + Zeros(cap - Size(n))
  }

  /** What a page keeps of a node. */
  function Stored(n: Node): Node {
    n.(cells := seq(|n.cells|, i requires 0 <= i < |n.cells| => Cell(n.cells[i].key % KEY_LIMIT, n.cells[i].value)))
  }

  lemma StoredExactly(n: Node)
    ensures Stored(n) == n <==> ShortKeys(n)
  {
    if ShortKeys(n) {
      assert Stored(n).cells == n.cells;
    } else {
      var i :| 0 <= i < |n.cells| && n.cells[i].key >= KEY_LIMIT;
      assert Stored(n).cells[i].key < KEY_LIMIT;
    }
  }

  // ---------------------------------------------------------------- where the fields are

  function CellOffset(n: Node, i: nat): nat
    requires WellFormed(n) && i <= |n.cells|
  {
    NODE_HEADER + |CellImages(n, i)|
  }

  lemma {:induction false} CellImagesPrefix(n: Node, i: nat, j: nat)
    requires WellFormed(n) && i <= j <= |n.cells|
    ensures CellImages(n, i) <= CellImages(n, j)
  {
    hide CellImage;
    if i < j {
      CellImagesPrefix(n, i, j - 1);
      LongerPrefix(CellImages(n, i), CellImages(n, j - 1), CellImage(n, j - 1));
    }
  }

  lemma LongerPrefix(a: seq<Byte>, b: seq<Byte>, c: seq<Byte>)
    requires a <= b
    ensures a <= b + c
  {}

  lemma CellAt(n: Node, cap: nat, i: nat)
    requires Lays(n, cap) && i < |n.cells|
    ensures CellOffset(n, i + 1) == CellOffset(n, i) + CELL_HEADER + |Payload(n, i)| <= Size(n)
    ensures Image(n, cap)[CellOffset(n, i)..CellOffset(n, i + 1)] == CellImage(n, i)
  {
    hide CellImage, CellHeader, Header, Payload, Zeros;
    var all := CellImages(n, |n.cells|);
    CellImagesPrefix(n, i + 1, |n.cells|);
    CellImageSize(n, i);
    MiddleSlice(Header(n), all, Zeros(cap - Size(n)), |CellImages(n, i)|, |CellImages(n, i + 1)|);
    LastSlice(CellImages(n, i), CellImage(n, i), all);
  }

  lemma CellImageSize(n: Node, i: nat)
    requires WellFormed(n) && i < |n.cells|
    ensures |CellImage(n, i)| == CELL_HEADER + |Payload(n, i)|
  {}

  lemma MiddleSlice(h: seq<Byte>, m: seq<Byte>, z: seq<Byte>, i: nat, j: nat)
    requires i <= j <= |m|
    ensures (h + m + z)[|h| + i..|h| + j] == m[i..j]
  {
    assert forall k :: i <= k < j ==> (h + m + z)[|h| + k] == m[k];
  }

  lemma LastSlice(a: seq<Byte>, b: seq<Byte>, all: seq<Byte>)
    requires a + b <= all
    ensures all[|a|..|a| + |b|] == b
  {
    assert all[..|a| + |b|] == a + b;
  }

  lemma HeaderAt(n: Node, cap: nat)
    requires Lays(n, cap) && NODE_HEADER <= cap
    ensures var d := Image(n, cap);
      && d[0..8] == LE(n.parent, 8) && d[8..12] == LE(KindCode(n.kind), 4)
      && d[12..14] == LE(|n.cells|, 2) && d[16..24] == LE(Right(n), 8)
  {
    var d, h := Image(n, cap), Header(n);
    FiveFields(LE(n.parent, 8), LE(KindCode(n.kind), 4), LE(|n.cells| % 0x1_0000, 2), [0, 0], LE(Right(n), 8));
    assert d[..24] == h;
    hide LE, Image, Header;
    assert d[0..8] == d[..24][0..8] && d[8..12] == d[..24][8..12];
    assert d[12..14] == d[..24][12..14] && d[16..24] == d[..24][16..24];
  }

  lemma FiveFields(a: seq<Byte>, b: seq<Byte>, c: seq<Byte>, z: seq<Byte>, r: seq<Byte>)
    requires |a| == 8 && |b| == 4 && |c| == 2 && |z| == 2 && |r| == 8
    ensures var h := a + b + c + z + r; h[0..8] == a && h[8..12] == b && h[12..14] == c && h[16..24] == r
  {}

  // ---------------------------------------------------------------- what always fits

  /** A node whose fields a page can represent, sizes aside. */
  predicate Plain(n: Node) {
    && WellFormed(n) && |n.cells| <= ORDER && ShortKeys(n) && n.parent < PAGE_LIMIT
    && forall i {:trigger n.kids[i]} :: 0 <= i < |n.kids| ==> n.kids[i] < PAGE_LIMIT
  }

  lemma {:induction false} CellImagesSize(n: Node, i: nat)
    requires WellFormed(n) && i <= |n.cells| && n.kind != TableLeaf
    ensures |CellImages(n, i)| == 24 * i
  {
    if i > 0 { CellImagesSize(n, i - 1); }
  }

  /** Anything but a table leaf fits every page. */
  lemma InteriorFits(n: Node, addr: Page)
    requires Plain(n) && n.kind != TableLeaf
    ensures Fits(n, Cap(addr))
  {
    CellImagesSize(n, |n.cells|);
  }

  lemma FitsPlain(n: Node, cap: nat)
    requires Fits(n, cap)
    ensures Plain(n)
  {}

  lemma SplitPlain(n: Node, q: Page)
    requires Plain(n) && Saturated(n) && q < PAGE_LIMIT
    ensures Plain(SplitLeft(n, q)) && Plain(SplitRight(n)) && SplitKey(n) < KEY_LIMIT
  {}

  /** The parent link is part of the header: changing it changes no sizes. */
  lemma {:induction false} ParentFree(n: Node, p: Page, i: nat)
    requires WellFormed(n) && i <= |n.cells|
    ensures CellImages(n.(parent := p), i) == CellImages(n, i)
  {
    if i > 0 { ParentFree(n, p, i - 1); }
  }

  lemma ReparentFits(n: Node, p: Page, cap: nat)
    requires Fits(n, cap) && p < PAGE_LIMIT
    ensures Fits(n.(parent := p), cap)
  {
    ParentFree(n, p, |n.cells|);
  }
}
