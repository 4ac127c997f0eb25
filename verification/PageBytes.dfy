/** The bytes of a page and of a free-list link, one by one, in plain numbers. */
module PageBytes {
  import opened Nodes
  import opened Codec
  import opened Disk

  /** Byte `i` of a field. */
  function ByteOf(n: nat, i: nat): Byte {
    Pow256Positive(i);
    n / Pow256(i) % 256
  }

  lemma {:induction false} Pow256Positive(i: nat)
    ensures Pow256(i) > 0
  {
    if i > 0 { Pow256Positive(i - 1); }
  }

  lemma QuotientIs(n: nat, d: nat, q: nat, r: nat)
    requires n == d * q + r && r < d
    ensures n / d == q
  {
    var x: int := q - n / d;
    assert d * x == d * q - d * (n / d);
    MultipleIsLarge(d, x);
  }

  lemma MultipleIsLarge(d: nat, x: int)
    ensures x > 0 ==> d * x >= d
    ensures x < 0 ==> d * x + d <= 0
  {}

  lemma DivideTwice(n: nat, d: nat)
    requires d > 0
    ensures n / 256 / d == n / (256 * d)
  {
    var q := n / 256 / d;
    var t := n / 256 - d * q;
    assert 256 * (d * q) == 256 * d * q;
    QuotientIs(n, 256 * d, q, 256 * t + n % 256);
  }

  /** Fields are little-endian. */
  lemma {:induction false} LittleEndian(n: nat, w: nat, i: nat)
    requires i < w
    ensures LE(n, w)[i] == ByteOf(n, i)
  {
    if i > 0 {
      LittleEndian(n / 256, w - 1, i - 1);
      Pow256Positive(i - 1);
      DivideTwice(n, Pow256(i - 1));
    }
  }

  /** A field of `w` bytes at `at`. */
  ghost predicate FieldAt(d: seq<Byte>, at: nat, w: nat, n: nat) {
    at + w <= |d| && forall i {:trigger d[at + i]} :: 0 <= i < w ==> d[at + i] == ByteOf(n, i)
  }

  lemma FieldIs(d: seq<Byte>, at: nat, w: nat, n: nat)
    requires at + w <= |d| && d[at..at + w] == LE(n, w)
    ensures FieldAt(d, at, w, n)
  {
    forall i | 0 <= i < w ensures d[at + i] == ByteOf(n, i) {
      LittleEndian(n, w, i);
      assert d[at..at + w][i] == d[at + i];
    }
  }

  /** The header: eight bytes of parent, the kind's code, the number of cells, two unused bytes, and the right link. */
  lemma HeaderBytes(n: Node, cap: nat)
    requires Lays(n, cap) && 24 <= cap
    ensures var d := Image(n, cap);
      && |d| == cap && FieldAt(d, 0, 8, n.parent)
      && d[8] == (match n.kind case TableLeaf => 13 case TableInterior => 5 case IndexLeaf => 10 case IndexInterior =>
           2)
      && d[9] == d[10] == d[11] == 0 && d[12] == |n.cells| && d[13] == d[14] == d[15] == 0
      && FieldAt(d, 16, 8, n.kids[|n.kids| - 1])
  {
    HeaderSlices(n, cap);
    hide *;
    var d := Image(n, cap);
    FieldIs(d, 0, 8, n.parent);
    FieldIs(d, 16, 8, n.kids[|n.kids| - 1]);
    SmallField(d, 8, 4, KindCode(n.kind));
    SmallField(d, 12, 2, |n.cells|);
    Codes(n.kind);
  }

  lemma Codes(k: Kind)
    ensures KindCode(k) ==
      match k case TableLeaf => 13 case TableInterior => 5 case IndexLeaf => 10 case IndexInterior => 2
  {}

  lemma HeaderSlices(n: Node, cap: nat)
    requires Lays(n, cap) && 24 <= cap
    ensures var d := Image(n, cap);
      && n.kids != [] && |d| == cap && d[0..8] == LE(n.parent, 8)
      && KindCode(n.kind) < 256 && d[8..12] == LE(KindCode(n.kind), 4)
      && |n.cells| < 256 && d[12..14] == LE(|n.cells|, 2)
      && d[14] == d[15] == 0 && d[16..24] == LE(n.kids[|n.kids| - 1], 8)
  {
    HeaderAt(n, cap);
    HeaderGap(n, cap);
    hide Image, LE;
  }

  lemma HeaderGap(n: Node, cap: nat)
    requires Lays(n, cap) && 24 <= cap
    ensures Image(n, cap)[14] == Image(n, cap)[15] == 0
  {
    assert Image(n, cap)[..24] == Header(n);
    hide Image, LE;
    assert Image(n, cap)[..24][14] == 0 && Image(n, cap)[..24][15] == 0;
  }

  lemma SmallField(d: seq<Byte>, at: nat, w: nat, n: nat)
    requires at + w <= |d| && d[at..at + w] == LE(n, w) && n < 256 && w >= 1
    ensures d[at] == n && forall i {:trigger d[i]} :: at < i < at + w ==> d[i] == 0
  {
    hide *;
    SmallByte(d, at, w, n, 0);
    forall i {:trigger d[i]} | at < i < at + w ensures d[i] == 0 { SmallByte(d, at, w, n, i - at); }
  }

  lemma SmallByte(d: seq<Byte>, at: nat, w: nat, n: nat, i: nat)
    requires at + w <= |d| && d[at..at + w] == LE(n, w) && n < 256 && i < w
    ensures d[at + i] == if i == 0 then n else 0
  {
    LittleEndian(n, w, i);
    assert d[at..at + w][i] == d[at + i];
    hide *;
    SmallByteOf(n, i);
  }

  lemma SmallByteOf(n: nat, i: nat)
    requires n < 256
    ensures ByteOf(n, i) == if i == 0 then n else 0
  {
    if i > 0 {
      Pow256Large(i);
      hide Pow256;
      QuotientIs(n, Pow256(i), 0, n);
    } else {
      assert Pow256(0) == 1;
    }
  }

  lemma {:induction false} Pow256Large(i: nat)
    requires i > 0
    ensures Pow256(i) >= 256
  {
    if i > 1 { Pow256Large(i - 1); }
  }

  /** Where a cell is: behind the header and the cells before it, each with a header of its own. */
  function CellPlace(n: Node, i: nat): nat
    requires WellFormed(n) && i <= |n.cells|
  {
    if i == 0 then 24
    else CellPlace(n, i - 1) + 16 + if n.kind == TableLeaf then |n.cells[i - 1].value| else 8
  }

  lemma {:induction false} PlaceIsOffset(n: Node, i: nat)
    requires WellFormed(n) && i <= |n.cells|
    ensures CellPlace(n, i) == CellOffset(n, i)
  {
    hide CellImage;
    if i > 0 {
      PlaceIsOffset(n, i - 1);
      CellImageSize(n, i - 1);
    }
  }

  /** A cell: four bytes of key, four of size, eight zero bytes, then the value, or in other nodes the child's page. */
  lemma CellBytes(n: Node, cap: nat, i: nat)
    requires Lays(n, cap) && i < |n.cells|
    ensures var d, p := Image(n, cap), CellPlace(n, i);
      && p + 16 <= |d| && FieldAt(d, p, 4, n.cells[i].key) && FieldAt(d, p + 8, 8, 0)
      && if n.kind == TableLeaf then
           && FieldAt(d, p + 4, 4, |n.cells[i].value|) && p + 16 + |n.cells[i].value| <= |d|
           && d[p + 16..p + 16 + |n.cells[i].value|] == n.cells[i].value
         else FieldAt(d, p + 4, 4, 8) && FieldAt(d, p + 16, 8, n.kids[i])
  {
    hide *;
    LaysWell(n, cap);
    PlaceIsOffset(n, i);
    CellParts(n, cap, i);
    var d, p := Image(n, cap), CellPlace(n, i);
    FourBytes(n.cells[i].key);
    FieldIs(d, p, 4, n.cells[i].key);
    FieldIs(d, p + 4, 4, |Payload(n, i)|);
    FieldIs(d, p + 8, 8, 0);
    if n.kind == TableLeaf {
      LeafPayload(n, i);
    } else {
      KidPayload(n, i);
      FieldIs(d, p + 16, 8, n.kids[i]);
    }
  }

  lemma LaysWell(n: Node, cap: nat)
    requires Lays(n, cap)
    ensures WellFormed(n)
  {}

  lemma LeafPayload(n: Node, i: nat)
    requires WellFormed(n) && i < |n.cells| && n.kind == TableLeaf
    ensures Payload(n, i) == n.cells[i].value
  {}

  lemma KidPayload(n: Node, i: nat)
    requires WellFormed(n) && i < |n.cells| && n.kind != TableLeaf
    ensures i < |n.kids| && Payload(n, i) == LE(n.kids[i], 8) && |Payload(n, i)| == 8
  {}

  lemma CellParts(n: Node, cap: nat, i: nat)
    requires Lays(n, cap) && i < |n.cells|
    ensures var d, p, v := Image(n, cap), CellOffset(n, i), Payload(n, i);
      && p + 16 + |v| <= |d| && d[p..p + 4] == LE(n.cells[i].key % KEY_LIMIT, 4) && d[p + 4..p + 8] == LE(|v|, 4)
      && d[p + 8..p + 16] == LE(0, 8) && d[p + 16..p + 16 + |v|] == v
  {
    CellPartsOf(n, cap, i, n.cells[i].key % KEY_LIMIT);
    hide *;
  }

  lemma CellPartsOf(n: Node, cap: nat, i: nat, key: Key)
    requires Lays(n, cap) && i < |n.cells| && key == n.cells[i].key % KEY_LIMIT
    ensures var d, p, v := Image(n, cap), CellOffset(n, i), Payload(n, i);
      && p + 16 + |v| <= |d| && d[p..p + 4] == LE(key, 4) && d[p + 4..p + 8] == LE(|v|, 4)
      && d[p + 8..p + 16] == LE(0, 8) && d[p + 16..p + 16 + |v|] == v
  {
    hide *;
    LaysWell(n, cap);
    CellAt(n, cap, i);
    CellImageParts(n, i, key);
    var d, p, v := Image(n, cap), CellOffset(n, i), Payload(n, i);
    OffsetInside(n, cap);
    Parts(d, p, LE(key, 4), LE(|v|, 4), LE(0, 8), v);
  }

  lemma OffsetInside(n: Node, cap: nat)
    requires Lays(n, cap)
    ensures Size(n) <= cap && CELL_HEADER == 16
  {}

  lemma CellImageParts(n: Node, i: nat, key: Key)
    requires WellFormed(n) && i < |n.cells| && key == n.cells[i].key % KEY_LIMIT
    ensures var v := Payload(n, i); CellImage(n, i) == LE(key, 4) + LE(|v|, 4) + LE(0, 8) + v
  {
    hide LE, Payload;
  }

  lemma Parts(d: seq<Byte>, p: nat, a: seq<Byte>, b: seq<Byte>, z: seq<Byte>, v: seq<Byte>)
    requires |a| == 4 && |b| == 4 && |z| == 8 && p + 16 + |v| <= |d| && d[p..p + 16 + |v|] == a + b + z + v
    ensures d[p..p + 4] == a && d[p + 4..p + 8] == b && d[p + 8..p + 16] == z && d[p + 16..p + 16 + |v|] == v
  {
    var s := d[p..p + 16 + |v|];
    assert s[0..4] == a && s[4..8] == b && s[8..16] == z && s[16..16 + |v|] == v;
    SubSlice(d, p, p + 16 + |v|, 0, 4);
    SubSlice(d, p, p + 16 + |v|, 4, 8);
    SubSlice(d, p, p + 16 + |v|, 8, 16);
    SubSlice(d, p, p + 16 + |v|, 16, 16 + |v|);
  }

  lemma SubSlice(d: seq<Byte>, p: nat, q: nat, i: nat, j: nat)
    requires p <= q <= |d| && i <= j <= q - p
    ensures d[p..q][i..j] == d[p + i..p + j]
  {
    var a, b := d[p..q][i..j], d[p + i..p + j];
    assert |a| == |b| && forall k {:trigger a[k]} :: 0 <= k < |a| ==> a[k] == b[k];
  }

  lemma Regroup(p: nat, a: nat)
    ensures 256 * p * a == 256 * (p * a)
  {}

  /** A field holds the low bytes of any number. */
  lemma {:induction false} LowBytes(m: nat, a: nat, w: nat)
    ensures LE(m + Pow256(w) * a, w) == LE(m, w)
  {
    if w > 0 {
      var t := Pow256(w - 1) * a;
      assert Pow256(w) * a == 256 * t by { Regroup(Pow256(w - 1), a); }
      assert (m + 256 * t) % 256 == m % 256 && (m + 256 * t) / 256 == m / 256 + t;
      LowBytes(m / 256, a, w - 1);
    }
  }

  lemma FourBytes(n: nat)
    ensures LE(n % KEY_LIMIT, 4) == LE(n, 4)
  {
    FieldSizes();
    LowBytes(n % KEY_LIMIT, n / KEY_LIMIT, 4);
  }

  /** Behind the last cell a page is zero. */
  lemma RestIsZero(n: Node, cap: nat, k: nat)
    requires Lays(n, cap) && CellPlace(n, |n.cells|) <= k < cap
    ensures Image(n, cap)[k] == 0
  {
    PlaceIsOffset(n, |n.cells|);
    hide Header, CellImages;
  }

  /** The first four bytes of a free page. */
  lemma LinkBytes(p: Page)
    ensures FieldAt(LinkImage(p), 0, 4, p)
  {
    var d := LinkImage(p);
    assert d[0..4] == d;
    FourBytes(p);
    FieldIs(d, 0, 4, p);
  }

  /** Reading them back: a number of four bytes, and where its top bit is set all upper bits are set with it. */
  lemma LinkRead(data: seq<Byte>)
    requires |data| >= 4
    ensures var n := data[0] as int + 0x100 * data[1] as int + 0x1_0000 * data[2] as int + 0x100_0000 * data[3] as int;
      LinkOf(data) == if data[3] < 128 then n else n + 0xFFFF_FFFF_0000_0000
  {
    var d := data[..4];
    FieldSizes();
    assert FromLE(d[4..]) == 0;
    assert FromLE(d[3..]) == d[3] as int;
    assert d[2..][1..] == d[3..] && d[1..][1..] == d[2..];
    assert FromLE(d[2..]) == d[2] as int + 256 * d[3] as int;
    assert FromLE(d[1..]) == d[1] as int + 256 * (d[2] as int + 256 * d[3] as int);
  }

  /** Page 0 is shorter by the file's own header. */
  lemma PageSizes(n: Node, a: Page)
    requires Lays(n, Cap(a))
    ensures |Image(n, Cap(a))| == if a == 0 then 456 else 512
  {}
}
