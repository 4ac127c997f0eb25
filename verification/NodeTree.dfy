/** The in-memory B+-tree's nodes, and what makes a graph of them a search tree. A node answers for the keys of a
    span (lo, hi]; a node whose span is empty is a placeholder that no descent enters. */
module NodeTree {
  import opened Options

  /** A C int. */
  type Int = k: int | -0x8000_0000 <= k < 0x8000_0000 witness 0
  const BELOW_ALL: int := -0x8000_0001
  const LARGEST: int := 0x7FFF_FFFF
  /** ORDER - 1. */
  const MAX_KEYS: nat := 4

  datatype Data = Data(values: seq<string>, columns: seq<string>)
  datatype KeyValue = KeyValue(key: Int, value: Data)

  /** What a node holds: its cells in use, and for an interior node its children in use. */
  datatype Val = Val(isLeaf: bool, cells: seq<KeyValue>, kids: seq<Node?>)

  function EmptyVal(isLeaf: bool): Val {
    Val(isLeaf, [], if isLeaf then [] else [null])
  }

  /** `struct node`: the arrays are part of the struct, so that assigning a node copies them. */
  class Node {
    var isLeaf: bool
    var nbKeys: nat
    var keyVal: seq<KeyValue>
    var children: seq<Node?>

    ghost predicate Valid()
      reads this
    {
      nbKeys <= MAX_KEYS && |keyVal| == MAX_KEYS && |children| == MAX_KEYS + 1
    }

    ghost function Value(): (v: Val)
      requires Valid()
      reads this
    {
      Val(isLeaf, keyVal[..nbKeys], if isLeaf then [] else children[..nbKeys + 1])
    }

    /** A new node. Null stands for the child pointers that the C code leaves unset. */
    constructor (isLeaf: bool)
      ensures Valid() && this.isLeaf == isLeaf && nbKeys == 0 && Value() == EmptyVal(isLeaf)
    {
      this.isLeaf, nbKeys := isLeaf, 0;
      keyVal := seq(MAX_KEYS, i => KeyValue(0, Data([], [])));
      children := seq(MAX_KEYS + 1, i => null);
    }
  }

  type Graph = map<Node, Val>
  datatype Span = Span(lo: int, hi: int, rank: nat)
  type Spans = map<Node, Span>

  predicate Ascending(cells: seq<KeyValue>) {
    forall i, j {:trigger cells[i], cells[j]} :: 0 <= i < j < |cells| ==> cells[i].key < cells[j].key
  }

  predicate Inside(cells: seq<KeyValue>, lo: int, hi: int) {
    forall i {:trigger cells[i]} :: 0 <= i < |cells| ==> lo < cells[i].key <= hi
  }

  function From(cells: seq<KeyValue>, lo: int, i: nat): int
    requires i <= |cells|
  {
    if i == 0 then lo else cells[i - 1].key
  }

  function To(cells: seq<KeyValue>, hi: int, i: nat): int
    requires i <= |cells|
  {
    if i == |cells| then hi else cells[i].key
  }

  predicate Live(sh: Spans, n: Node) {
    n in sh && sh[n].lo < sh[n].hi
  }

  /** Child `i` answers for the keys between its separators, one level down. */
  ghost predicate KidOk(v: Val, sh: Spans, n: Node, i: nat)
    requires n in sh && i <= |v.cells| < |v.kids|
  {
    && v.kids[i] != null
    && var c := v.kids[i];
      c in sh && sh[c].lo == From(v.cells, sh[n].lo, i) && sh[c].hi == To(v.cells, sh[n].hi, i)
      && (Live(sh, c) ==> sh[c].rank + 1 == sh[n].rank)
  }

  predicate BelowLargest(cells: seq<KeyValue>) {
    forall i {:trigger cells[i]} :: 0 <= i < |cells| ==> cells[i].key < LARGEST
  }

  /** A live node's own part of the invariant. A leaf may also hold its own lower bound, where no lookup finds it:
      an insert that strayed puts it there. */
  ghost predicate NodeOk(v: Val, sh: Spans, n: Node)
    requires n in sh
  {
    && |v.cells| <= MAX_KEYS && Ascending(v.cells)
    && Inside(v.cells, if v.isLeaf then sh[n].lo - 1 else sh[n].lo, sh[n].hi)
    && (v.isLeaf <==> sh[n].rank == 0) && (!v.isLeaf ==> BelowLargest(v.cells))
    && (!v.isLeaf ==> |v.kids| == |v.cells| + 1 && forall i {:trigger KidOk(v, sh, n, i)} :: 0 <= i <= |v.cells| ==>
         KidOk(v, sh, n, i))
  }

  ghost predicate Local(V: Graph, sh: Spans, t: Node, n: Node)
    requires n in sh && t in sh
  {
    && n in V && sh[n].rank <= sh[t].rank && sh[n].lo <= sh[n].hi
    && (Live(sh, n) ==> NodeOk(V[n], sh, n))
  }

  ghost predicate Tree(V: Graph, sh: Spans, t: Node) {
    && t in sh && sh[t].lo == BELOW_ALL && sh[t].hi == LARGEST
    && forall n {:trigger Local(V, sh, t, n)} :: n in sh ==> Local(V, sh, t, n)
  }

  // ---------------------------------------------------------------- looking a key up

  /** The first cell whose key is not below `k`. */
  function Slot(cells: seq<KeyValue>, k: int): (i: nat)
    ensures i <= |cells|
    ensures forall j {:trigger cells[j]} :: 0 <= j < i ==> cells[j].key < k
    ensures i < |cells| ==> k <= cells[i].key
  {
    SlotFrom(cells, k, 0)
  }

  function SlotFrom(cells: seq<KeyValue>, k: int, from: nat): (i: nat)
    requires from <= |cells| && forall j {:trigger cells[j]} :: 0 <= j < from ==> cells[j].key < k
    ensures from <= i <= |cells|
    ensures forall j {:trigger cells[j]} :: 0 <= j < i ==> cells[j].key < k
    ensures i < |cells| ==> k <= cells[i].key
    decreases |cells| - from
  {
    if from == |cells| || k <= cells[from].key then from else SlotFrom(cells, k, from + 1)
  }

  function Get(cells: seq<KeyValue>, k: int): Option<Data> {
    var i := Slot(cells, k);
    if i < |cells| && cells[i].key == k then Some(cells[i].value) else None
  }

  predicate Covers(sh: Spans, n: Node, k: int) {
    n in sh && sh[n].lo < k <= sh[n].hi
  }

  /** The child that a search takes is live and answers for the key. */
  lemma Step(V: Graph, sh: Spans, t: Node, n: Node, k: int)
    requires Tree(V, sh, t) && Covers(sh, n, k)
    ensures n in V && NodeOk(V[n], sh, n)
    ensures !V[n].isLeaf ==> var i := Slot(V[n].cells, k);
      && i < |V[n].kids| && KidOk(V[n], sh, n, i) && V[n].kids[i] in V && Covers(sh, V[n].kids[i], k)
      && sh[V[n].kids[i]].rank < sh[n].rank
  {
    assert Local(V, sh, t, n);
    if !V[n].isLeaf {
      var i := Slot(V[n].cells, k);
      assert KidOk(V[n], sh, n, i);
      assert Local(V, sh, t, V[n].kids[i]);
    }
  }

  /** What the tree below `n` stores under `k`. */
  ghost function Lookup(V: Graph, sh: Spans, t: Node, n: Node, k: int): Option<Data>
    requires Tree(V, sh, t) && Covers(sh, n, k)
    decreases sh[n].rank
  {
    Step(V, sh, t, n, k);
    if V[n].isLeaf then Get(V[n].cells, k)
    else Lookup(V, sh, t, V[n].kids[Slot(V[n].cells, k)], k)
  }

  lemma SlotUnique(cells: seq<KeyValue>, k: int, i: nat)
    requires Ascending(cells) && i <= |cells| && (i > 0 ==> cells[i - 1].key < k) && (i < |cells| ==> k <= cells[i].key)
    ensures Slot(cells, k) == i
  {
    var s := Slot(cells, k);
    hide Slot;
  }

  // ---------------------------------------------------------------- splitting a child

  predicate Full(v: Val) {
    |v.cells| == MAX_KEYS && (!v.isLeaf ==> |v.kids| == MAX_KEYS + 1)
  }

  /** The left node keeps the key that also goes up; its last child is a new placeholder. */
  function LeftOf(v: Val, d: Node?): Val
    requires Full(v)
  {
    Val(v.isLeaf, v.cells[..2], if v.isLeaf then [] else v.kids[..2] + [d])
  }

  function RightOf(v: Val): Val
    requires Full(v)
  {
    Val(v.isLeaf, v.cells[2..], if v.isLeaf then [] else v.kids[2..])
  }

  /** The parent with its child replaced by two. */
  function Widened(v: Val, idx: nat, up: KeyValue, l: Node, r: Node): Val
    requires idx <= |v.cells| && |v.kids| == |v.cells| + 1
  {
    Val(v.isLeaf, v.cells[..idx] + [up] + v.cells[idx..], v.kids[..idx] + [l, r] + v.kids[idx + 1..])
  }

  /** The nodes of a split: the child cut in two, and the placeholder of an interior one. */
  datatype Cut = Cut(p: Node, idx: nat, c: Node, l: Node, r: Node, d: Node?, dead: Val)

  ghost predicate CutReady(V: Graph, sh: Spans, t: Node, x: Cut) {
    && Tree(V, sh, t)
    && Live(sh, x.p) && x.p in V && !V[x.p].isLeaf && |V[x.p].cells| < MAX_KEYS
    && x.idx <= |V[x.p].cells| < |V[x.p].kids| && V[x.p].kids[x.idx] == x.c
    && Live(sh, x.c) && x.c in V && Full(V[x.c])
    && x.l !in sh && x.r !in sh && x.l != x.r
    && (if V[x.c].isLeaf then x.d == null else x.d != null && x.d !in sh && x.d != x.l && x.d != x.r)
  }

  ghost function CutGraph(V: Graph, x: Cut): Graph
    requires x.p in V && x.c in V && Full(V[x.c]) && x.idx <= |V[x.p].cells| && |V[x.p].kids| == |V[x.p].cells| + 1
  {
    var W := V[x.l := LeftOf(V[x.c], x.d)][x.r := RightOf(V[x.c])][x.p :=
      Widened(V[x.p], x.idx, V[x.c].cells[1], x.l, x.r)];
    if V[x.c].isLeaf || x.d == null then W else W[x.d := x.dead]
  }

  ghost function CutSpans(V: Graph, sh: Spans, x: Cut): Spans
    requires x.c in V && x.c in sh && Full(V[x.c])
  {
    var up := V[x.c].cells[1].key;
    var s := sh[x.l := Span(sh[x.c].lo, up, sh[x.c].rank)][x.r := Span(up, sh[x.c].hi, sh[x.c].rank)];
    if V[x.c].isLeaf || x.d == null then s else s[x.d := Span(up, up, 0)]
  }

  lemma CutFacts(V: Graph, sh: Spans, t: Node, x: Cut)
    requires CutReady(V, sh, t, x)
    ensures |V[x.p].kids| == |V[x.p].cells| + 1 && x.p != x.l && x.p != x.r && x.p != x.d
    ensures var W := CutGraph(V, x);
      && W[x.l] == LeftOf(V[x.c], x.d) && W[x.r] == RightOf(V[x.c])
      && W[x.p] == Widened(V[x.p], x.idx, V[x.c].cells[1], x.l, x.r)
      && (forall n {:trigger W[n]} :: n in sh && n in V && n != x.p ==> n in W && W[n] == V[n])
    ensures var s2 := CutSpans(V, sh, x); forall n {:trigger s2[n]} :: n in sh ==> n in s2 && s2[n] == sh[n]
    ensures V[x.c].cells[0].key < V[x.c].cells[1].key < V[x.c].cells[2].key < V[x.c].cells[3].key
    ensures NodeOk(V[x.p], sh, x.p) && NodeOk(V[x.c], sh, x.c) && KidOk(V[x.p], sh, x.p, x.idx)
      && sh[x.c].lo < V[x.c].cells[1].key < sh[x.c].hi
  {
    assert Local(V, sh, t, x.p) && Local(V, sh, t, x.c);
    assert KidOk(V[x.p], sh, x.p, x.idx);
    assert V[x.c].cells[3].key <= sh[x.c].hi;
  }

  /** Nodes that the split does not touch stay as they are. */
  lemma CutOther(V: Graph, sh: Spans, t: Node, x: Cut, n: Node)
    requires CutReady(V, sh, t, x) && n in sh && n != x.p
    ensures |V[x.p].kids| == |V[x.p].cells| + 1 && t in CutSpans(V, sh, x) && n in CutSpans(V, sh, x)
    ensures Local(CutGraph(V, x), CutSpans(V, sh, x), t, n)
  {
    CutFacts(V, sh, t, x);
    assert Local(V, sh, t, n);
    var W, s2 := CutGraph(V, x), CutSpans(V, sh, x);
    hide CutGraph, CutSpans, LeftOf, RightOf, Widened;
    if Live(sh, n) && !V[n].isLeaf {
      forall i | 0 <= i <= |V[n].cells| ensures KidOk(W[n], s2, n, i) { assert KidOk(V[n], sh, n, i); }
    }
  }

  lemma CutLeft(V: Graph, sh: Spans, t: Node, x: Cut)
    requires CutReady(V, sh, t, x)
    ensures |V[x.p].kids| == |V[x.p].cells| + 1 && t in CutSpans(V, sh, x)
    ensures x.l in CutSpans(V, sh, x) && Local(CutGraph(V, x), CutSpans(V, sh, x), t, x.l)
  {
    CutFacts(V, sh, t, x);
    assert Local(V, sh, t, x.c);
    var W, s2, v, c := CutGraph(V, x), CutSpans(V, sh, x), LeftOf(V[x.c], x.d), V[x.c];
    if !c.isLeaf {
      forall i | 0 <= i <= |v.cells| ensures KidOk(v, s2, x.l, i) {
        if i < 2 { assert KidOk(c, sh, x.c, i); }
      }
    }
  }

  lemma CutRight(V: Graph, sh: Spans, t: Node, x: Cut)
    requires CutReady(V, sh, t, x)
    ensures |V[x.p].kids| == |V[x.p].cells| + 1 && t in CutSpans(V, sh, x)
    ensures x.r in CutSpans(V, sh, x) && Local(CutGraph(V, x), CutSpans(V, sh, x), t, x.r)
  {
    CutFacts(V, sh, t, x);
    assert Local(V, sh, t, x.c);
    var W, s2, v, c := CutGraph(V, x), CutSpans(V, sh, x), RightOf(V[x.c]), V[x.c];
    if !c.isLeaf {
      forall i | 0 <= i <= |v.cells| ensures KidOk(v, s2, x.r, i) {
        assert KidOk(c, sh, x.c, i + 2);
        assert v.kids[i] == c.kids[i + 2];
      }
    }
  }

  lemma WidenedCells(cells: seq<KeyValue>, idx: nat, up: KeyValue, lo: int, hi: int)
    requires Ascending(cells) && Inside(cells, lo, hi) && idx <= |cells|
      && From(cells, lo, idx) < up.key < To(cells, hi, idx)
    ensures var w := cells[..idx] + [up] + cells[idx..]; Ascending(w) && Inside(w, lo, hi)
  {
    var w := cells[..idx] + [up] + cells[idx..];
    assert forall i {:trigger w[i]} :: 0 <= i < |w| ==>
      w[i] == if i < idx then cells[i] else if i == idx then up else cells[i - 1];
    forall i, j | 0 <= i < j < |w| ensures w[i].key < w[j].key {
      assert i < idx - 1 ==> cells[i].key < cells[idx - 1].key;
      assert idx < j - 1 ==> cells[idx].key < cells[j - 1].key;
    }
  }

  lemma CutParent(V: Graph, sh: Spans, t: Node, x: Cut)
    requires CutReady(V, sh, t, x)
    ensures |V[x.p].kids| == |V[x.p].cells| + 1 && t in CutSpans(V, sh, x)
    ensures x.p in CutSpans(V, sh, x) && Local(CutGraph(V, x), CutSpans(V, sh, x), t, x.p)
  {
    CutFacts(V, sh, t, x);
    assert Local(V, sh, t, x.p) && Local(V, sh, t, x.c);
    var W, s2, v, up := CutGraph(V, x), CutSpans(V, sh, x), V[x.p], V[x.c].cells[1];
    var w := Widened(v, x.idx, up, x.l, x.r);
    WidenedCells(v.cells, x.idx, up, sh[x.p].lo, sh[x.p].hi);
    assert s2[x.l] == Span(sh[x.c].lo, up.key, sh[x.c].rank) && s2[x.r] == Span(up.key, sh[x.c].hi, sh[x.c].rank);
    assert x.l in s2 && x.r in s2 && w.isLeaf == v.isLeaf && s2[x.p] == sh[x.p];
    assert NodeOk(v, sh, x.p) && v.kids[x.idx] == x.c;
    hide CutGraph, CutSpans, LeftOf, RightOf, Ascending, Inside, Local, Tree;
    forall i | 0 <= i <= |w.cells|
      ensures KidOk(w, s2, x.p, i)
    {
      WidenedKid(v, sh, s2, x.p, x.idx, x.c, up, x.l, x.r, i);
    }
  }

  lemma WidenedKid(v: Val, sh: Spans, s2: Spans, p: Node, idx: nat, c: Node, up: KeyValue, l: Node, r: Node, i: nat)
    requires p in sh && p in s2 && s2[p] == sh[p] && !v.isLeaf && NodeOk(v, sh, p) && idx <= |v.cells|
      && v.kids[idx] == c && c in sh
    requires l in s2 && r in s2 && s2[l] == Span(sh[c].lo, up.key, sh[c].rank)
      && s2[r] == Span(up.key, sh[c].hi, sh[c].rank) && Live(sh, c)
    requires forall n {:trigger s2[n]} {:trigger sh[n]} :: n in sh ==> n in s2 && s2[n] == sh[n]
    requires i <= |v.cells| + 1
    ensures var w := Widened(v, idx, up, l, r);
      |w.cells| == |v.cells| + 1 && |w.kids| == |w.cells| + 1 && KidOk(w, s2, p, i)
  {
    hide Ascending, Inside;
    var w := Widened(v, idx, up, l, r);
    var j := if i <= idx then i else i - 1;
    assert KidOk(v, sh, p, j) && KidOk(v, sh, p, idx);
    WidenedAt(v, idx, up, l, r, i);
    WidenedBounds(v.cells, idx, up, sh[p].lo, sh[p].hi, i);
    hide Widened;
    if i == idx || i == idx + 1 {
      assert sh[c].rank + 1 == sh[p].rank;
    } else {
      var k := v.kids[j];
      assert k != null && k in sh && w.kids[i] == k && sh[k] == s2[k];
    }
  }

  lemma WidenedAt(v: Val, idx: nat, up: KeyValue, l: Node, r: Node, i: nat)
    requires idx <= |v.cells| && |v.kids| == |v.cells| + 1 && i <= |v.cells| + 1
    ensures var w := Widened(v, idx, up, l, r);
      && |w.cells| == |v.cells| + 1 && |w.kids| == |w.cells| + 1
      && w.kids[i] == if i == idx then l else if i == idx + 1 then r else v.kids[if i <= idx then i else i - 1]
  {}

  lemma WidenedBounds(cells: seq<KeyValue>, idx: nat, up: KeyValue, lo: int, hi: int, i: nat)
    requires idx <= |cells| && i <= |cells| + 1
    ensures var w := cells[..idx] + [up] + cells[idx..];
      && From(w, lo, i) == (if i <= idx then From(cells, lo, i) else if i == idx + 1 then up.key
           else From(cells, lo, i - 1))
      && To(w, hi, i) == (if i < idx then To(cells, hi, i) else if i == idx then up.key else To(cells, hi, i - 1))
  {}

  lemma CutKeepsTree(V: Graph, sh: Spans, t: Node, x: Cut)
    requires CutReady(V, sh, t, x)
    ensures |V[x.p].kids| == |V[x.p].cells| + 1 && Tree(CutGraph(V, x), CutSpans(V, sh, x), t)
  {
    CutFacts(V, sh, t, x);
    var W, s2 := CutGraph(V, x), CutSpans(V, sh, x);
    forall n | n in s2 ensures Local(W, s2, t, n) {
      if n == x.p { CutParent(V, sh, t, x); }
      else if n == x.l { CutLeft(V, sh, t, x); }
      else if n == x.r { CutRight(V, sh, t, x); }
      else if n in sh { CutOther(V, sh, t, x, n); }
    }
  }
}
