/** What splits, a new root, and changes at a leaf do to lookups in the in-memory tree. */
module NodeLookup {
  import opened Options
  import opened NodeTree

  /** The leaf that answers for `k`. */
  ghost function LeafAt(V: Graph, sh: Spans, t: Node, n: Node, k: int): (l: Node)
    requires Tree(V, sh, t) && Covers(sh, n, k)
    ensures l in V && V[l].isLeaf && Covers(sh, l, k) && Lookup(V, sh, t, n, k) == Get(V[l].cells, k)
    decreases sh[n].rank
  {
    Step(V, sh, t, n, k);
    if V[n].isLeaf then n else LeafAt(V, sh, t, V[n].kids[Slot(V[n].cells, k)], k)
  }

  ghost predicate Agree(V: Graph, sh: Spans, W: Graph, s2: Spans, n: Node) {
    n in V && n in sh && n in W && n in s2 && W[n] == V[n] && s2[n] == sh[n]
  }

  /** A lookup from `n` depends on `n` and on what is below its rank. */
  lemma {:induction false} LookupFrame(V: Graph, sh: Spans, t: Node, W: Graph, s2: Spans, t2: Node, n: Node, k: int)
    requires Tree(V, sh, t) && Tree(W, s2, t2) && Covers(sh, n, k) && Agree(V, sh, W, s2, n)
    requires forall m {:trigger Agree(V, sh, W, s2, m)} :: m in sh && sh[m].rank < sh[n].rank ==> Agree(V, sh, W, s2, m)
    ensures Lookup(W, s2, t2, n, k) == Lookup(V, sh, t, n, k)
    decreases sh[n].rank
  {
    Step(V, sh, t, n, k);
    Step(W, s2, t2, n, k);
    if !V[n].isLeaf {
      var c := V[n].kids[Slot(V[n].cells, k)];
      assert Agree(V, sh, W, s2, c);
      LookupFrame(V, sh, t, W, s2, t2, c, k);
    }
  }

  // ---------------------------------------------------------------- splits

  lemma GetHalves(cells: seq<KeyValue>, k: int)
    requires Ascending(cells) && |cells| == MAX_KEYS
    ensures Get(cells, k) == if k <= cells[1].key then Get(cells[..2], k) else Get(cells[2..], k)
    ensures k <= cells[1].key ==> Slot(cells[..2], k) == Slot(cells, k) < 2
    ensures cells[1].key < k ==> Slot(cells, k) == Slot(cells[2..], k) + 2
  {
    var i := Slot(cells, k);
    if k <= cells[1].key {
      SlotUnique(cells, k, Slot(cells[..2], k));
    } else {
      SlotUnique(cells, k, Slot(cells[2..], k) + 2);
    }
  }

  lemma SlotWidened(cells: seq<KeyValue>, idx: nat, up: KeyValue, lo: int, hi: int, k: int)
    requires Ascending(cells) && Inside(cells, lo, hi) && idx <= |cells|
      && From(cells, lo, idx) < up.key < To(cells, hi, idx)
    requires lo < k <= hi
    ensures var j := Slot(cells, k);
      Slot(cells[..idx] + [up] + cells[idx..], k) == if j < idx || (j == idx && k <= up.key) then j else j + 1
  {
    WidenedCells(cells, idx, up, lo, hi);
    var j, w := Slot(cells, k), cells[..idx] + [up] + cells[idx..];
    assert forall i {:trigger w[i]} :: 0 <= i < |w| ==>
      w[i] == if i < idx then cells[i] else if i == idx then up else cells[i - 1];
    assert j < idx ==> k <= cells[j].key <= cells[idx - 1].key;
    assert idx < j ==> cells[idx].key <= cells[j - 1].key < k;
    SlotUnique(w, k, if j < idx || (j == idx && k <= up.key) then j else j + 1);
  }

  /** A key of the child that was cut is looked up in the half that has it. */
  lemma CutHalf(V: Graph, sh: Spans, t: Node, x: Cut, k: int)
    requires CutReady(V, sh, t, x) && Covers(sh, x.c, k) && |V[x.p].kids| == |V[x.p].cells| + 1
    requires Tree(CutGraph(V, x), CutSpans(V, sh, x), t)
    requires forall n {:trigger Agree(V, sh, CutGraph(V, x), CutSpans(V, sh, x), n)} ::
      n in sh && n in V && n != x.p ==>
      Agree(V, sh, CutGraph(V, x), CutSpans(V, sh, x), n)
    ensures var h := if k <= V[x.c].cells[1].key then x.l else x.r;
      Covers(CutSpans(V, sh, x), h, k)
        && Lookup(CutGraph(V, x), CutSpans(V, sh, x), t, h, k) == Lookup(V, sh, t, x.c, k)
  {
    CutFacts(V, sh, t, x);
    var W, s2, c := CutGraph(V, x), CutSpans(V, sh, x), V[x.c];
    var h := if k <= c.cells[1].key then x.l else x.r;
    GetHalves(c.cells, k);
    assert s2[x.l] == Span(sh[x.c].lo, c.cells[1].key, sh[x.c].rank)
      && s2[x.r] == Span(c.cells[1].key, sh[x.c].hi, sh[x.c].rank);
    Step(V, sh, t, x.c, k);
    Step(W, s2, t, h, k);
    if !c.isLeaf {
      var i := Slot(c.cells, k);
      var kid := c.kids[i];
      assert W[h].kids[Slot(W[h].cells, k)] == kid;
      assert sh[x.p].rank == sh[x.c].rank + 1;
      hide CutGraph, CutSpans;
      forall m | m in sh && sh[m].rank < sh[kid].rank ensures Agree(V, sh, W, s2, m) { assert Local(V, sh, t, m); }
      assert Agree(V, sh, W, s2, kid);
      LookupFrame(V, sh, t, W, s2, t, kid, k);
    }
  }

  /** A split changes no lookup. */
  lemma {:induction false} CutLookup(V: Graph, sh: Spans, t: Node, x: Cut, n: Node, k: int)
    requires CutReady(V, sh, t, x) && Covers(sh, n, k)
    ensures |V[x.p].kids| == |V[x.p].cells| + 1 && Tree(CutGraph(V, x), CutSpans(V, sh, x), t)
      && Covers(CutSpans(V, sh, x), n, k)
    ensures Lookup(CutGraph(V, x), CutSpans(V, sh, x), t, n, k) == Lookup(V, sh, t, n, k)
    decreases sh[n].rank
  {
    CutFacts(V, sh, t, x);
    CutKeepsTree(V, sh, t, x);
    var W, s2, v := CutGraph(V, x), CutSpans(V, sh, x), V[x.p];
    Step(V, sh, t, n, k);
    Step(W, s2, t, n, k);
    var i := Slot(V[n].cells, k);
    if n == x.p {
      CutChild(V, sh, t, x, k);
      hide CutGraph, CutSpans, Widened, CutReady, Tree, NodeOk, LeftOf, RightOf;
      if i == x.idx {
        forall m | m in sh && m in V && m != x.p ensures Agree(V, sh, W, s2, m) {}
        CutHalf(V, sh, t, x, k);
      } else {
        CutLookup(V, sh, t, x, v.kids[i], k);
      }
    } else if !V[n].isLeaf {
      hide CutGraph, CutSpans, Widened, CutReady, Tree, NodeOk, LeftOf, RightOf;
      CutLookup(V, sh, t, x, V[n].kids[i], k);
    }
  }

  /** Which child of the widened parent a lookup takes. */
  lemma CutChild(V: Graph, sh: Spans, t: Node, x: Cut, k: int)
    requires CutReady(V, sh, t, x) && Covers(sh, x.p, k)
    ensures |V[x.p].kids| == |V[x.p].cells| + 1
    ensures var W, v := CutGraph(V, x), V[x.p];
      var i := Slot(v.cells, k);
      && Slot(W[x.p].cells, k) < |W[x.p].kids|
      && W[x.p].kids[Slot(W[x.p].cells, k)] ==
         if i == x.idx then (if k <= V[x.c].cells[1].key then x.l else x.r) else v.kids[i]
  {
    CutFacts(V, sh, t, x);
    SlotWidened(V[x.p].cells, x.idx, V[x.c].cells[1], sh[x.p].lo, sh[x.p].hi, k);
  }

  // ---------------------------------------------------------------- a new root

  ghost function OverRoot(V: Graph, t: Node, v: Node): Graph {
    V[v := Val(false, [], [t])]
  }

  ghost function OverSpans(sh: Spans, t: Node, v: Node): Spans
    requires t in sh
  {
    sh[v := Span(BELOW_ALL, LARGEST, sh[t].rank + 1)]
  }

  /** A virtual root over the full one: the same lookups. */
  lemma OverKeepsTree(V: Graph, sh: Spans, t: Node, v: Node, k: Int)
    requires Tree(V, sh, t) && v !in sh
    ensures Tree(OverRoot(V, t, v), OverSpans(sh, t, v), v)
    ensures Covers(sh, t, k) && Lookup(OverRoot(V, t, v), OverSpans(sh, t, v), v, v, k) == Lookup(V, sh, t, t, k)
  {
    var W, s2 := OverRoot(V, t, v), OverSpans(sh, t, v);
    forall n | n in s2 ensures Local(W, s2, v, n) {
      if n == v {
        assert Local(V, sh, t, t);
        assert KidOk(W[v], s2, v, 0);
      } else {
        assert Local(V, sh, t, n);
        if Live(sh, n) && !V[n].isLeaf {
          forall i | 0 <= i <= |V[n].cells| ensures KidOk(W[n], s2, n, i) { assert KidOk(V[n], sh, n, i); }
        }
      }
    }
    Step(W, s2, v, v, k);
    forall m | m in sh ensures Agree(V, sh, W, s2, m) { assert Local(V, sh, t, m); }
    LookupFrame(V, sh, t, W, s2, v, t, k);
  }

  /** The old root's node takes over what the virtual root holds. */
  ghost predicate Renamed(V: Graph, sh: Spans, v: Node, t: Node) {
    && Tree(V, sh, v) && Live(sh, t) && sh[t].rank + 1 == sh[v].rank && t != v && v in V && |V[v].cells| > 0
    && !V[v].isLeaf
    && (forall n {:trigger sh[n]} :: n in sh && n != v ==> sh[n].rank < sh[v].rank)
    && forall i {:trigger V[v].kids[i]} :: 0 <= i < |V[v].kids| ==> V[v].kids[i] != t
  }

  ghost function RenamedGraph(V: Graph, v: Node, t: Node): Graph
    requires v in V
  {
    (V - {v})[t := V[v]]
  }

  ghost function RenamedSpans(sh: Spans, v: Node, t: Node): Spans
    requires v in sh
  {
    (sh - {v})[t := sh[v]]
  }

  lemma RenameLocal(V: Graph, sh: Spans, v: Node, t: Node, n: Node)
    requires Renamed(V, sh, v, t) && n in sh && n != v
    ensures Local(RenamedGraph(V, v, t), RenamedSpans(sh, v, t), t, n)
  {
    var W, s2 := RenamedGraph(V, v, t), RenamedSpans(sh, v, t);
    var o := if n == t then v else n;
    assert Local(V, sh, v, o) && Local(V, sh, v, v);
    if Live(sh, o) && !V[o].isLeaf {
      forall i | 0 <= i <= |V[o].cells| ensures KidOk(W[n], s2, n, i) {
        assert KidOk(V[o], sh, o, i);
        assert o != v ==> sh[o].rank < sh[v].rank;
      }
    }
  }

  lemma RenameKeepsTree(V: Graph, sh: Spans, v: Node, t: Node, k: Int)
    requires Renamed(V, sh, v, t)
    ensures Tree(RenamedGraph(V, v, t), RenamedSpans(sh, v, t), t) && Covers(RenamedSpans(sh, v, t), t, k)
      && Covers(sh, v, k)
    ensures Lookup(RenamedGraph(V, v, t), RenamedSpans(sh, v, t), t, t, k) == Lookup(V, sh, v, v, k)
  {
    var W, s2 := RenamedGraph(V, v, t), RenamedSpans(sh, v, t);
    forall n | n in s2 ensures Local(W, s2, t, n) { RenameLocal(V, sh, v, t, n); }
    Step(V, sh, v, v, k);
    Step(W, s2, t, t, k);
    var c := V[v].kids[Slot(V[v].cells, k)];
    assert sh[c].rank < sh[v].rank;
    forall m | m in sh && m != t && m != v ensures Agree(V, sh, W, s2, m) { assert Local(V, sh, v, m); }
    assert c != t;
    LookupFrameBut(V, sh, v, W, s2, t, c, k, t);
  }

  /** The same, where one node that is as high as `n` may differ. */
  lemma LookupFrameBut(V: Graph, sh: Spans, t: Node, W: Graph, s2: Spans, t2: Node, n: Node, k: int, z: Node)
    requires Tree(V, sh, t) && Tree(W, s2, t2) && Covers(sh, n, k) && z in sh && n != z && sh[n].rank <= sh[z].rank
    requires forall m {:trigger Agree(V, sh, W, s2, m)} :: m in sh && m != z && m != t ==> Agree(V, sh, W, s2, m)
    requires n != t && t in sh && sh[n].rank < sh[t].rank
    ensures Covers(s2, n, k) && Lookup(W, s2, t2, n, k) == Lookup(V, sh, t, n, k)
  {
    assert Agree(V, sh, W, s2, n);
    LookupFrame(V, sh, t, W, s2, t2, n, k);
  }

  // ---------------------------------------------------------------- a leaf's cells

  /** Only the keys that a leaf answers for see its new cells. */
  lemma {:induction false} LeafSet(V: Graph, sh: Spans, t: Node, l: Node, v: Val, n: Node, k: int)
    requires Tree(V, sh, t) && Live(sh, l) && l in V && V[l].isLeaf && v.isLeaf && NodeOk(v, sh, l) && Covers(sh, n, k)
    ensures Tree(V[l := v], sh, t)
    ensures Lookup(V[l := v], sh, t, n, k) ==
      if LeafAt(V, sh, t, n, k) == l then Get(v.cells, k) else Lookup(V, sh, t, n, k)
    decreases sh[n].rank
  {
    var W := V[l := v];
    forall m | m in sh ensures Local(W, sh, t, m) { assert Local(V, sh, t, m); }
    Step(V, sh, t, n, k);
    Step(W, sh, t, n, k);
    if !V[n].isLeaf { LeafSet(V, sh, t, l, v, V[n].kids[Slot(V[n].cells, k)], k); }
  }

  lemma GetAt(cells: seq<KeyValue>, i: nat)
    requires Ascending(cells) && i < |cells|
    ensures Slot(cells, cells[i].key) == i && Get(cells, cells[i].key) == Some(cells[i].value)
  {
    SlotUnique(cells, cells[i].key, i);
  }

  lemma GetInserted(cells: seq<KeyValue>, i: nat, c: KeyValue, k: int)
    requires Ascending(cells) && i <= |cells| && (i > 0 ==> cells[i - 1].key < c.key)
      && (i < |cells| ==> c.key < cells[i].key)
    ensures var w := cells[..i] + [c] + cells[i..];
      Ascending(w) && Get(w, k) == if k == c.key then Some(c.value) else Get(cells, k)
  {
    var w := cells[..i] + [c] + cells[i..];
    AscendingWith(cells, i, c);
    hide Ascending;
    if k == c.key {
      GetAt(w, i);
    } else {
      var s := Slot(cells, k);
      SlotInserted(cells, i, c, k);
      hide Slot;
      assert s < i ==> w[s] == cells[s];
      assert i <= s < |cells| ==> w[s + 1] == cells[s];
    }
  }

  lemma SlotInserted(cells: seq<KeyValue>, i: nat, c: KeyValue, k: int)
    requires Ascending(cells) && i <= |cells| && (i > 0 ==> cells[i - 1].key < c.key)
      && (i < |cells| ==> c.key < cells[i].key) && k != c.key
    ensures var w, s := cells[..i] + [c] + cells[i..], Slot(cells, k);
      if k < c.key then s <= i && Slot(w, k) == s else s >= i && Slot(w, k) == s + 1
  {
    var w := cells[..i] + [c] + cells[i..];
    AscendingWith(cells, i, c);
    var s := Slot(cells, k);
    assert s < i ==> cells[s].key <= cells[i - 1].key;
    if k < c.key {
      SlotUnique(w, k, s);
    } else {
      SlotUnique(w, k, s + 1);
    }
  }

  lemma AscendingWith(cells: seq<KeyValue>, i: nat, c: KeyValue)
    requires Ascending(cells) && i <= |cells| && (i > 0 ==> cells[i - 1].key < c.key)
      && (i < |cells| ==> c.key < cells[i].key)
    ensures Ascending(cells[..i] + [c] + cells[i..])
  {
    var w := cells[..i] + [c] + cells[i..];
    assert forall j {:trigger w[j]} :: 0 <= j < |w| ==>
      w[j] == if j < i then cells[j] else if j == i then c else cells[j - 1];
    forall a, b | 0 <= a < b < |w| ensures w[a].key < w[b].key {
      assert a < i - 1 ==> cells[a].key < cells[i - 1].key;
      assert i < b - 1 ==> cells[i].key < cells[b - 1].key;
    }
  }

  lemma GetDeleted(cells: seq<KeyValue>, i: nat, k: int)
    requires Ascending(cells) && i < |cells|
    ensures var w := cells[..i] + cells[i + 1..];
      Ascending(w) && Get(w, k) == if k == cells[i].key then None else Get(cells, k)
  {
    var w := cells[..i] + cells[i + 1..];
    assert forall j {:trigger w[j]} :: 0 <= j < |w| ==> w[j] == if j < i then cells[j] else cells[j + 1];
    var s := Slot(cells, k);
    SlotUnique(w, k, if s <= i then s else s - 1);
  }

  // ---------------------------------------------------------------- which keys, and how many

  ghost predicate KeysIn(V: Graph, sh: Spans, used: set<int>) {
    forall n, i {:trigger V[n].cells[i]} :: n in sh && n in V && 0 <= i < |V[n].cells| ==> V[n].cells[i].key in used
  }

  /** Live nodes below the root have two keys at least, which a search finds; an interior root has one. */
  ghost predicate Filled(V: Graph, sh: Spans, t: Node) {
    && (forall n {:trigger Live(sh, n)} :: Live(sh, n) && n in V && n != t ==>
          |V[n].cells| >= 2 && (V[n].isLeaf ==> sh[n].lo < V[n].cells[0].key))
    && (t in V && !V[t].isLeaf ==> V[t].cells != [])
  }

  function Pow2(n: nat): nat {
    if n == 0 then 1 else 2 * Pow2(n - 1)
  }

  /** The keys that lookups below `n` find. */
  ghost function KeysBelow(V: Graph, sh: Spans, t: Node, n: Node): set<int>
    requires Tree(V, sh, t) && n in sh
  {
    set k: int | sh[n].lo < k <= sh[n].hi && Covers(sh, n, k) && Lookup(V, sh, t, n, k).Some?
  }

  lemma TwoDisjoint(a: set<int>, b: set<int>, c: set<int>)
    requires a <= c && b <= c && a !! b
    ensures |a| + |b| <= |c|
  {
    assert |a + b| == |a| + |b|;
    assert c == (a + b) + (c - (a + b));
  }

  lemma KidKeys(V: Graph, sh: Spans, t: Node, n: Node, i: nat)
    requires Tree(V, sh, t) && Live(sh, n) && n in V && !V[n].isLeaf && i <= |V[n].cells|
    ensures i < |V[n].kids| && V[n].kids[i] in sh && sh[V[n].kids[i]].lo == From(V[n].cells, sh[n].lo, i)
      && sh[V[n].kids[i]].hi == To(V[n].cells, sh[n].hi, i)
    ensures KeysBelow(V, sh, t, V[n].kids[i]) <= KeysBelow(V, sh, t, n)
  {
    assert Local(V, sh, t, n);
    assert KidOk(V[n], sh, n, i);
    var c := V[n].kids[i];
    forall k | k in KeysBelow(V, sh, t, c) ensures k in KeysBelow(V, sh, t, n) {
      Step(V, sh, t, n, k);
      SlotUnique(V[n].cells, k, i);
    }
  }

  /** A live node of height r below the root has at least 2^(r+1) keys under it, so every descent is logarithmic. */
  lemma {:induction false} ManyKeys(V: Graph, sh: Spans, t: Node, n: Node)
    requires Tree(V, sh, t) && Filled(V, sh, t) && Live(sh, n) && n in V && (n != t || !V[n].isLeaf)
    ensures |KeysBelow(V, sh, t, n)| >= Pow2(sh[n].rank + 1)
    decreases sh[n].rank
  {
    assert Local(V, sh, t, n);
    var v := V[n];
    if v.isLeaf {
      LeafKeys(V, sh, t, n);
    } else {
      KidKeys(V, sh, t, n, 0);
      KidKeys(V, sh, t, n, 1);
      var a, b := v.kids[0], v.kids[1];
      assert KidOk(v, sh, n, 0) && KidOk(v, sh, n, 1);
      assert Local(V, sh, t, a) && Local(V, sh, t, b);
      ManyKeys(V, sh, t, a);
      ManyKeys(V, sh, t, b);
      assert sh[a].hi == sh[b].lo;
      TwoDisjoint(KeysBelow(V, sh, t, a), KeysBelow(V, sh, t, b), KeysBelow(V, sh, t, n));
    }
  }

  lemma LeafKeys(V: Graph, sh: Spans, t: Node, n: Node)
    requires Tree(V, sh, t) && Live(sh, n) && n in V && V[n].isLeaf && |V[n].cells| >= 2 && sh[n].lo < V[n].cells[0].key
    ensures |KeysBelow(V, sh, t, n)| >= 2
  {
    assert Local(V, sh, t, n);
    var c := V[n].cells;
    GetAt(c, 0);
    GetAt(c, 1);
    assert {c[0].key, c[1].key} <= KeysBelow(V, sh, t, n);
    assert KeysBelow(V, sh, t, n) == {c[0].key, c[1].key} + (KeysBelow(V, sh, t, n) - {c[0].key, c[1].key});
  }

  // ---------------------------------------------------------------- the path of a descent

  /** The descent for `k` from `n` passes `m`. */
  ghost predicate OnPath(V: Graph, sh: Spans, t: Node, n: Node, m: Node, k: int)
    requires Tree(V, sh, t) && Covers(sh, n, k)
    decreases sh[n].rank
  {
    Step(V, sh, t, n, k);
    n == m || (!V[n].isLeaf && OnPath(V, sh, t, V[n].kids[Slot(V[n].cells, k)], m, k))
  }

  lemma {:induction false} PathEnds(V: Graph, sh: Spans, t: Node, n: Node, m: Node, k: int)
    requires Tree(V, sh, t) && Covers(sh, n, k) && OnPath(V, sh, t, n, m, k)
    ensures Covers(sh, m, k) && LeafAt(V, sh, t, n, k) == LeafAt(V, sh, t, m, k)
    decreases sh[n].rank
  {
    Step(V, sh, t, n, k);
    if n != m { PathEnds(V, sh, t, V[n].kids[Slot(V[n].cells, k)], m, k); }
  }

  lemma {:induction false} PathOn(V: Graph, sh: Spans, t: Node, n: Node, m: Node, k: int)
    requires Tree(V, sh, t) && Covers(sh, n, k) && OnPath(V, sh, t, n, m, k) && m in V && !V[m].isLeaf
    ensures Slot(V[m].cells, k) < |V[m].kids| && V[m].kids[Slot(V[m].cells, k)] != null
    ensures OnPath(V, sh, t, n, V[m].kids[Slot(V[m].cells, k)], k)
    decreases sh[n].rank
  {
    Step(V, sh, t, n, k);
    var c := V[n].kids[Slot(V[n].cells, k)];
    if n != m {
      PathOn(V, sh, t, c, m, k);
    }
  }

  /** Splitting a child of a node on the path leaves the node on the path. */
  lemma {:induction false} CutPath(V: Graph, sh: Spans, t: Node, x: Cut, n: Node, k: int)
    requires CutReady(V, sh, t, x) && Covers(sh, n, k) && OnPath(V, sh, t, n, x.p, k)
    requires |V[x.p].kids| == |V[x.p].cells| + 1 && Tree(CutGraph(V, x), CutSpans(V, sh, x), t)
    ensures Covers(CutSpans(V, sh, x), n, k) && OnPath(CutGraph(V, x), CutSpans(V, sh, x), t, n, x.p, k)
    decreases sh[n].rank
  {
    CutFacts(V, sh, t, x);
    var W, s2 := CutGraph(V, x), CutSpans(V, sh, x);
    Step(V, sh, t, n, k);
    Step(W, s2, t, n, k);
    hide CutGraph, CutSpans, CutReady, Widened, LeftOf, RightOf, NodeOk;
    if n != x.p { CutPath(V, sh, t, x, V[n].kids[Slot(V[n].cells, k)], k); }
  }

  // ---------------------------------------------------------------- keys and fill through a split

  lemma CutKeysIn(V: Graph, sh: Spans, t: Node, x: Cut, used: set<int>)
    requires CutReady(V, sh, t, x) && KeysIn(V, sh, used) && x.dead.cells == []
    ensures |V[x.p].kids| == |V[x.p].cells| + 1 && KeysIn(CutGraph(V, x), CutSpans(V, sh, x), used)
  {
    CutFacts(V, sh, t, x);
    var W, s2, v, c := CutGraph(V, x), CutSpans(V, sh, x), V[x.p], V[x.c];
    forall n, i | n in s2 && n in W && 0 <= i < |W[n].cells| ensures W[n].cells[i].key in used {
      if n == x.p {
        assert W[n].cells[i] == if i < x.idx then v.cells[i] else if i == x.idx then c.cells[1] else v.cells[i - 1];
      } else if n == x.l {
        assert W[n].cells[i] == c.cells[i];
      } else if n == x.r {
        assert W[n].cells[i] == c.cells[i + 2];
      } else if n in sh {
        assert n in V && W[n] == V[n];
      }
    }
  }

  lemma CutFilled(V: Graph, sh: Spans, t: Node, x: Cut)
    requires CutReady(V, sh, t, x) && Filled(V, sh, t)
    ensures |V[x.p].kids| == |V[x.p].cells| + 1 && Filled(CutGraph(V, x), CutSpans(V, sh, x), t)
  {
    CutFacts(V, sh, t, x);
    var W, s2, v, c := CutGraph(V, x), CutSpans(V, sh, x), V[x.p], V[x.c];
    assert t in V by { assert Local(V, sh, t, t); }
    forall n: Node | Live(s2, n) && n in W && n != t
      ensures |W[n].cells| >= 2 && (W[n].isLeaf ==> s2[n].lo < W[n].cells[0].key)
    {
      if n in sh && n != x.p {
        assert Live(sh, n) && n in V by { assert Local(V, sh, t, n); }
      } else if n == x.p {
        assert Live(sh, n);
      } else if n == x.r {
        assert W[n].cells[0] == c.cells[2];
      } else {
        assert n == x.l && W[n].cells[0] == c.cells[0] && x.c != t by { assert Local(V, sh, t, x.p); }
      }
    }
  }

  // ---------------------------------------------------------------- a split root, all in all

  ghost predicate RootCut(V: Graph, sh: Spans, t: Node, x: Cut) {
    && Tree(V, sh, t) && t in V && Full(V[t]) && x.p !in sh && x.idx == 0 && x.c == t && x.dead.cells == []
    && x.l !in sh && x.r !in sh && x.l != x.r && x.l != x.p && x.r != x.p
    && (if V[t].isLeaf then x.d == null else x.d != null && x.d !in sh && x.d != x.l && x.d != x.r && x.d != x.p)
  }

  ghost function RootGraph(V: Graph, sh: Spans, t: Node, x: Cut): Graph
    requires RootCut(V, sh, t, x)
  {
    var W := CutGraph(OverRoot(V, t, x.p), x);
    RenamedGraph(W, x.p, t)
  }

  ghost function RootSpans(V: Graph, sh: Spans, t: Node, x: Cut): Spans
    requires RootCut(V, sh, t, x)
  {
    var s := CutSpans(OverRoot(V, t, x.p), OverSpans(sh, t, x.p), x);
    RenamedSpans(s, x.p, t)
  }

  lemma RootCutReady(V: Graph, sh: Spans, t: Node, x: Cut)
    requires RootCut(V, sh, t, x)
    ensures CutReady(OverRoot(V, t, x.p), OverSpans(sh, t, x.p), x.p, x)
  {
    assert Local(V, sh, t, t);
    OverKeepsTree(V, sh, t, x.p, 0);
  }

  lemma RootRenamed(V: Graph, sh: Spans, t: Node, x: Cut)
    requires RootCut(V, sh, t, x)
    ensures Renamed(CutGraph(OverRoot(V, t, x.p), x), CutSpans(OverRoot(V, t, x.p), OverSpans(sh, t, x.p), x), x.p, t)
  {
    var V1, s1 := OverRoot(V, t, x.p), OverSpans(sh, t, x.p);
    RootCutReady(V, sh, t, x);
    CutKeepsTree(V1, s1, x.p, x);
    CutFacts(V1, s1, x.p, x);
    var W, s2 := CutGraph(V1, x), CutSpans(V1, s1, x);
    assert W[x.p].kids == [x.l, x.r];
    forall n | n in s2 && n != x.p ensures s2[n].rank < s2[x.p].rank {
      if n in sh { assert Local(V, sh, t, n); }
    }
    hide Tree, CutReady;
  }

  /** Splitting a full root in place keeps the tree and every lookup. */
  lemma RootSplitKeeps(V: Graph, sh: Spans, t: Node, x: Cut, k: Int)
    requires RootCut(V, sh, t, x)
    ensures Tree(RootGraph(V, sh, t, x), RootSpans(V, sh, t, x), t)
    ensures Covers(sh, t, k) && Covers(RootSpans(V, sh, t, x), t, k)
    ensures Lookup(RootGraph(V, sh, t, x), RootSpans(V, sh, t, x), t, t, k) == Lookup(V, sh, t, t, k)
  {
    var V1, s1 := OverRoot(V, t, x.p), OverSpans(sh, t, x.p);
    OverKeepsTree(V, sh, t, x.p, k);
    RootCutReady(V, sh, t, x);
    CutLookup(V1, s1, x.p, x, x.p, k);
    RootRenamed(V, sh, t, x);
    RenameKeepsTree(CutGraph(V1, x), CutSpans(V1, s1, x), x.p, t, k);
    hide CutGraph, CutSpans, Tree, CutReady, Renamed, OverRoot, OverSpans;
  }

  lemma RootSplitKeys(V: Graph, sh: Spans, t: Node, x: Cut, used: set<int>)
    requires RootCut(V, sh, t, x) && KeysIn(V, sh, used)
    ensures KeysIn(RootGraph(V, sh, t, x), RootSpans(V, sh, t, x), used)
    ensures Filled(V, sh, t) ==> Filled(RootGraph(V, sh, t, x), RootSpans(V, sh, t, x), t)
  {
    var V1, s1 := OverRoot(V, t, x.p), OverSpans(sh, t, x.p);
    RootCutReady(V, sh, t, x);
    CutKeysIn(V1, s1, x.p, x, used);
    CutFacts(V1, s1, x.p, x);
    var W, s2 := CutGraph(V1, x), CutSpans(V1, s1, x);
    assert W[x.p].cells == [V[t].cells[1]];
    var W3, s3 := RenamedGraph(W, x.p, t), RenamedSpans(s2, x.p, t);
    if Filled(V, sh, t) {
      forall n: Node | Live(s3, n) && n in W3 && n != t
        ensures |W3[n].cells| >= 2 && (W3[n].isLeaf ==> s3[n].lo < W3[n].cells[0].key)
      {
        if n in sh { assert Live(sh, n); assert Local(V, sh, t, n); }
        if n == x.r { assert W3[n].cells[0] == V[t].cells[2]; }
        if n == x.l { assert W3[n].cells[0] == V[t].cells[0]; }
      }
    }
  }
}
