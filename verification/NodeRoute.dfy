/** Where an insert ends up in the in-memory tree. It compares with `<=` where search and delete compare with `<`,
    so a separator equal to the key leads it away from the leaf that they look in. */
module NodeRoute {
  import opened Options
  import opened NodeTree
  import opened NodeLookup

  ghost predicate NotAmong(cells: seq<KeyValue>, key: int) {
    forall i {:trigger cells[i]} :: 0 <= i < |cells| ==> cells[i].key != key
  }

  /** How many cells have a key up to `key`. */
  function Gap(cells: seq<KeyValue>, key: int): (i: nat)
    ensures i <= |cells|
  {
    if cells == [] || cells[|cells| - 1].key <= key then |cells| else Gap(cells[..|cells| - 1], key)
  }

  lemma {:induction false} GapIs(cells: seq<KeyValue>, key: int, i: nat)
    requires Ascending(cells) && i <= |cells|
    requires (i > 0 ==> cells[i - 1].key <= key) && (i < |cells| ==> key < cells[i].key)
    ensures Gap(cells, key) == i
  {
    if i < |cells| {
      assert i < |cells| - 1 ==> cells[i].key < cells[|cells| - 1].key;
      GapIs(cells[..|cells| - 1], key, i);
    }
  }

  /** Insert goes down where search and delete go, except at a node with the very key as a separator:
      there it goes one child further right. */
  lemma WaysPart(cells: seq<KeyValue>, key: int)
    requires Ascending(cells)
    ensures Gap(cells, key) == Slot(cells, key) <==> NotAmong(cells, key)
    ensures Gap(cells, key) == Slot(cells, key) + if NotAmong(cells, key) then 0 else 1
  {
    var i := Slot(cells, key);
    if NotAmong(cells, key) {
      GapIs(cells, key, i);
    } else {
      var j :| 0 <= j < |cells| && cells[j].key == key;
      SlotUnique(cells, key, j);
      GapIs(cells, key, j + 1);
    }
  }

  // ---------------------------------------------------------------- the route of an insert

  /** To the leaf where a search looks; to a leaf right of it; to an empty placeholder leaf; or to a child
      pointer of a placeholder that nobody has set. */
  datatype Way = Direct | Strayed | Parked | Unset

  /** The node is full and the split on the way down sends this very key up. */
  predicate SendsUp(cells: seq<KeyValue>, k: int) {
    |cells| == MAX_KEYS && cells[1].key == k
  }

  /** The route of an insert of `k`, read off the search path for `k` before the insert. */
  ghost function Route(V: Graph, sh: Spans, t: Node, n: Node, k: int): Way
    requires Tree(V, sh, t) && Covers(sh, n, k)
    decreases sh[n].rank
  {
    Step(V, sh, t, n, k);
    if V[n].isLeaf then (if n == t && SendsUp(V[n].cells, k) then Strayed else Direct)
    else if NotAmong(V[n].cells, k) then Route(V, sh, t, V[n].kids[Slot(V[n].cells, k)], k)
    else if n == t || !SendsUp(V[n].cells, k) then Strayed
    else if sh[n].rank == 1 then Parked
    else Unset
  }

  /** A route below the root depends on the nodes below it only. */
  lemma {:induction false} RouteFrame(V: Graph, sh: Spans, t: Node, W: Graph, s2: Spans, n: Node, k: int)
    requires Tree(V, sh, t) && Tree(W, s2, t) && Covers(sh, n, k) && n != t && Agree(V, sh, W, s2, n)
    requires forall m {:trigger Agree(V, sh, W, s2, m)} :: m in sh && sh[m].rank < sh[n].rank ==> Agree(V, sh, W, s2, m)
    ensures Route(W, s2, t, n, k) == Route(V, sh, t, n, k)
    decreases sh[n].rank
  {
    Step(V, sh, t, n, k);
    Step(W, s2, t, n, k);
    if !V[n].isLeaf {
      var c := V[n].kids[Slot(V[n].cells, k)];
      assert Agree(V, sh, W, s2, c) && Local(V, sh, t, n);
      RouteFrame(V, sh, t, W, s2, c, k);
    }
  }

  lemma AmongHalves(c: Val, k: int)
    requires Full(c) && Ascending(c.cells)
    ensures NotAmong(c.cells, k) ==> NotAmong(c.cells[..2], k) && NotAmong(c.cells[2..], k)
    ensures !NotAmong(c.cells, k) ==> !NotAmong(if k <= c.cells[1].key then c.cells[..2] else c.cells[2..], k)
  {
    if !NotAmong(c.cells, k) {
      var i :| 0 <= i < |c.cells| && c.cells[i].key == k;
      if k <= c.cells[1].key {
        assert c.cells[..2][i] == c.cells[i];
      } else {
        assert c.cells[2..][i - 2] == c.cells[i];
      }
    }
  }

  /** Below a node without the key, the half that answers for it leads where the whole node would have led. */
  lemma HalfBelow(V: Graph, sh: Spans, t: Node, W: Graph, s2: Spans, n: Node, h: Node, d: Node?, k: int)
    requires Tree(V, sh, t) && Tree(W, s2, t) && Covers(sh, n, k) && Covers(s2, h, k) && n in V && h in W
    requires !V[n].isLeaf && Full(V[n]) && NotAmong(V[n].cells, k)
    requires W[h] == if k <= V[n].cells[1].key then LeftOf(V[n], d) else RightOf(V[n])
    requires forall m {:trigger Agree(V, sh, W, s2, m)} :: m in sh && sh[m].rank < sh[n].rank ==> Agree(V, sh, W, s2, m)
    ensures Route(W, s2, t, h, k) == Route(V, sh, t, n, k)
  {
    var c := V[n];
    Step(V, sh, t, n, k);
    Step(W, s2, t, h, k);
    GetHalves(c.cells, k);
    AmongHalves(c, k);
    var kid := c.kids[Slot(c.cells, k)];
    assert W[h].kids[Slot(W[h].cells, k)] == kid;
    hide NotAmong;
    assert Agree(V, sh, W, s2, kid) && Local(V, sh, t, n);
    RouteFrame(V, sh, t, W, s2, kid, k);
  }

  /** A route goes on through the half that it would have gone through uncut, unless the very key went up. */
  lemma RouteHalf(V: Graph, sh: Spans, t: Node, x: Cut, k: int)
    requires CutReady(V, sh, t, x) && Covers(sh, x.c, k) && (V[x.c].isLeaf || V[x.c].cells[1].key != k)
    ensures |V[x.p].kids| == |V[x.p].cells| + 1 && Tree(CutGraph(V, x), CutSpans(V, sh, x), t)
    ensures var h := if k <= V[x.c].cells[1].key then x.l else x.r;
      && x.c != t && h != t && Covers(CutSpans(V, sh, x), h, k)
      && Route(CutGraph(V, x), CutSpans(V, sh, x), t, h, k) == Route(V, sh, t, x.c, k)
  {
    CutKeepsTree(V, sh, t, x);
    var W, s2, c := CutGraph(V, x), CutSpans(V, sh, x), V[x.c];
    var h := if k <= c.cells[1].key then x.l else x.r;
    HalfIs(V, sh, t, x, k);
    AmongHalves(c, k);
    hide CutGraph, CutSpans, CutReady, NodeOk, KidOk;
    Step(V, sh, t, x.c, k);
    Step(W, s2, t, h, k);
    if !c.isLeaf && NotAmong(c.cells, k) {
      HalfBelow(V, sh, t, W, s2, x.c, h, x.d, k);
    }
  }

  /** The half that answers for the key, and what is below it. */
  lemma HalfIs(V: Graph, sh: Spans, t: Node, x: Cut, k: int)
    requires CutReady(V, sh, t, x) && Covers(sh, x.c, k)
    ensures |V[x.p].kids| == |V[x.p].cells| + 1 && Full(V[x.c]) && Ascending(V[x.c].cells) && x.c in V && x.c in sh
      && x.c != t
    ensures var W, s2, c := CutGraph(V, x), CutSpans(V, sh, x), V[x.c];
      var h := if k <= c.cells[1].key then x.l else x.r;
      && h != t && h in W && h in s2 && Covers(s2, h, k)
      && W[h] == (if k <= c.cells[1].key then LeftOf(c, x.d) else RightOf(c))
      && forall m {:trigger Agree(V, sh, W, s2, m)} :: m in sh && sh[m].rank < sh[x.c].rank ==> Agree(V, sh, W, s2, m)
  {
    CutFacts(V, sh, t, x);
    var W, s2 := CutGraph(V, x), CutSpans(V, sh, x);
    assert s2[x.l] == Span(sh[x.c].lo, V[x.c].cells[1].key, sh[x.c].rank)
      && s2[x.r] == Span(V[x.c].cells[1].key, sh[x.c].hi, sh[x.c].rank);
    assert sh[x.p].rank == sh[x.c].rank + 1 && Local(V, sh, t, x.p) && Local(V, sh, t, x.c);
    hide CutGraph, CutSpans, NodeOk, KidOk, LeftOf, RightOf, Widened;
    forall m | m in sh && sh[m].rank < sh[x.c].rank ensures Agree(V, sh, W, s2, m) { assert Local(V, sh, t, m); }
  }

  /** What a split of the root leaves, node by node. */
  ghost predicate RootHalved(V: Graph, sh: Spans, t: Node, x: Cut, W: Graph, s2: Spans) {
    && RootCut(V, sh, t, x) && Tree(W, s2, t) && x.l in s2 && x.r in s2 && x.l in W && x.r in W && t in W
    && W[t] == Widened(Val(false, [], [t]), 0, V[t].cells[1], x.l, x.r) && W[x.l] == LeftOf(V[t], x.d)
    && W[x.r] == RightOf(V[t])
    && s2[x.l] == Span(BELOW_ALL, V[t].cells[1].key, sh[t].rank)
    && s2[x.r] == Span(V[t].cells[1].key, LARGEST, sh[t].rank)
    && forall m {:trigger Agree(V, sh, W, s2, m)} :: m in sh && m != t ==> Agree(V, sh, W, s2, m)
  }

  /** A split of the root does not change the route. */
  lemma RouteRoot(V: Graph, sh: Spans, t: Node, x: Cut, W: Graph, s2: Spans, k: Int)
    requires RootHalved(V, sh, t, x, W, s2)
    ensures Covers(sh, t, k) && Covers(s2, t, k) && Route(W, s2, t, t, k) == Route(V, sh, t, t, k)
  {
    var c := V[t];
    Step(V, sh, t, t, k);
    Step(W, s2, t, t, k);
    assert W[t].cells == [c.cells[1]] && W[t].kids == [x.l, x.r];
    assert NotAmong(W[t].cells, k) <==> c.cells[1].key != k by { assert W[t].cells[0] == c.cells[1]; }
    AmongHalves(c, k);
    if k != c.cells[1].key {
      var h := if k < c.cells[1].key then x.l else x.r;
      SlotUnique(W[t].cells, k, if h == x.l then 0 else 1);
      Step(W, s2, t, h, k);
      if !c.isLeaf && NotAmong(c.cells, k) {
        forall m | m in sh && sh[m].rank < sh[t].rank ensures Agree(V, sh, W, s2, m) {}
        HalfBelow(V, sh, t, W, s2, t, h, x.d, k);
      }
    }
  }

  // ---------------------------------------------------------------- which keys go the direct way

  /** An interior node on the search path has the key as a separator. */
  ghost predicate Barred(V: Graph, sh: Spans, t: Node, k: int) {
    exists n {:trigger Bars(V, sh, t, n, k)} :: n in V && Bars(V, sh, t, n, k)
  }

  ghost predicate Bars(V: Graph, sh: Spans, t: Node, n: Node, k: int) {
    Tree(V, sh, t) && Covers(sh, t, k) && n in V && !V[n].isLeaf && !NotAmong(V[n].cells, k)
      && OnPath(V, sh, t, t, n, k)
  }

  /** Below `n` some interior node on the path has the key. */
  lemma {:induction false} RouteBarred(V: Graph, sh: Spans, t: Node, n: Node, k: int) returns (b: Node)
    requires Tree(V, sh, t) && Covers(sh, n, k) && Route(V, sh, t, n, k) != Direct && n in V && !(V[n].isLeaf && n == t)
    ensures b in V && !V[b].isLeaf && !NotAmong(V[b].cells, k) && OnPath(V, sh, t, n, b, k)
    decreases sh[n].rank
  {
    Step(V, sh, t, n, k);
    if NotAmong(V[n].cells, k) {
      var c := V[n].kids[Slot(V[n].cells, k)];
      assert c != t by { assert Local(V, sh, t, n); }
      b := RouteBarred(V, sh, t, c, k);
    } else {
      b := n;
    }
  }

  lemma {:induction false} BarredRoute(V: Graph, sh: Spans, t: Node, n: Node, k: int, b: Node)
    requires Tree(V, sh, t) && Covers(sh, n, k) && b in V && !V[b].isLeaf && !NotAmong(V[b].cells, k)
      && OnPath(V, sh, t, n, b, k)
    ensures Route(V, sh, t, n, k) != Direct
    decreases sh[n].rank
  {
    Step(V, sh, t, n, k);
    if n != b && NotAmong(V[n].cells, k) {
      BarredRoute(V, sh, t, V[n].kids[Slot(V[n].cells, k)], k, b);
    }
  }

  /** A key that is not stored goes the direct way if and only if no interior node on its search path,
      full or not, has it as a separator. */
  lemma DirectExactly(V: Graph, sh: Spans, t: Node, k: Int)
    requires Tree(V, sh, t) && Covers(sh, t, k) && Lookup(V, sh, t, t, k) == None
    ensures Route(V, sh, t, t, k) == Direct <==> !Barred(V, sh, t, k)
  {
    Step(V, sh, t, t, k);
    if Route(V, sh, t, t, k) != Direct {
      if V[t].isLeaf {
        GetAt(V[t].cells, 1);
      } else {
        var b := RouteBarred(V, sh, t, t, k);
        assert Bars(V, sh, t, b, k);
      }
    }
    if Barred(V, sh, t, k) {
      var b :| b in V && Bars(V, sh, t, b, k);
      BarredRoute(V, sh, t, t, k, b);
    }
  }

  /** A key that no node holds goes the direct way. */
  lemma {:induction false} UnusedIsDirect(V: Graph, sh: Spans, t: Node, n: Node, k: int, used: set<int>)
    requires Tree(V, sh, t) && Covers(sh, n, k) && KeysIn(V, sh, used) && k !in used
    ensures Route(V, sh, t, n, k) == Direct
    decreases sh[n].rank
  {
    Step(V, sh, t, n, k);
    assert forall i {:trigger V[n].cells[i]} :: 0 <= i < |V[n].cells| ==> V[n].cells[i].key in used;
    if !V[n].isLeaf { UnusedIsDirect(V, sh, t, V[n].kids[Slot(V[n].cells, k)], k, used); }
  }
}
