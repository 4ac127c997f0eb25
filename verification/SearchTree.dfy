/** Search trees whose nodes are pages: what it means for a page graph to be one, which leaf a
    descent reaches, and why splitting a page and re-homing a root keep it a search tree. */
module SearchTree {
  import opened Options
  import opened Nodes

  /** Where a page sits: the keys it answers for are lo <= k < hi, ranks fall from parent to child,
      `par` is the page that really lists it (its stored parent link may say something else). */
  datatype Info = Info(lo: int, hi: int, rank: nat, par: Page)
  type Shape = map<Page, Info>

  /** Table trees order keys by value; an index orders row ids by the position of their record. */
  datatype Order = Natural | Ranked(at: map<Key, int>)

  function Ord(o: Order, k: Key): int {
    match o
    case Natural => k
    case Ranked(at) => if k in at then at[k] else 0
  }

  /** A table separator is also the first key to its right; an index separator is a key of its own. */
  function Gap(o: Order): int {
    if o.Natural? then 0 else 1
  }

  function K(o: Order, n: Node, i: int): int
    requires 0 <= i < |n.cells|
  {
    Ord(o, n.cells[i].key)
  }

  function LoAt(o: Order, n: Node, lo: int, i: int): int
    requires 0 <= i <= |n.cells|
  {
    if i == 0 then lo else K(o, n, i - 1) + Gap(o)
  }

  function HiAt(o: Order, n: Node, hi: int, i: int): int
    requires 0 <= i <= |n.cells|
  {
    if i == |n.cells| then hi else K(o, n, i)
  }

  predicate Sorted(o: Order, n: Node) {
    forall i, j {:trigger K(o, n, i), K(o, n, j)} :: 0 <= i < j < |n.cells| ==> K(o, n, i) < K(o, n, j)
  }

  predicate Within(o: Order, n: Node, lo: int, hi: int) {
    lo < hi && forall i {:trigger K(o, n, i)} :: 0 <= i < |n.cells| ==> lo <= K(o, n, i) < hi
  }

  predicate KindOk(o: Order, n: Node) {
    && (n.kind == TableLeaf || n.kind == TableInterior <==> o.Natural?)
    && |n.kids| == (if n.kind == TableLeaf then 1 else |n.cells| + 1)
  }

  predicate KidOk(o: Order, n: Node, p: Page, sh: Shape, i: int)
    requires p in sh && 0 <= i <= |n.cells| < |n.kids|
  {
    && n.kids[i] in sh
    && sh[n.kids[i]].lo == LoAt(o, n, sh[p].lo, i)
    && sh[n.kids[i]].hi == HiAt(o, n, sh[p].hi, i)
    && sh[n.kids[i]].rank < sh[p].rank
    && sh[n.kids[i]].par == p
  }

  predicate KidsOk(o: Order, n: Node, p: Page, sh: Shape)
    requires p in sh && KindOk(o, n)
  {
    !IsLeaf(n) ==> forall i {:trigger KidOk(o, n, p, sh, i)} :: 0 <= i <= |n.cells| ==> KidOk(o, n, p, sh, i)
  }

  /** Every page but the root is listed by its parent, and none reaches outside the root's span. */
  predicate Linked(V: map<Page, Node>, sh: Shape, root: Page, p: Page)
    requires p in sh && root in sh
  {
    && sh[p].rank <= sh[root].rank
    && sh[root].lo <= sh[p].lo && sh[p].hi <= sh[root].hi
    && (p != root ==>
          sh[p].par in sh && sh[p].par in V && !IsLeaf(V[sh[p].par]) && p in V[sh[p].par].kids)
  }

  predicate Local(o: Order, V: map<Page, Node>, sh: Shape, root: Page, p: Page)
    requires p in sh && root in sh
  {
    && p in V
    && KindOk(o, V[p]) && Sorted(o, V[p]) && Within(o, V[p], sh[p].lo, sh[p].hi)
    && KidsOk(o, V[p], p, sh)
    && Linked(V, sh, root, p)
  }

  ghost predicate Tree(o: Order, V: map<Page, Node>, sh: Shape, root: Page) {
    && root in sh
    && forall p {:trigger Local(o, V, sh, root, p)} :: p in sh ==> Local(o, V, sh, root, p)
  }

  /** Only what the pages of `sh` hold matters, and their stored parent links do not. */
  lemma TreeFrame(o: Order, V: map<Page, Node>, W: map<Page, Node>, sh: Shape, root: Page)
    requires Tree(o, V, sh, root)
    requires forall p :: p in sh ==> p in V && p in W && SameButParent(V[p], W[p])
    ensures Tree(o, W, sh, root)
  {
    forall p | p in sh ensures Local(o, W, sh, root, p) {
      assert Local(o, V, sh, root, p);
      forall i | 0 <= i < |W[p].cells| ensures K(o, W[p], i) == K(o, V[p], i) {}
      if !IsLeaf(W[p]) {
        forall i | 0 <= i <= |W[p].cells| ensures KidOk(o, W[p], p, sh, i) {
          assert KidOk(o, V[p], p, sh, i);
        }
      }
    }
  }

  // ---------------------------------------------------------------- descents

  /** The child that a descent for `k` takes: the first separator above `k`. */
  function ChildFor(o: Order, n: Node, k: int): (i: int)
    ensures 0 <= i <= |n.cells|
    ensures forall j {:trigger K(o, n, j)} :: 0 <= j < i ==> K(o, n, j) <= k
    ensures i < |n.cells| ==> k < K(o, n, i)
  {
    ChildFrom(o, n, k, 0)
  }

  function ChildFrom(o: Order, n: Node, k: int, from: nat): (i: int)
    requires from <= |n.cells|
    requires forall j {:trigger K(o, n, j)} :: 0 <= j < from ==> K(o, n, j) <= k
    ensures from <= i <= |n.cells|
    ensures forall j {:trigger K(o, n, j)} :: 0 <= j < i ==> K(o, n, j) <= k
    ensures i < |n.cells| ==> k < K(o, n, i)
    decreases |n.cells| - from
  {
    if from == |n.cells| || k < K(o, n, from) then from else ChildFrom(o, n, k, from + 1)
  }

  ghost function Reach(o: Order, V: map<Page, Node>, sh: Shape, root: Page, p: Page, k: int): (l: Page)
    requires Tree(o, V, sh, root) && p in sh
    decreases sh[p].rank
  {
    assert Local(o, V, sh, root, p);
    if IsLeaf(V[p]) then p
    else
      var i := ChildFor(o, V[p], k);
      assert KidOk(o, V[p], p, sh, i);
      Reach(o, V, sh, root, V[p].kids[i], k)
  }

  predicate Covers(o: Order, sh: Shape, p: Page, k: int)
    requires p in sh
  {
    sh[p].lo <= k < sh[p].hi
  }

  /** A child's span is part of its parent's. */
  lemma KidSpan(o: Order, V: map<Page, Node>, sh: Shape, root: Page, p: Page, i: int)
    requires Tree(o, V, sh, root) && p in sh && p in V && !IsLeaf(V[p])
    requires 0 <= i <= |V[p].cells|
    ensures |V[p].cells| < |V[p].kids| && KidOk(o, V[p], p, sh, i)
    ensures sh[p].lo <= sh[V[p].kids[i]].lo && sh[V[p].kids[i]].hi <= sh[p].hi
  {
    assert Local(o, V, sh, root, p);
    assert KidOk(o, V[p], p, sh, i);
    if 0 < i { assert sh[p].lo <= K(o, V[p], i - 1); }
    if i < |V[p].cells| { assert K(o, V[p], i) < sh[p].hi; }
  }

  predicate Lacks(o: Order, n: Node, k: int) {
    forall j {:trigger K(o, n, j)} :: 0 <= j < |n.cells| ==> K(o, n, j) != k
  }

  lemma ChildForCovers(o: Order, n: Node, lo: int, hi: int, k: int)
    requires lo <= k < hi && (o.Natural? || Lacks(o, n, k))
    ensures var i := ChildFor(o, n, k); LoAt(o, n, lo, i) <= k < HiAt(o, n, hi, i)
  {}

  lemma ChildForUnique(o: Order, n: Node, lo: int, hi: int, k: int, i: int)
    requires Sorted(o, n) && 0 <= i <= |n.cells|
    requires LoAt(o, n, lo, i) <= k < HiAt(o, n, hi, i)
    ensures ChildFor(o, n, k) == i
  {
    var c := ChildFor(o, n, k);
    assert 0 < i ==> K(o, n, i - 1) < k || (o.Natural? && K(o, n, i - 1) == k);
  }

  lemma KidsDistinct(o: Order, V: map<Page, Node>, sh: Shape, root: Page, p: Page)
    requires Tree(o, V, sh, root) && p in sh && p in V && !IsLeaf(V[p])
    ensures |V[p].kids| == |V[p].cells| + 1
    ensures forall i, j {:trigger V[p].kids[i], V[p].kids[j]} :: 0 <= i < j <= |V[p].cells| ==>
      V[p].kids[i] != V[p].kids[j]
  {
    assert Local(o, V, sh, root, p);
    forall i, j | 0 <= i < j <= |V[p].cells| ensures V[p].kids[i] != V[p].kids[j] {
      assert KidOk(o, V[p], p, sh, i) && KidOk(o, V[p], p, sh, j);
      assert K(o, V[p], i) < HiAt(o, V[p], sh[p].hi, j);
    }
  }

  /** A page that answers for `k` lies on the descent for `k` from the root. */
  lemma {:induction false} ReachUnique(o: Order, V: map<Page, Node>, sh: Shape, root: Page, p: Page, k: int)
    requires Tree(o, V, sh, root) && p in sh && Covers(o, sh, p, k)
    ensures Reach(o, V, sh, root, root, k) == Reach(o, V, sh, root, p, k)
    decreases sh[root].rank - sh[p].rank
  {
    assert Local(o, V, sh, root, p);
    if p != root {
      var q := sh[p].par;
      assert Local(o, V, sh, root, q);
      var i :| 0 <= i < |V[q].kids| && V[q].kids[i] == p;
      KidSpan(o, V, sh, root, q, i);
      ChildForUnique(o, V[q], sh[q].lo, sh[q].hi, k, i);
      ReachUnique(o, V, sh, root, q, k);
    }
  }

  /** The key `k` has a place at a leaf: always so in a table tree, in an index only when no node holds it yet. */
  ghost predicate Fresh(o: Order, V: map<Page, Node>, sh: Shape, k: int) {
    o.Natural? || forall p {:trigger V[p]} :: p in sh && p in V ==> Lacks(o, V[p], k)
  }

  /** A descent ends at a leaf that answers for the key. */
  lemma {:induction false} ReachCovers(o: Order, V: map<Page, Node>, sh: Shape, root: Page, p: Page, k: int)
    requires Tree(o, V, sh, root) && p in sh && Covers(o, sh, p, k) && Fresh(o, V, sh, k)
    ensures var l := Reach(o, V, sh, root, p, k);
      l in sh && l in V && IsLeaf(V[l]) && Covers(o, sh, l, k)
      && sh[p].lo <= sh[l].lo && sh[l].hi <= sh[p].hi
    decreases sh[p].rank
  {
    assert Local(o, V, sh, root, p);
    if !IsLeaf(V[p]) {
      var i := ChildFor(o, V[p], k);
      KidSpan(o, V, sh, root, p, i);
      ChildForCovers(o, V[p], sh[p].lo, sh[p].hi, k);
      ReachCovers(o, V, sh, root, V[p].kids[i], k);
    }
  }

  // ---------------------------------------------------------------- splitting a page

  /** The key cut out of `n` lies strictly inside its span and separates its two halves. */
  lemma SplitHalves(o: Order, n: Node, q: Page, lo: int, hi: int)
    requires Saturated(n) && KindOk(o, n) && Sorted(o, n) && Within(o, n, lo, hi)
    ensures lo < Ord(o, SplitKey(n)) && Ord(o, SplitKey(n)) + Gap(o) < hi
    ensures KindOk(o, SplitLeft(n, q)) && Sorted(o, SplitLeft(n, q))
    ensures Within(o, SplitLeft(n, q), lo, Ord(o, SplitKey(n)))
    ensures KindOk(o, SplitRight(n)) && Sorted(o, SplitRight(n))
    ensures Within(o, SplitRight(n), Ord(o, SplitKey(n)) + Gap(o), hi)
  {
    var l, r := SplitLeft(n, q), SplitRight(n);
    var d := if n.kind == TableLeaf then 2 else 3;
    assert forall i {:trigger K(o, l, i)} :: 0 <= i < |l.cells| ==> K(o, l, i) == K(o, n, i);
    assert forall i {:trigger K(o, r, i)} :: 0 <= i < |r.cells| ==> K(o, r, i) == K(o, n, i + d);
    assert K(o, n, 0) < K(o, n, 1) < K(o, n, 2) < K(o, n, 3);
    assert n.kind != TableLeaf && o.Natural? ==> K(o, n, 3) >= K(o, n, 2) + 1;
  }

  function KAfter(o: Order, n: Node, pos: nat, k: Key, i: int): int
    requires 0 <= i <= |n.cells| && pos <= |n.cells|
  {
    if i < pos then K(o, n, i) else if i == pos then Ord(o, k) else K(o, n, i - 1)
  }

  /** Putting a key where it belongs keeps a node's keys ascending. */
  lemma InsertSorted(o: Order, n: Node, m: Node, pos: nat, c: Cell, lo: int, hi: int)
    requires pos <= |n.cells| && m.cells == n.cells[..pos] + [c] + n.cells[pos..]
    requires Sorted(o, n) && Within(o, n, lo, hi)
    requires lo <= Ord(o, c.key) < hi
    requires 0 < pos ==> K(o, n, pos - 1) < Ord(o, c.key)
    requires pos < |n.cells| ==> Ord(o, c.key) < K(o, n, pos)
    ensures |m.cells| == |n.cells| + 1
    ensures forall i {:trigger K(o, m, i)} :: 0 <= i < |m.cells| ==> K(o, m, i) == KAfter(o, n, pos, c.key, i)
    ensures Sorted(o, m) && Within(o, m, lo, hi)
  {
    forall i | 0 <= i < |m.cells| ensures K(o, m, i) == KAfter(o, n, pos, c.key, i) {}
    forall i, j | 0 <= i < j < |m.cells| ensures K(o, m, i) < K(o, m, j) {
      KeysAfterClimb(o, n, pos, c.key, i, j);
    }
    forall i | 0 <= i < |m.cells| ensures lo <= K(o, m, i) < hi {}
    hide K, KAfter;
  }

  lemma KeysAfterClimb(o: Order, n: Node, pos: nat, key: Key, i: nat, j: nat)
    requires pos <= |n.cells| && Sorted(o, n) && i < j <= |n.cells|
    requires 0 < pos ==> K(o, n, pos - 1) < Ord(o, key)
    requires pos < |n.cells| ==> Ord(o, key) < K(o, n, pos)
    ensures KAfter(o, n, pos, key, i) < KAfter(o, n, pos, key, j)
  {
    hide K;
    assert i < pos - 1 ==> K(o, n, i) < K(o, n, pos - 1);
    assert pos < j - 1 ==> K(o, n, pos) < K(o, n, j - 1);
  }

  function AfterSplit(V: map<Page, Node>, p: Page, a: Page, pos: nat, q: Page): map<Page, Node>
    requires p in V && a in V && Saturated(V[p])
    requires pos <= |V[a].cells| && |V[a].kids| == |V[a].cells| + 1
  {
    V[p := SplitLeft(V[p], q)][q := SplitRight(V[p])][a := InsertKid(V[a], pos, SplitKey(V[p]), q)]
  }

  /** `p` is cut at `mid`, its right half is page `q` below `a`, and the pages of `spine` now end at `mid`. */
  function SplitShape(sh: Shape, p: Page, a: Page, q: Page, mid: int, gap: int, spine: set<Page>,
                      moved: seq<Page>): Shape
    requires p in sh
  {
    map x | x in sh.Keys + {q} ::
      if x == q then Info(mid + gap, sh[p].hi, sh[p].rank, a)
      else Info(sh[x].lo, if x in spine then mid else sh[x].hi, sh[x].rank, if x in moved then q else sh[x].par)
  }

  function Moved(n: Node): seq<Page>
    requires Saturated(n)
  {
    if IsLeaf(n) then [] else n.kids[3..]
  }

  /** The pages from the child of `a` at `pos` down to `p` along last children: they share `p`'s upper bound. */
  predicate SpineMember(V: map<Page, Node>, sh: Shape, p: Page, a: Page, pos: nat, spine: set<Page>, z: Page)
    requires p in sh && a in V
  {
    && z in sh && sh[z].hi == sh[p].hi && sh[z].lo <= sh[p].lo && z != a
    && sh[z].par in V
    && ((sh[z].par == a && pos < |V[a].kids| && z == V[a].kids[pos])
        || (sh[z].par in spine && sh[z].par != p && sh[z].par != a && |V[sh[z].par].kids| > 0
            && z == V[sh[z].par].kids[|V[sh[z].par].kids| - 1]))
    && (z != p ==> z in V && !IsLeaf(V[z]) && |V[z].kids| > 0 && V[z].kids[|V[z].kids| - 1] in spine)
  }

  predicate SpineOk(V: map<Page, Node>, sh: Shape, p: Page, a: Page, pos: nat, spine: set<Page>)
    requires p in sh && a in V
  {
    && p in spine
    && pos < |V[a].kids| && V[a].kids[pos] in spine
    && forall z {:trigger z in spine} :: z in spine ==> SpineMember(V, sh, p, a, pos, spine, z)
  }

  ghost predicate SplitReady(o: Order, V: map<Page, Node>, sh: Shape, root: Page, p: Page, a: Page, pos: nat, q: Page,
                             spine: set<Page>)
  {
    && Tree(o, V, sh, root)
    && p in sh && p in V && Saturated(V[p]) && p != root && root !in spine
    && a in sh && a in V && a != p && !IsLeaf(V[a]) && KindOk(o, V[a]) && pos <= |V[a].cells|
    && sh[p].rank < sh[a].rank
    && q !in sh && q !in V
    && SpineOk(V, sh, p, a, pos, spine)
  }

  ghost function NewShape(o: Order, V: map<Page, Node>, sh: Shape, p: Page, a: Page, q: Page, spine: set<Page>): Shape
    requires p in sh && p in V && Saturated(V[p])
  {
    SplitShape(sh, p, a, q, Ord(o, SplitKey(V[p])), Gap(o), spine, Moved(V[p]))
  }

  /** The children of the page being cut keep their spans. */
  lemma KidNotInSpine(o: Order, V: map<Page, Node>, sh: Shape, root: Page, p: Page, a: Page, pos: nat, q: Page,
                      spine: set<Page>, i: nat)
    requires SplitReady(o, V, sh, root, p, a, pos, q, spine) && !IsLeaf(V[p])
    requires i <= |V[p].cells|
    ensures i < |V[p].kids| && V[p].kids[i] !in spine
  {
    assert Local(o, V, sh, root, p);
    assert KidOk(o, V[p], p, sh, i);
    assert V[p].kids[i] in spine ==> SpineMember(V, sh, p, a, pos, spine, V[p].kids[i]);
  }

  lemma SplitLeftLocal(o: Order, V: map<Page, Node>, sh: Shape, root: Page, p: Page, a: Page, pos: nat, q: Page,
                       spine: set<Page>)
    requires SplitReady(o, V, sh, root, p, a, pos, q, spine)
    ensures Local(o, AfterSplit(V, p, a, pos, q), NewShape(o, V, sh, p, a, q, spine), root, p)
  {
    var W, ns := AfterSplit(V, p, a, pos, q), NewShape(o, V, sh, p, a, q, spine);
    assert Local(o, V, sh, root, p);
    SplitHalves(o, V[p], q, sh[p].lo, sh[p].hi);
    hide Sorted, Within;
    assert KidsOk(o, W[p], p, ns) by {
      if !IsLeaf(V[p]) {
        KidsDistinct(o, V, sh, root, p);
        forall i | 0 <= i <= |W[p].cells| ensures KidOk(o, W[p], p, ns, i) {
          assert KidOk(o, V[p], p, sh, i);
          KidNotInSpine(o, V, sh, root, p, a, pos, q, spine, i);
        }
      }
    }
    SplitLinked(o, V, sh, root, p, a, pos, q, spine, p);
  }

  lemma SplitRightLocal(o: Order, V: map<Page, Node>, sh: Shape, root: Page, p: Page, a: Page, pos: nat, q: Page,
                        spine: set<Page>)
    requires SplitReady(o, V, sh, root, p, a, pos, q, spine)
    ensures Local(o, AfterSplit(V, p, a, pos, q), NewShape(o, V, sh, p, a, q, spine), root, q)
  {
    var W, ns := AfterSplit(V, p, a, pos, q), NewShape(o, V, sh, p, a, q, spine);
    assert Local(o, V, sh, root, p);
    SplitHalves(o, V[p], q, sh[p].lo, sh[p].hi);
    hide Sorted, Within;
    assert KidsOk(o, W[q], q, ns) by {
      if !IsLeaf(V[p]) {
        forall i | 0 <= i <= |W[q].cells| ensures KidOk(o, W[q], q, ns, i) {
          assert KidOk(o, V[p], p, sh, i + 3);
          KidNotInSpine(o, V, sh, root, p, a, pos, q, spine, i + 3);
          assert Moved(V[p])[i] == V[p].kids[i + 3];
        }
      }
    }
    SplitLinked(o, V, sh, root, p, a, pos, q, spine, q);
  }

  /** After the cut every page is still listed by its parent and inside the root's span. */
  lemma SplitLinked(o: Order, V: map<Page, Node>, sh: Shape, root: Page, p: Page, a: Page, pos: nat, q: Page,
                    spine: set<Page>, x: Page)
    requires SplitReady(o, V, sh, root, p, a, pos, q, spine)
    requires x in sh || x == q
    ensures Linked(AfterSplit(V, p, a, pos, q), NewShape(o, V, sh, p, a, q, spine), root, x)
  {
    var W, ns := AfterSplit(V, p, a, pos, q), NewShape(o, V, sh, p, a, q, spine);
    assert Local(o, V, sh, root, p);
    SplitHalves(o, V[p], q, sh[p].lo, sh[p].hi);
    hide Sorted, Within, KidsOk;
    if x == q {
      assert W[a].kids[pos + 1] == q;
    } else if x in Moved(V[p]) {
      assert x in W[q].kids;
      assert Local(o, V, sh, root, x);
    } else {
      StillLinked(o, V, sh, root, p, a, pos, q, spine, x);
    }
  }

  /** A child that does not move with the right half is still listed where it was. */
  lemma StillListed(V: map<Page, Node>, p: Page, a: Page, pos: nat, q: Page, y: Page, x: Page)
    requires p in V && a in V && p != a && Saturated(V[p]) && pos <= |V[a].cells| && |V[a].kids| == |V[a].cells| + 1
      && q !in V
    requires y in V && x in V[y].kids && x !in Moved(V[p]) && !IsLeaf(V[y])
    ensures var W := AfterSplit(V, p, a, pos, q); y in W && x in W[y].kids
  {
    var W := AfterSplit(V, p, a, pos, q);
    var i :| 0 <= i < |V[y].kids| && V[y].kids[i] == x;
    if y == a {
      hide SplitLeft, SplitRight;
      assert W[a].kids[if i <= pos then i else i + 1] == x;
    } else if y == p {
      assert forall t {:trigger V[p].kids[t]} :: 3 <= t < |V[p].kids| ==> Moved(V[p])[t - 3] == V[p].kids[t];
      assert W[p].kids[i] == x;
    }
  }

  /** A page that keeps its parent is still linked to it. */
  lemma StillLinked(o: Order, V: map<Page, Node>, sh: Shape, root: Page, p: Page, a: Page, pos: nat, q: Page,
                    spine: set<Page>, x: Page)
    requires SplitReady(o, V, sh, root, p, a, pos, q, spine)
    requires x in sh && x != q && x !in Moved(V[p]) && sh[p].lo < Ord(o, SplitKey(V[p])) < sh[p].hi
    ensures Linked(AfterSplit(V, p, a, pos, q), NewShape(o, V, sh, p, a, q, spine), root, x)
  {
    assert Local(o, V, sh, root, x);
    assert x in spine ==> SpineMember(V, sh, p, a, pos, spine, x);
    if x != root { StillListed(V, p, a, pos, q, sh[x].par, x); }
    hide Sorted, Within, KidsOk, Tree, SpineOk, SplitLeft, SplitRight, InsertKid, Moved, SpineMember;
  }

  lemma SplitParentLocal(o: Order, V: map<Page, Node>, sh: Shape, root: Page, p: Page, a: Page, pos: nat, q: Page,
                         spine: set<Page>)
    requires SplitReady(o, V, sh, root, p, a, pos, q, spine)
    ensures Local(o, AfterSplit(V, p, a, pos, q), NewShape(o, V, sh, p, a, q, spine), root, a)
  {
    var W, ns := AfterSplit(V, p, a, pos, q), NewShape(o, V, sh, p, a, q, spine);
    assert Local(o, V, sh, root, a);
    SplitSeparators(o, V, sh, root, p, a, pos, q, spine);
    SplitLinked(o, V, sh, root, p, a, pos, q, spine, a);
    hide Sorted, Within;
    forall i | 0 <= i <= |W[a].cells| ensures KidOk(o, W[a], a, ns, i) {
      SplitParentKid(o, V, sh, root, p, a, pos, q, spine, i);
    }
  }

  lemma SplitParentKid(o: Order, V: map<Page, Node>, sh: Shape, root: Page, p: Page, a: Page, pos: nat, q: Page,
                       spine: set<Page>, i: nat)
    requires SplitReady(o, V, sh, root, p, a, pos, q, spine)
    requires i <= |V[a].cells| + 1
    ensures KidOk(o, AfterSplit(V, p, a, pos, q)[a], a, NewShape(o, V, sh, p, a, q, spine), i)
  {
    var W, ns := AfterSplit(V, p, a, pos, q), NewShape(o, V, sh, p, a, q, spine);
    var n, m, j, mid := V[a], W[a], if i <= pos then i else i - 1, Ord(o, SplitKey(V[p]));
    assert KindOk(o, n) && KidOk(o, n, a, sh, j) by { assert Local(o, V, sh, root, a); }
    assert n.kids[j] in spine <==> j == pos by { OnlyPosInSpine(o, V, sh, root, p, a, pos, q, spine, j); }
    assert n.kids[j] !in Moved(V[p]) by { OnlyPosInSpine(o, V, sh, root, p, a, pos, q, spine, j); }
    assert j == pos ==> sh[n.kids[j]].hi == sh[p].hi by {
      assert j == pos ==> SpineMember(V, sh, p, a, pos, spine, n.kids[j]);
    }
    assert |m.cells| == |n.cells| + 1 && KindOk(o, m) && m.kids[i] == (if i == pos + 1 then q else n.kids[j]);
    assert LoAt(o, m, sh[a].lo, i) == if i == pos + 1 then mid + Gap(o) else LoAt(o, n, sh[a].lo, j) by {
      SplitSeparators(o, V, sh, root, p, a, pos, q, spine);
    }
    assert HiAt(o, m, sh[a].hi, i) == if i == pos then mid else HiAt(o, n, sh[a].hi, j) by {
      SplitSeparators(o, V, sh, root, p, a, pos, q, spine);
    }
    assert a !in spine by { SplitSeparators(o, V, sh, root, p, a, pos, q, spine); }
    assert a in ns && ns[a].lo == sh[a].lo && ns[a].hi == sh[a].hi && ns[a].rank == sh[a].rank;
    assert n.kids[j] != q;
    hide Sorted, Within, Tree, SpineOk, LoAt, HiAt, KindOk, AfterSplit;
  }

  /** `mid` falls between the separators around `pos`. */
  lemma SplitSeparators(o: Order, V: map<Page, Node>, sh: Shape, root: Page, p: Page, a: Page, pos: nat, q: Page,
                        spine: set<Page>)
    requires SplitReady(o, V, sh, root, p, a, pos, q, spine)
    ensures var W := AfterSplit(V, p, a, pos, q);
      && |W[a].cells| == |V[a].cells| + 1
      && Sorted(o, W[a]) && Within(o, W[a], sh[a].lo, sh[a].hi)
      && forall i {:trigger K(o, W[a], i)} :: 0 <= i < |W[a].cells| ==>
           K(o, W[a], i) == KAfter(o, V[a], pos, SplitKey(V[p]), i)
    ensures a !in spine
  {
    var W := AfterSplit(V, p, a, pos, q);
    assert Local(o, V, sh, root, p);
    assert Local(o, V, sh, root, a);
    SplitHalves(o, V[p], q, sh[p].lo, sh[p].hi);
    assert SpineMember(V, sh, p, a, pos, spine, V[a].kids[pos]);
    assert KidOk(o, V[a], a, sh, pos);
    assert a in spine ==> SpineMember(V, sh, p, a, pos, spine, a);
    InsertSorted(o, V[a], W[a], pos, Cell(SplitKey(V[p]), []), sh[a].lo, sh[a].hi);
  }

  lemma OnlyPosInSpine(o: Order, V: map<Page, Node>, sh: Shape, root: Page, p: Page, a: Page, pos: nat, q: Page,
                       spine: set<Page>, i: nat)
    requires SplitReady(o, V, sh, root, p, a, pos, q, spine)
    requires i <= |V[a].cells|
    ensures V[a].kids[i] in spine <==> i == pos
    ensures !IsLeaf(V[p]) ==> V[a].kids[i] !in Moved(V[p])
  {
    assert Local(o, V, sh, root, a);
    assert KidOk(o, V[a], a, sh, i);
    KidsDistinct(o, V, sh, root, a);
    assert V[a].kids[i] in spine ==> SpineMember(V, sh, p, a, pos, spine, V[a].kids[i]);
    assert Local(o, V, sh, root, p);
    if !IsLeaf(V[p]) {
      assert KidOk(o, V[p], p, sh, 3) && KidOk(o, V[p], p, sh, 4);
    }
  }

  lemma SplitOtherLocal(o: Order, V: map<Page, Node>, sh: Shape, root: Page, p: Page, a: Page, pos: nat, q: Page,
                        spine: set<Page>, x: Page)
    requires SplitReady(o, V, sh, root, p, a, pos, q, spine)
    requires x in sh && x != p && x != a
    ensures Local(o, AfterSplit(V, p, a, pos, q), NewShape(o, V, sh, p, a, q, spine), root, x)
  {
    var W, ns := AfterSplit(V, p, a, pos, q), NewShape(o, V, sh, p, a, q, spine);
    assert Local(o, V, sh, root, x);
    SplitLinked(o, V, sh, root, p, a, pos, q, spine, x);
    assert W[x] == V[x];
    assert Within(o, W[x], sh[x].lo, ns[x].hi) by {
      if x in spine { SpineWithin(o, V, sh, root, p, a, pos, q, spine, x); }
    }
    hide Sorted, Within;
    if !IsLeaf(V[x]) {
      forall i | 0 <= i <= |W[x].cells| ensures KidOk(o, W[x], x, ns, i) {
        assert KidOk(o, V[x], x, sh, i);
        SpineKid(o, V, sh, root, p, a, pos, q, spine, x, i);
      }
    }
  }

  /** Sorted keys are bounded by the last one. */
  lemma WithinLast(o: Order, n: Node, lo: int, hi: int, mid: int)
    requires Sorted(o, n) && Within(o, n, lo, hi) && lo < mid && (|n.cells| > 0 ==> K(o, n, |n.cells| - 1) < mid)
    ensures Within(o, n, lo, mid)
  {
    forall i | 0 <= i < |n.cells| ensures lo <= K(o, n, i) < mid {
      if i < |n.cells| - 1 { assert K(o, n, i) < K(o, n, |n.cells| - 1); }
    }
  }

  /** A spine page above `p` holds only separators below `p`'s span. */
  lemma SpineWithin(o: Order, V: map<Page, Node>, sh: Shape, root: Page, p: Page, a: Page, pos: nat, q: Page,
                    spine: set<Page>, x: Page)
    requires SplitReady(o, V, sh, root, p, a, pos, q, spine)
    requires x in spine && x != p && x in V && x in sh
    ensures Within(o, V[x], sh[x].lo, Ord(o, SplitKey(V[p])))
  {
    hide *;
    SpineLow(o, V, sh, root, p, a, pos, q, spine);
    SpineLast(o, V, sh, root, p, a, pos, q, spine, x);
    WithinLast(o, V[x], sh[x].lo, sh[x].hi, Ord(o, SplitKey(V[p])));
  }

  lemma SpineLow(o: Order, V: map<Page, Node>, sh: Shape, root: Page, p: Page, a: Page, pos: nat, q: Page,
                 spine: set<Page>)
    requires SplitReady(o, V, sh, root, p, a, pos, q, spine)
    ensures p in sh && p in V && Saturated(V[p]) && sh[p].lo < Ord(o, SplitKey(V[p]))
  {
    assert Local(o, V, sh, root, p);
    hide Tree, SpineOk, KidsOk, Linked;
    SplitHalves(o, V[p], q, sh[p].lo, sh[p].hi);
  }

  /** A spine page's last child is on the spine, so its last separator is not above `p`'s span. */
  lemma SpineLast(o: Order, V: map<Page, Node>, sh: Shape, root: Page, p: Page, a: Page, pos: nat, q: Page,
                  spine: set<Page>, x: Page)
    requires SplitReady(o, V, sh, root, p, a, pos, q, spine) && x in spine && x != p && x in V && x in sh
    ensures p in sh && sh[x].lo <= sh[p].lo && Sorted(o, V[x]) && Within(o, V[x], sh[x].lo, sh[x].hi)
    ensures |V[x].cells| > 0 ==> K(o, V[x], |V[x].cells| - 1) <= sh[p].lo
  {
    hide *;
    ReadySpine(o, V, sh, root, p, a, pos, q, spine, x);
    SpineEnds(V, sh, p, a, pos, spine, x);
    LastKid(o, V, sh, root, x);
  }

  lemma ReadySpine(o: Order, V: map<Page, Node>, sh: Shape, root: Page, p: Page, a: Page, pos: nat, q: Page,
                   spine: set<Page>, x: Page)
    requires SplitReady(o, V, sh, root, p, a, pos, q, spine) && x in sh
    ensures p in sh && p in V && a in V && root in sh && SpineOk(V, sh, p, a, pos, spine)
    ensures Tree(o, V, sh, root) && Local(o, V, sh, root, x) && Saturated(V[p])
  {
    hide SpineOk, Local;
  }

  lemma SpineEnds(V: map<Page, Node>, sh: Shape, p: Page, a: Page, pos: nat, spine: set<Page>, x: Page)
    requires p in sh && a in V && SpineOk(V, sh, p, a, pos, spine) && x in spine && x != p && x in V && x in sh
    ensures !IsLeaf(V[x]) && |V[x].kids| > 0 && sh[x].lo <= sh[p].lo
    ensures var c := V[x].kids[|V[x].kids| - 1]; c in spine && c in sh && sh[c].lo <= sh[p].lo
  {
    var c := V[x].kids[|V[x].kids| - 1];
  }

  lemma LastKid(o: Order, V: map<Page, Node>, sh: Shape, root: Page, x: Page)
    requires x in sh && root in sh && x in V && Local(o, V, sh, root, x) && !IsLeaf(V[x])
    ensures var n := V[x]; |n.kids| == |n.cells| + 1 && n.kids[|n.cells|] in sh
    ensures |V[x].cells| > 0 ==> K(o, V[x], |V[x].cells| - 1) <= sh[V[x].kids[|V[x].cells|]].lo
    ensures Sorted(o, V[x]) && Within(o, V[x], sh[x].lo, sh[x].hi)
  {
    assert KidOk(o, V[x], x, sh, |V[x].cells|);
    hide Sorted, Within, Linked;
  }

  /** Away from the cut, a child is on the spine just when it is the last child of a spine page. */
  lemma SpineKid(o: Order, V: map<Page, Node>, sh: Shape, root: Page, p: Page, a: Page, pos: nat, q: Page,
                 spine: set<Page>, x: Page, i: nat)
    requires SplitReady(o, V, sh, root, p, a, pos, q, spine)
    requires x in sh && x != p && x != a && x in V && !IsLeaf(V[x]) && i <= |V[x].cells|
    ensures i < |V[x].kids|
    ensures V[x].kids[i] in spine <==> x in spine && i == |V[x].cells|
    ensures !IsLeaf(V[p]) ==> V[x].kids[i] !in Moved(V[p])
  {
    hide *;
    ReadySpine(o, V, sh, root, p, a, pos, q, spine, x);
    ReadySpine(o, V, sh, root, p, a, pos, q, spine, p);
    KidsDistinct(o, V, sh, root, x);
    KidPar(o, V, sh, root, x, i);
    SpineParent(V, sh, p, a, pos, spine, x, i);
    if !IsLeaf(V[p]) { MovedPar(o, V, sh, root, p); }
  }

  lemma KidPar(o: Order, V: map<Page, Node>, sh: Shape, root: Page, x: Page, i: nat)
    requires x in sh && root in sh && x in V && Local(o, V, sh, root, x) && !IsLeaf(V[x]) && i <= |V[x].cells|
    ensures |V[x].kids| == |V[x].cells| + 1 && V[x].kids[i] in sh && sh[V[x].kids[i]].par == x
  {
    assert KidOk(o, V[x], x, sh, i);
    hide Sorted, Within, Linked;
  }

  lemma SpineParent(V: map<Page, Node>, sh: Shape, p: Page, a: Page, pos: nat, spine: set<Page>, x: Page, i: nat)
    requires p in sh && a in V && SpineOk(V, sh, p, a, pos, spine) && x in sh && x in V && x != p && x != a
    requires i < |V[x].kids| && V[x].kids[i] in sh && sh[V[x].kids[i]].par == x
    requires forall i, j {:trigger V[x].kids[i], V[x].kids[j]} :: 0 <= i < j < |V[x].kids| ==>
      V[x].kids[i] != V[x].kids[j]
    ensures V[x].kids[i] in spine <==> x in spine && i == |V[x].kids| - 1
  {}

  lemma MovedPar(o: Order, V: map<Page, Node>, sh: Shape, root: Page, p: Page)
    requires p in sh && root in sh && p in V && Local(o, V, sh, root, p) && !IsLeaf(V[p]) && Saturated(V[p])
    ensures forall z {:trigger z in Moved(V[p])} :: z in Moved(V[p]) ==> z in sh && sh[z].par == p
  {
    KidPar(o, V, sh, root, p, 3);
    KidPar(o, V, sh, root, p, 4);
    hide Local;
  }

  /** Cutting a saturated page and hooking its right half in next to it gives a search tree again. */
  lemma SplitKeepsTree(o: Order, V: map<Page, Node>, sh: Shape, root: Page, p: Page, a: Page, pos: nat, q: Page,
                       spine: set<Page>)
    requires SplitReady(o, V, sh, root, p, a, pos, q, spine)
    ensures Tree(o, AfterSplit(V, p, a, pos, q), NewShape(o, V, sh, p, a, q, spine), root)
  {
    var W, ns := AfterSplit(V, p, a, pos, q), NewShape(o, V, sh, p, a, q, spine);
    forall x | x in ns ensures Local(o, W, ns, root, x) {
      if x == p {
        SplitLeftLocal(o, V, sh, root, p, a, pos, q, spine);
      } else if x == q {
        SplitRightLocal(o, V, sh, root, p, a, pos, q, spine);
      } else if x == a {
        SplitParentLocal(o, V, sh, root, p, a, pos, q, spine);
      } else {
        SplitOtherLocal(o, V, sh, root, p, a, pos, q, spine, x);
      }
    }
  }

  // ---------------------------------------------------------------- the keys of a tree

  predicate KeyIn(n: Node, k: Key) {
    exists i :: 0 <= i < |n.cells| && n.cells[i].key == k
  }

  ghost predicate HoldsKey(V: map<Page, Node>, sh: Shape, p: Page, k: Key) {
    p in sh && p in V && KeyIn(V[p], k)
  }

  /** Some page of the tree, leaf or not, holds the key. */
  ghost predicate HasKey(V: map<Page, Node>, sh: Shape, k: Key) {
    exists p {:trigger HoldsKey(V, sh, p, k)} :: HoldsKey(V, sh, p, k)
  }

  ghost predicate KeysKept(V: map<Page, Node>, sh: Shape, V': map<Page, Node>, sh': Shape) {
    forall k {:trigger HasKey(V', sh', k)} :: HasKey(V', sh', k) <==> HasKey(V, sh, k)
  }

  lemma KeysThrough(V: map<Page, Node>, sh: Shape, W: map<Page, Node>, s1: Shape, X: map<Page, Node>, s2: Shape)
    requires KeysKept(V, sh, W, s1) && KeysKept(W, s1, X, s2)
    ensures KeysKept(V, sh, X, s2)
  {
    forall k ensures HasKey(X, s2, k) <==> HasKey(V, sh, k) {
      assert HasKey(W, s1, k) <==> HasKey(V, sh, k);
    }
  }

  lemma SplitKeyIn(n: Node, q: Page, k: Key)
    requires Saturated(n)
    ensures KeyIn(n, k) <==> KeyIn(SplitLeft(n, q), k) || KeyIn(SplitRight(n), k) || k == SplitKey(n)
  {
    var l, r := SplitLeft(n, q), SplitRight(n);
    var d := if n.kind == TableLeaf then 2 else 3;
    if KeyIn(n, k) {
      var i :| 0 <= i < |n.cells| && n.cells[i].key == k;
      assert i < 2 ==> l.cells[i] == n.cells[i];
      assert i >= d ==> r.cells[i - d] == n.cells[i];
    }
    assert n.cells[2].key == SplitKey(n);
  }

  lemma InsertedKeyIn(n: Node, pos: nat, c: Cell, m: Node, k: Key)
    requires pos <= |n.cells| && m.cells == n.cells[..pos] + [c] + n.cells[pos..]
    ensures KeyIn(m, k) <==> KeyIn(n, k) || k == c.key
  {
    if KeyIn(n, k) {
      var i :| 0 <= i < |n.cells| && n.cells[i].key == k;
      assert m.cells[if i < pos then i else i + 1] == n.cells[i];
    }
    assert m.cells[pos] == c;
  }

  /** A split loses no key and makes none up. */
  lemma SplitKeepsKeys(V: map<Page, Node>, sh: Shape, p: Page, a: Page, pos: nat, q: Page, s2: Shape)
    requires p in V && a in V && p != a && Saturated(V[p]) && q !in V && q !in sh
    requires pos <= |V[a].cells| && |V[a].kids| == |V[a].cells| + 1 && p in sh && a in sh && s2.Keys == sh.Keys + {q}
    ensures KeysKept(V, sh, AfterSplit(V, p, a, pos, q), s2)
  {
    var W := AfterSplit(V, p, a, pos, q);
    var c := Cell(SplitKey(V[p]), []);
    forall k ensures HasKey(W, s2, k) <==> HasKey(V, sh, k) {
      SplitKeyIn(V[p], q, k);
      InsertedKeyIn(V[a], pos, c, W[a], k);
      hide KeyIn, SplitLeft, SplitRight;
      if HasKey(W, s2, k) {
        var x :| HoldsKey(W, s2, x, k);
        assert HoldsKey(V, sh, p, k) || HoldsKey(V, sh, a, k) || HoldsKey(V, sh, x, k);
      }
      if HasKey(V, sh, k) {
        var x :| HoldsKey(V, sh, x, k);
        assert HoldsKey(W, s2, p, k) || HoldsKey(W, s2, q, k) || HoldsKey(W, s2, a, k) || HoldsKey(W, s2, x, k);
      }
    }
  }

  lemma MoveKeepsKeys(o: Order, V: map<Page, Node>, sh: Shape, root: Page, home: Page)
    requires root in V && root in sh && home !in sh && home !in V
    ensures KeysKept(V, sh, AfterMove(o, V, root, home), MoveShape(sh, root, home))
  {
    var W, s1 := AfterMove(o, V, root, home), MoveShape(sh, root, home);
    forall k ensures HasKey(W, s1, k) <==> HasKey(V, sh, k) {
      assert !KeyIn(EmptyRoot(o, home), k);
      hide KeyIn;
      if HasKey(W, s1, k) {
        var x :| HoldsKey(W, s1, x, k);
        assert HoldsKey(V, sh, if x == home then root else x, k);
      }
      if HasKey(V, sh, k) {
        var x :| HoldsKey(V, sh, x, k);
        assert HoldsKey(W, s1, if x == root then home else x, k);
      }
    }
  }

  /** Parent links are not keys. */
  lemma SameNodesKeepKeys(V: map<Page, Node>, W: map<Page, Node>, sh: Shape)
    requires V.Keys == W.Keys && forall x {:trigger W[x]} :: x in W ==> SameButParent(W[x], V[x])
    ensures KeysKept(V, sh, W, sh)
  {
    forall k ensures HasKey(W, sh, k) <==> HasKey(V, sh, k) {
      if HasKey(W, sh, k) {
        var x :| HoldsKey(W, sh, x, k);
        assert HoldsKey(V, sh, x, k);
      }
      if HasKey(V, sh, k) {
        var x :| HoldsKey(V, sh, x, k);
        assert HoldsKey(W, sh, x, k);
      }
    }
  }

  // ---------------------------------------------------------------- re-homing the root

  function InteriorKind(o: Order): Kind {
    if o.Natural? then TableInterior else IndexInterior
  }

  function EmptyRoot(o: Order, home: Page): Node {
    Node(NO_PAGE, InteriorKind(o), [], [home])
  }

  function AfterMove(o: Order, V: map<Page, Node>, root: Page, home: Page): map<Page, Node>
    requires root in V
  {
    V[home := V[root]][root := EmptyRoot(o, home)]
  }

  function MoveShape(sh: Shape, root: Page, home: Page): Shape
    requires root in sh
  {
    map x | x in sh.Keys + {home} ::
      if x == home then sh[root].(par := root)
      else if x == root then sh[root].(rank := sh[root].rank + 1)
      else if sh[x].par == root then sh[x].(par := home)
      else sh[x]
  }

  /** The root's old contents move to a fresh page; the root page keeps its number and lists just that page. */
  lemma MoveKeepsTree(o: Order, V: map<Page, Node>, sh: Shape, root: Page, home: Page)
    requires Tree(o, V, sh, root) && home !in sh && home !in V && root in V
    ensures Tree(o, AfterMove(o, V, root, home), MoveShape(sh, root, home), root)
  {
    var W, ns := AfterMove(o, V, root, home), MoveShape(sh, root, home);
    assert Local(o, V, sh, root, root);
    forall x | x in ns ensures Local(o, W, ns, root, x) {
      if x == root {
        assert KidOk(o, W[root], root, ns, 0);
      } else {
        var y := if x == home then root else x;
        assert Local(o, V, sh, root, y);
        hide Sorted, Within;
        if !IsLeaf(W[x]) {
          forall i | 0 <= i <= |W[x].cells| ensures KidOk(o, W[x], x, ns, i) {
            assert KidOk(o, V[y], y, sh, i);
            assert V[y].kids[i] in sh;
            assert Local(o, V, sh, root, V[y].kids[i]);
          }
        }
      }
    }
  }

  /** Writing a leaf with one more key, in its place, keeps the tree. */
  lemma LeafInsertKeepsTree(o: Order, V: map<Page, Node>, sh: Shape, root: Page, l: Page, m: Node, pos: nat, c: Cell)
    requires Tree(o, V, sh, root) && l in sh && l in V && IsLeaf(V[l])
    requires pos <= |V[l].cells| && Covers(o, sh, l, Ord(o, c.key))
    requires 0 < pos ==> K(o, V[l], pos - 1) < Ord(o, c.key)
    requires pos < |V[l].cells| ==> Ord(o, c.key) < K(o, V[l], pos)
    requires m.kind == V[l].kind && KindOk(o, m) && m.cells == V[l].cells[..pos] + [c] + V[l].cells[pos..]
    ensures Tree(o, V[l := m], sh, root)
  {
    var W := V[l := m];
    assert Local(o, V, sh, root, l);
    InsertSorted(o, V[l], m, pos, c, sh[l].lo, sh[l].hi);
    hide Sorted, Within;
    forall x | x in sh ensures Local(o, W, sh, root, x) {
      assert Local(o, V, sh, root, x);
    }
  }

  // ---------------------------------------------------------------- the right edge of a table tree

  /** The pages other than the root that share the root's upper bound. */
  function RightEdge(sh: Shape, root: Page): set<Page>
    requires root in sh
  {
    set x | x in sh && x != root && sh[x].hi == sh[root].hi
  }

  /** They lie on the one path to the rightmost leaf. */
  lemma RightEdgeNested(V: map<Page, Node>, sh: Shape, root: Page, p: Page, z: Page)
    requires Tree(Natural, V, sh, root) && p in sh && p in V && IsLeaf(V[p]) && sh[p].hi == sh[root].hi
    requires z in sh && sh[z].hi == sh[root].hi
    ensures z in V && sh[z].lo <= sh[p].lo && (IsLeaf(V[z]) ==> z == p)
  {
    assert Local(Natural, V, sh, root, p) && Local(Natural, V, sh, root, z);
    var k := sh[root].hi - 1;
    ReachUnique(Natural, V, sh, root, p, k);
    ReachUnique(Natural, V, sh, root, z, k);
    ReachCovers(Natural, V, sh, root, z, k);
  }

  lemma RightEdgeSlot(V: map<Page, Node>, sh: Shape, root: Page, z: Page)
    requires Tree(Natural, V, sh, root) && z in RightEdge(sh, root)
    ensures var y := sh[z].par; y in V && y in sh && !IsLeaf(V[y]) && |V[y].kids| == |V[y].cells| + 1
    ensures var y := sh[z].par; z == V[y].kids[|V[y].cells|] && (y == root || y in RightEdge(sh, root))
  {
    assert Local(Natural, V, sh, root, z);
    var y := sh[z].par;
    assert Local(Natural, V, sh, root, y);
    var i :| 0 <= i < |V[y].kids| && V[y].kids[i] == z;
    assert KidOk(Natural, V[y], y, sh, i);
  }

  /** The rightmost leaf can be cut next to the root's last child, wherever it really hangs. */
  lemma RightCutReady(V: map<Page, Node>, sh: Shape, root: Page, p: Page, q: Page)
    requires Tree(Natural, V, sh, root) && p in sh && p in V && p != root && IsLeaf(V[p]) && |V[p].cells| == ORDER
    requires sh[p].hi == sh[root].hi && q !in sh && q !in V
    ensures root in V && Saturated(V[p])
    ensures SplitReady(Natural, V, sh, root, p, root, |V[root].cells|, q, RightEdge(sh, root))
  {
    assert Local(Natural, V, sh, root, p) && Local(Natural, V, sh, root, root);
    assert root in V && !IsLeaf(V[root]) by { RightEdgeNested(V, sh, root, p, root); }
    var pos, T := |V[root].cells|, RightEdge(sh, root);
    assert KidOk(Natural, V[root], root, sh, pos);
    RightRank(V, sh, root, p);
    hide Sorted, Within;
    forall z | z in T ensures SpineMember(V, sh, p, root, pos, T, z) {
      RightEdgeNested(V, sh, root, p, z);
      RightEdgeSlot(V, sh, root, z);
      assert Local(Natural, V, sh, root, z);
      if z != p {
        assert KidOk(Natural, V[z], z, sh, |V[z].cells|);
        assert Local(Natural, V, sh, root, V[z].kids[|V[z].cells|]);
      }
    }
    assert V[root].kids[pos] in T;
  }

  lemma RightRank(V: map<Page, Node>, sh: Shape, root: Page, p: Page)
    requires Tree(Natural, V, sh, root) && p in sh && p != root
    ensures sh[p].rank < sh[root].rank
  {
    assert Local(Natural, V, sh, root, p);
    var y := sh[p].par;
    assert Local(Natural, V, sh, root, y);
    var i :| 0 <= i < |V[y].kids| && V[y].kids[i] == p;
    assert KidOk(Natural, V[y], y, sh, i);
  }
}
