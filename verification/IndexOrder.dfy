/** An index tree as one ordered sequence: every key has one place, a page answers for the keys of its span,
    and reading the tree in order lists its keys by rank. */
module IndexOrder {
  import opened Nodes
  import opened SearchTree
  import opened Cascade

  ghost predicate Holds(o: Order, n: Node, r: int) {
    !Lacks(o, n, r)
  }

  /** Where the descent for rank `r` ends: at the page that holds it, or at a leaf. */
  ghost function Stop(o: Order, V: map<Page, Node>, sh: Shape, root: Page, p: Page, r: int): (l: Page)
    requires Tree(o, V, sh, root) && p in sh
    decreases sh[p].rank
  {
    assert Local(o, V, sh, root, p);
    if IsLeaf(V[p]) || Holds(o, V[p], r) then p
    else
      var i := ChildFor(o, V[p], r);
      assert KidOk(o, V[p], p, sh, i);
      Stop(o, V, sh, root, V[p].kids[i], r)
  }

  /** Every page whose span has `r` lies on the descent for `r`. */
  lemma {:induction false} StopUnique(o: Order, V: map<Page, Node>, sh: Shape, root: Page, p: Page, r: int)
    requires Tree(o, V, sh, root) && !o.Natural? && p in sh && Covers(o, sh, p, r)
    ensures Stop(o, V, sh, root, root, r) == Stop(o, V, sh, root, p, r)
    decreases sh[root].rank - sh[p].rank
  {
    assert Local(o, V, sh, root, p);
    if p != root {
      var q := sh[p].par;
      assert Local(o, V, sh, root, q);
      var i :| 0 <= i < |V[q].kids| && V[q].kids[i] == p;
      KidSpan(o, V, sh, root, q, i);
      ChildForUnique(o, V[q], sh[q].lo, sh[q].hi, r, i);
      assert Lacks(o, V[q], r) by { KidsBetween(o, V[q], sh[q].lo, sh[q].hi, r, i); }
      StopUnique(o, V, sh, root, q, r);
    }
  }

  /** A rank inside a child's span is no separator's. */
  lemma KidsBetween(o: Order, n: Node, lo: int, hi: int, r: int, i: int)
    requires !o.Natural? && Sorted(o, n) && 0 <= i <= |n.cells| && LoAt(o, n, lo, i) <= r < HiAt(o, n, hi, i)
    ensures Lacks(o, n, r)
  {
    forall j | 0 <= j < |n.cells| ensures K(o, n, j) != r {
      assert j < i - 1 ==> K(o, n, j) < K(o, n, i - 1);
      assert i < j ==> K(o, n, i) < K(o, n, j);
    }
  }

  lemma HolderIs(o: Order, V: map<Page, Node>, sh: Shape, root: Page, p: Page, r: int)
    requires Tree(o, V, sh, root) && !o.Natural? && p in sh && p in V && Holds(o, V[p], r)
    ensures Covers(o, sh, p, r) && p == Stop(o, V, sh, root, root, r)
    ensures sh[root].lo <= r < sh[root].hi
  {
    assert Local(o, V, sh, root, p);
    StopUnique(o, V, sh, root, p, r);
  }

  /** A leaf whose span has a key's rank is where the key is. */
  lemma LeafHolds(o: Order, V: map<Page, Node>, sh: Shape, root: Page, p: Page, k: Key)
    requires Tree(o, V, sh, root) && !o.Natural? && p in sh && p in V && IsLeaf(V[p]) && Covers(o, sh, p, Ord(o, k))
    requires HasKey(V, sh, k)
    ensures KeyIn(V[p], k)
  {
    var x :| HoldsKey(V, sh, x, k);
    KeyIsHeld(o, V[x], k);
    HolderIs(o, V, sh, root, x, Ord(o, k));
    StopUnique(o, V, sh, root, p, Ord(o, k));
  }

  lemma KeyIsHeld(o: Order, n: Node, k: Key)
    requires KeyIn(n, k)
    ensures Holds(o, n, Ord(o, k))
  {
    var i :| 0 <= i < |n.cells| && n.cells[i].key == k;
    assert K(o, n, i) == Ord(o, k);
  }

  /** No two keys of a tree have one rank, and all ranks are in the root's span. */
  lemma RankIsKey(o: Order, V: map<Page, Node>, sh: Shape, root: Page, j: Key, k: Key)
    requires Tree(o, V, sh, root) && !o.Natural? && HasKey(V, sh, j) && HasKey(V, sh, k)
    ensures Ord(o, j) == Ord(o, k) ==> j == k
    ensures sh[root].lo <= Ord(o, k) < sh[root].hi
  {
    var x :| HoldsKey(V, sh, x, j);
    var y :| HoldsKey(V, sh, y, k);
    KeyIsHeld(o, V[x], j);
    KeyIsHeld(o, V[y], k);
    HolderIs(o, V, sh, root, x, Ord(o, j));
    HolderIs(o, V, sh, root, y, Ord(o, k));
    if Ord(o, j) == Ord(o, k) {
      assert Local(o, V, sh, root, x);
      var a :| 0 <= a < |V[x].cells| && V[x].cells[a].key == j;
      var b :| 0 <= b < |V[x].cells| && V[x].cells[b].key == k;
      assert K(o, V[x], a) == K(o, V[x], b);
    }
  }

  // ---------------------------------------------------------------- in order

  function KeysOf(cells: seq<Cell>): seq<Key> {
    seq(|cells|, i requires 0 <= i < |cells| => cells[i].key)
  }

  /** The keys below `p`, left to right. */
  ghost function InOrder(o: Order, V: map<Page, Node>, sh: Shape, root: Page, p: Page): seq<Key>
    requires Tree(o, V, sh, root) && p in sh
    decreases sh[p].rank, 1, 0
  {
    assert Local(o, V, sh, root, p);
    if IsLeaf(V[p]) then KeysOf(V[p].cells) else InOrderTo(o, V, sh, root, p, |V[p].cells|)
  }

  /** The keys below the children of `p` up to number i, with the separators between them. */
  ghost function InOrderTo(o: Order, V: map<Page, Node>, sh: Shape, root: Page, p: Page, i: nat): seq<Key>
    requires Tree(o, V, sh, root) && p in sh && p in V && !IsLeaf(V[p]) && i <= |V[p].cells|
    decreases sh[p].rank, 0, i
  {
    KidSpan(o, V, sh, root, p, i);
    var last := InOrder(o, V, sh, root, V[p].kids[i]);
    if i == 0 then last else InOrderTo(o, V, sh, root, p, i - 1) + [V[p].cells[i - 1].key] + last
  }

  ghost predicate ByRank(o: Order, keys: seq<Key>, lo: int, hi: int) {
    && (forall i {:trigger keys[i]} :: 0 <= i < |keys| ==> lo <= Ord(o, keys[i]) < hi)
    && (forall i, j {:trigger keys[i], keys[j]} :: 0 <= i < j < |keys| ==> Ord(o, keys[i]) < Ord(o, keys[j]))
  }

  lemma ByRankJoin(o: Order, a: seq<Key>, k: Key, b: seq<Key>, lo: int, hi: int)
    requires ByRank(o, a, lo, Ord(o, k)) && ByRank(o, b, Ord(o, k) + 1, hi) && lo <= Ord(o, k) < hi
    ensures ByRank(o, a + [k] + b, lo, hi)
  {}

  /** Read in order, an index tree lists its keys by rank. */
  lemma {:induction false} InOrderClimbs(o: Order, V: map<Page, Node>, sh: Shape, root: Page, p: Page)
    requires Tree(o, V, sh, root) && !o.Natural? && p in sh
    ensures ByRank(o, InOrder(o, V, sh, root, p), sh[p].lo, sh[p].hi)
    decreases sh[p].rank, 1, 0
  {
    assert Local(o, V, sh, root, p);
    if IsLeaf(V[p]) {
      var n, keys := V[p], KeysOf(V[p].cells);
      assert forall i {:trigger keys[i]} :: 0 <= i < |keys| ==> Ord(o, keys[i]) == K(o, n, i);
    } else {
      InOrderToClimbs(o, V, sh, root, p, |V[p].cells|);
    }
  }

  lemma {:induction false} InOrderToClimbs(o: Order, V: map<Page, Node>, sh: Shape, root: Page, p: Page, i: nat)
    requires Tree(o, V, sh, root) && !o.Natural? && p in sh && p in V && !IsLeaf(V[p]) && i <= |V[p].cells|
    ensures ByRank(o, InOrderTo(o, V, sh, root, p, i), sh[p].lo, HiAt(o, V[p], sh[p].hi, i))
    decreases sh[p].rank, 0, i
  {
    KidSpan(o, V, sh, root, p, i);
    InOrderClimbs(o, V, sh, root, V[p].kids[i]);
    if i > 0 {
      InOrderToClimbs(o, V, sh, root, p, i - 1);
      assert Local(o, V, sh, root, p);
      ByRankJoin(o, InOrderTo(o, V, sh, root, p, i - 1), V[p].cells[i - 1].key, InOrder(o, V, sh, root, V[p].kids[i]),
                 sh[p].lo, HiAt(o, V[p], sh[p].hi, i));
    }
  }

  /** It lists all of them: every key whose rank is in the page's span. */
  lemma {:induction false} InOrderLists(o: Order, V: map<Page, Node>, sh: Shape, root: Page, p: Page, k: Key)
    requires Tree(o, V, sh, root) && !o.Natural? && p in sh
    ensures k in InOrder(o, V, sh, root, p) <==> HasKey(V, sh, k) && Covers(o, sh, p, Ord(o, k))
    decreases sh[p].rank, 1, 0
  {
    assert Local(o, V, sh, root, p);
    if IsLeaf(V[p]) {
      var n, keys := V[p], KeysOf(V[p].cells);
      if k in keys {
        var i :| 0 <= i < |keys| && keys[i] == k;
        assert n.cells[i].key == k && sh[p].lo <= K(o, n, i) < sh[p].hi;
        assert HoldsKey(V, sh, p, k);
      }
      if HasKey(V, sh, k) && Covers(o, sh, p, Ord(o, k)) {
        LeafHolds(o, V, sh, root, p, k);
        var i :| 0 <= i < |n.cells| && n.cells[i].key == k;
        assert keys[i] == k;
      }
    } else {
      InOrderToLists(o, V, sh, root, p, |V[p].cells|, k);
    }
  }

  lemma {:induction false} InOrderToLists(o: Order, V: map<Page, Node>, sh: Shape, root: Page, p: Page, i: nat, k: Key)
    requires Tree(o, V, sh, root) && !o.Natural? && p in sh && p in V && !IsLeaf(V[p]) && i <= |V[p].cells|
    ensures k in InOrderTo(o, V, sh, root, p, i) <==>
      HasKey(V, sh, k) && sh[p].lo <= Ord(o, k) < HiAt(o, V[p], sh[p].hi, i)
    decreases sh[p].rank, 0, i
  {
    KidSpan(o, V, sh, root, p, i);
    InOrderLists(o, V, sh, root, V[p].kids[i], k);
    if i > 0 {
      InOrderToLists(o, V, sh, root, p, i - 1, k);
      assert Local(o, V, sh, root, p);
      var s := V[p].cells[i - 1].key;
      assert HoldsKey(V, sh, p, s) && K(o, V[p], i - 1) == Ord(o, s);
      assert HasKey(V, sh, s);
      if HasKey(V, sh, k) { RankIsKey(o, V, sh, root, k, s); }
      var a, b := InOrderTo(o, V, sh, root, p, i - 1), InOrder(o, V, sh, root, V[p].kids[i]);
      assert k in a + [s] + b <==> k in a || k == s || k in b;
      assert sh[p].lo <= Ord(o, s) < HiAt(o, V[p], sh[p].hi, i);
    }
  }
}
