/** Searching the in-memory B+-tree, and going down in it for an insert: nodes are split in place on the way. */
module NodeDescent {
  import opened Options
  import opened NodeTree
  import opened NodeLookup
  import opened NodeRoute

  /** What the nodes hold now. */
  ghost function Look(s: set<Node>): (V: Graph)
    requires forall n {:trigger n in s} :: n in s ==> n.Valid()
    reads s
  {
    map n | n in s :: n.Value()
  }

  ghost predicate Holding(sh: Spans, t: Node)
    reads sh.Keys
  {
    (forall n {:trigger n in sh} :: n in sh ==> n.Valid()) && Tree(Look(sh.Keys), sh, t)
  }

  /** The tree's contents are the finite map `m`, and no node holds a key that was never inserted. */
  ghost predicate Stores(sh: Spans, t: Node, m: map<Int, Data>, used: set<int>)
    reads sh.Keys
  {
    && Holding(sh, t) && KeysIn(Look(sh.Keys), sh, used) && (forall k {:trigger k in m} :: k in m ==> k in used)
    && forall k: Int {:trigger Stored(Look(sh.Keys), sh, t, k)} ::
         Stored(Look(sh.Keys), sh, t, k) == if k in m then Some(m[k]) else None
  }

  ghost function Stored(V: Graph, sh: Spans, t: Node, k: Int): Option<Data>
    requires Tree(V, sh, t)
  {
    Lookup(V, sh, t, t, k)
  }

  /** `yabcreate`: an empty leaf. */
  method Create() returns (t: Node, ghost sh: Spans)
    ensures fresh(t) && sh.Keys == {t} && Stores(sh, t, map[], {}) && sh[t].rank == 0 && t.Valid() && t.isLeaf
  {
    t := new Node(true);
    sh := map[t := Span(BELOW_ALL, LARGEST, 0)];
    ghost var V := Look(sh.Keys);
    assert V[t] == t.Value();
    assert Local(V, sh, t, t);
    forall k: Int ensures Stored(V, sh, t, k) == None { Step(V, sh, t, t, k); }
  }

  lemma NodeAt(V: Graph, sh: Spans, t: Node, n: Node, k: int)
    requires Tree(V, sh, t) && Covers(sh, n, k)
    ensures n in V && |V[n].cells| <= MAX_KEYS && Ascending(V[n].cells)
    ensures !V[n].isLeaf ==> |V[n].kids| == |V[n].cells| + 1
  {
    Step(V, sh, t, n, k);
  }

  /** The binary search of `yabsearch`: a cell with the key, or the gap it falls in. */
  method Bisect(n: Node, key: Int) returns (max: nat, hit: bool)
    requires n.Valid() && Ascending(n.Value().cells)
    ensures max <= n.nbKeys && max == Slot(n.Value().cells, key)
    ensures hit <==> max < n.nbKeys && n.keyVal[max].key == key
  {
    ghost var cells := n.Value().cells;
    assert forall i {:trigger cells[i]} :: 0 <= i < n.nbKeys ==> cells[i] == n.keyVal[i];
    var lo, hi := -1, n.nbKeys as int;
    hit := false;
    while hi - lo > 1
      invariant -1 <= lo < hi <= n.nbKeys && !hit
      invariant lo >= 0 ==> cells[lo].key < key
      invariant hi < n.nbKeys ==> key < cells[hi].key
    {
      var curIdx := (hi + lo) / 2;
      var curKey := n.keyVal[curIdx].key;
      assert cells[curIdx] == n.keyVal[curIdx];
      if curKey == key {
        hit := true;
        hi := curIdx;
        HitSlot(cells, key, curIdx);
        break;
      } else if curKey < key {
        lo := curIdx;
      } else {
        hi := curIdx;
      }
    }
    max := hi;
    if !hit { SlotUnique(cells, key, max); }
  }

  lemma HitSlot(cells: seq<KeyValue>, key: Int, i: nat)
    requires Ascending(cells) && i < |cells| && cells[i].key == key
    ensures Slot(cells, key) == i
  {
    GetAt(cells, i);
  }

  /** `yabsearch` from a node whose span has the key. */
  method Search(n: Node, key: Int, ghost sh: Spans, ghost t: Node) returns (found: Option<Data>)
    requires Holding(sh, t) && Covers(sh, n, key)
    ensures found == Lookup(Look(sh.Keys), sh, t, n, key)
    decreases sh[n].rank
  {
    ghost var V := Look(sh.Keys);
    Step(V, sh, t, n, key);
    assert V[n] == n.Value();
    var max, hit := Bisect(n, key);
    if n.isLeaf {
      found := if hit then Some(n.keyVal[max].value) else None;
    } else {
      assert V[n].kids[max] == n.children[max];
      found := Search(n.children[max], key, sh, t);
    }
  }

  // ---------------------------------------------------------------- splitting a child

  /** The left half: the cells up to `midIdx`, their children, and a new empty node as the last child. */
  method FillLeft(c: Node) returns (left: Node, d: Node?)
    requires c.Valid() && c.nbKeys == MAX_KEYS && (!c.isLeaf ==> c.children[0] != null)
    ensures fresh(left) && left.Valid() && Full(c.Value()) && left.Value() == LeftOf(c.Value(), d)
    ensures c.isLeaf ==> d == null
    ensures !c.isLeaf ==>
      d != null && fresh(d) && d != left && d.Valid() && d.Value().cells == []
        && d.Value() == EmptyVal(c.children[0].isLeaf)
  {
    hide *;
    HalfFacts(c);
    var midIdx := c.nbKeys / 2 - 1;
    left := new Node(c.isLeaf);
    ValueOf(left);
    d := null;
    PartNone(c.keyVal, 0, left.keyVal);
    PartNone(c.children, 0, left.children);
    for i := 0 to midIdx + 1
      invariant left.isLeaf == c.isLeaf && left.nbKeys == i && |left.keyVal| == MAX_KEYS
        && |left.children| == MAX_KEYS + 1
      invariant Part(c.keyVal, 0, left.keyVal, i) && (!c.isLeaf ==> Part(c.children, 0, left.children, i))
    {
      PartNext(c.keyVal, 0, left.keyVal, i);
      left.nbKeys := left.nbKeys + 1;
      left.keyVal := left.keyVal[i := c.keyVal[i]];
      if !left.isLeaf {
        PartNext(c.children, 0, left.children, i);
        left.children := left.children[i := c.children[i]];
      }
    }
    if !left.isLeaf {
      PartAt(c.children, 0, left.children, midIdx + 1, 0);
      var lastNode := new Node(left.children[0].isLeaf);
      EmptyIsEmpty(left.children[0].isLeaf);
      PartThen(c.children, 0, left.children, midIdx + 1, lastNode);
      left.children := left.children[midIdx + 1 := lastNode];
      d := lastNode;
    }
    LeftIs(c, left, d);
  }

  lemma EmptyIsEmpty(isLeaf: bool)
    ensures EmptyVal(isLeaf).cells == [] && EmptyVal(isLeaf).isLeaf == isLeaf
    ensures EmptyVal(isLeaf).kids == if isLeaf then [] else [null]
  {}

  lemma HalfFacts(c: Node)
    requires c.Valid() && c.nbKeys == MAX_KEYS
    ensures Full(c.Value()) && MAX_KEYS == 4 && |c.keyVal| == MAX_KEYS && |c.children| == MAX_KEYS + 1
  {}

  /** `n` elements copied from place `from` on. */
  ghost predicate Part<T>(src: seq<T>, from: nat, dst: seq<T>, n: nat) {
    n <= |dst| && from + n <= |src| && forall j {:trigger dst[j]} :: 0 <= j < n ==> dst[j] == src[from + j]
  }

  lemma PartNone<T>(src: seq<T>, from: nat, dst: seq<T>)
    requires from <= |src|
    ensures Part(src, from, dst, 0)
  {}

  lemma PartNext<T>(src: seq<T>, from: nat, dst: seq<T>, n: nat)
    requires Part(src, from, dst, n) && from + n < |src| && n < |dst|
    ensures Part(src, from, dst[n := src[from + n]], n + 1)
  {}

  lemma PartThen<T>(src: seq<T>, from: nat, dst: seq<T>, n: nat, x: T)
    requires Part(src, from, dst, n) && n < |dst|
    ensures Part(src, from, dst[n := x], n) && dst[n := x][n] == x
  {}

  lemma PartAt<T>(src: seq<T>, from: nat, dst: seq<T>, n: nat, j: nat)
    requires Part(src, from, dst, n) && j < n
    ensures dst[j] == src[from + j]
  {}

  lemma PartIs<T>(src: seq<T>, from: nat, dst: seq<T>, n: nat)
    requires Part(src, from, dst, n)
    ensures dst[..n] == src[from..from + n]
  {}

  lemma LeftIs(c: Node, left: Node, d: Node?)
    requires c.Valid() && c.nbKeys == MAX_KEYS && left.nbKeys == 2 && |left.keyVal| == MAX_KEYS
      && |left.children| == MAX_KEYS + 1
    requires left.isLeaf == c.isLeaf && Part(c.keyVal, 0, left.keyVal, 2)
    requires !c.isLeaf ==> Part(c.children, 0, left.children, 2) && left.children[2] == d
    ensures left.Valid() && Full(c.Value()) && left.Value() == LeftOf(c.Value(), d)
  {
    PartIs(c.keyVal, 0, left.keyVal, 2);
    assert c.keyVal[..4][..2] == c.keyVal[0..2];
    if !c.isLeaf {
      PartIs(c.children, 0, left.children, 2);
      assert left.children[..3] == left.children[..2] + [d] && c.children[..5][..2] == c.children[0..2];
    }
  }

  lemma RightIs(c: Node, right: Node)
    requires c.Valid() && c.nbKeys == MAX_KEYS && right.nbKeys == 2 && |right.keyVal| == MAX_KEYS
      && |right.children| == MAX_KEYS + 1
    requires right.isLeaf == c.isLeaf && Part(c.keyVal, 2, right.keyVal, 2)
    requires !c.isLeaf ==> Part(c.children, 2, right.children, 3)
    ensures right.Valid() && Full(c.Value()) && right.Value() == RightOf(c.Value())
  {
    PartIs(c.keyVal, 2, right.keyVal, 2);
    assert c.keyVal[..4][2..] == c.keyVal[2..4];
    if !c.isLeaf {
      PartIs(c.children, 2, right.children, 3);
      assert c.children[..5][2..] == c.children[2..5];
    }
  }

  /** The right half: the other cells and their children. */
  method FillRight(c: Node) returns (right: Node)
    requires c.Valid() && c.nbKeys == MAX_KEYS
    ensures fresh(right) && right.Valid() && Full(c.Value()) && right.Value() == RightOf(c.Value())
  {
    hide *;
    HalfFacts(c);
    var midIdx := c.nbKeys / 2 - 1;
    right := new Node(c.isLeaf);
    ValueOf(right);
    PartNone(c.keyVal, 2, right.keyVal);
    PartNone(c.children, 2, right.children);
    for i := midIdx + 1 to c.nbKeys
      invariant right.isLeaf == c.isLeaf && right.nbKeys == i - midIdx - 1 && |right.keyVal| == MAX_KEYS
        && |right.children| == MAX_KEYS + 1
      invariant Part(c.keyVal, 2, right.keyVal, i - 2) && (!c.isLeaf ==> Part(c.children, 2, right.children, i - 2))
    {
      PartNext(c.keyVal, 2, right.keyVal, i - 2);
      right.nbKeys := right.nbKeys + 1;
      right.keyVal := right.keyVal[i - midIdx - 1 := c.keyVal[i]];
      if !right.isLeaf {
        PartNext(c.children, 2, right.children, i - 2);
        right.children := right.children[i - midIdx - 1 := c.children[i]];
      }
    }
    if !right.isLeaf {
      PartNext(c.children, 2, right.children, 2);
      right.children := right.children[c.nbKeys - midIdx - 1 := c.children[c.nbKeys]];
    }
    RightIs(c, right);
  }

  /** The first `n` elements of `new` are those of `old` with `mid` put in place of `gone` elements at `idx`. */
  ghost predicate Spliced<T>(old_: seq<T>, idx: nat, gone: nat, mid: seq<T>, new_: seq<T>, n: nat) {
    && idx + |mid| <= n <= |new_| && n - |mid| + gone <= |old_|
    && forall j {:trigger new_[j]} :: 0 <= j < n ==>
         new_[j] == if j < idx then old_[j] else if j < idx + |mid| then mid[j - idx] else old_[j - |mid| + gone]
  }

  lemma SplicedIs<T>(old_: seq<T>, idx: nat, gone: nat, mid: seq<T>, new_: seq<T>, n: nat)
    requires Spliced(old_, idx, gone, mid, new_, n)
    ensures idx + gone <= n - |mid| + gone && new_[..n] == old_[..idx] + mid + old_[idx + gone..n - |mid| + gone]
  {}

  lemma SplicedNext<T>(old_: seq<T>, idx: nat, gone: nat, mid: seq<T>, new_: seq<T>, n: nat)
    requires Spliced(old_, idx, gone, mid, new_, n) && n < |new_| && n - |mid| + gone < |old_|
    ensures Spliced(old_, idx, gone, mid, new_[n := old_[n - |mid| + gone]], n + 1)
  {}

  /** Makes room for the new key and puts the two halves in the child's place. */
  method PutHalves(oldParent: Node, idx: nat, pairToUp: KeyValue, left: Node, right: Node)
    requires oldParent.Valid() && !oldParent.isLeaf && oldParent.nbKeys < MAX_KEYS && idx <= oldParent.nbKeys
    modifies oldParent
    ensures oldParent.Valid() && oldParent.Value() == Widened(old(oldParent.Value()), idx, pairToUp, left, right)
    ensures oldParent.children[idx] == left && oldParent.children[idx + 1] == right
  {
    ghost var v := oldParent.Value();
    var oldPairs, oldChildren := oldParent.keyVal, oldParent.children;
    oldParent.keyVal := oldParent.keyVal[idx := pairToUp];
    oldParent.children := oldParent.children[idx := left];
    oldParent.children := oldParent.children[idx + 1 := right];
    oldParent.nbKeys := oldParent.nbKeys + 1;
    ghost var up, halves: seq<Node?> := [pairToUp], [left, right];
    for newIdx := idx + 1 to oldParent.nbKeys
      invariant oldParent.Valid() && oldParent.nbKeys == |v.cells| + 1 && oldParent.isLeaf == v.isLeaf
      invariant Spliced(oldPairs, idx, 0, up, oldParent.keyVal, newIdx)
        && Spliced(oldChildren, idx, 1, halves, oldParent.children, newIdx + 1)
    {
      SplicedNext(oldPairs, idx, 0, up, oldParent.keyVal, newIdx);
      SplicedNext(oldChildren, idx, 1, halves, oldParent.children, newIdx + 1);
      oldParent.keyVal := oldParent.keyVal[newIdx := oldPairs[newIdx - 1]];
      oldParent.children := oldParent.children[newIdx + 1 := oldChildren[newIdx]];
    }
    WidenedIs(oldParent, v, oldPairs, oldChildren, idx, pairToUp, left, right);
  }

  lemma WidenedIs(n: Node, v: Val, pairs: seq<KeyValue>, kids: seq<Node?>, idx: nat, up: KeyValue, left: Node,
                  right: Node)
    requires n.Valid() && n.nbKeys == |v.cells| + 1 && n.isLeaf == v.isLeaf && !v.isLeaf && idx <= |v.cells| < |pairs|
      && |v.cells| + 1 < |kids|
    requires v.cells == pairs[..|v.cells|] && v.kids == kids[..|v.cells| + 1]
    requires Spliced(pairs, idx, 0, [up], n.keyVal, n.nbKeys)
      && Spliced(kids, idx, 1, [left, right], n.children, n.nbKeys + 1)
    ensures n.Value() == Widened(v, idx, up, left, right)
    ensures n.children[idx] == left && n.children[idx + 1] == right
  {
    var halves: seq<Node?> := [left, right];
    SplicedIs(pairs, idx, 0, [up], n.keyVal, n.nbKeys);
    SplicedIs(kids, idx, 1, halves, n.children, n.nbKeys + 1);
    hide Spliced;
    assert pairs[idx..|v.cells|] == v.cells[idx..] && kids[idx + 1..|v.cells| + 1] == v.kids[idx + 1..];
    assert pairs[..idx] == v.cells[..idx] && kids[..idx] == v.kids[..idx];
    AtSplice(kids[..idx], halves, v.kids[idx + 1..]);
  }

  lemma AtSplice(a: seq<Node?>, m: seq<Node?>, b: seq<Node?>)
    requires |m| == 2
    ensures (a + m + b)[|a|] == m[0] && (a + m + b)[|a| + 1] == m[1]
  {}

  /** `splitChild`: the child is replaced by two nodes, its second key goes up, and the half that answers for the key is
      returned. */
  method SplitChild(oldParent: Node, idx: nat, searchedKey: int)
    returns (next: Node, ghost l: Node, ghost r: Node, ghost d: Node?)
    requires oldParent.Valid() && !oldParent.isLeaf && oldParent.nbKeys < MAX_KEYS && idx <= oldParent.nbKeys
    requires oldParent.children[idx] != null && oldParent.children[idx] != oldParent
    requires var c := oldParent.children[idx];
      c.Valid() && c.nbKeys == MAX_KEYS && (!c.isLeaf ==> c.children[0] != null)
    modifies oldParent
    ensures fresh(l) && fresh(r) && l != r && l.Valid() && r.Valid() && oldParent.Valid()
    ensures var c := old(oldParent.children[idx]);
      && Full(old(c.Value())) && l.Value() == LeftOf(old(c.Value()), d) && r.Value() == RightOf(old(c.Value()))
      && oldParent.Value() == Widened(old(oldParent.Value()), idx, old(c.Value().cells[1]), l, r)
      && (old(c.isLeaf) ==> d == null)
      && (!old(c.isLeaf) ==>
            d != null && fresh(d) && d != l && d != r && d.Valid() && d.Value().cells == []
            && d.Value() == EmptyVal(old(c.children[0].isLeaf)))
      && next == if old(c.Value().cells[1].key) < searchedKey then r else l
  {
    hide *;
    ValueOf(oldParent);
    var correctChild: Node := oldParent.children[idx];
    MiddleCell(correctChild);
    var pairToUp := correctChild.keyVal[correctChild.nbKeys / 2 - 1];
    ghost var below := !correctChild.isLeaf && correctChild.children[0].isLeaf;
    var left, d0 := FillLeft(correctChild);
    assert !correctChild.isLeaf ==> d0.Value() == EmptyVal(below);
    var right := FillRight(correctChild);
    l, r, d := left, right, d0;
    PutHalves(oldParent, idx, pairToUp, left, right);
    next := if pairToUp.key < searchedKey then oldParent.children[idx + 1] else oldParent.children[idx];
  }

  lemma MiddleCell(c: Node)
    requires c.Valid() && c.nbKeys == MAX_KEYS
    ensures 0 <= c.nbKeys / 2 - 1 < |c.keyVal| && |c.children| > 0 && |c.Value().cells| > 1
      && c.keyVal[c.nbKeys / 2 - 1] == c.Value().cells[1]
  {}

  lemma LookIs(s: set<Node>, W: Graph)
    requires W.Keys == s && forall n {:trigger n in s} :: n in s ==> n.Valid() && W[n] == n.Value()
    ensures Look(s) == W
  {}

  lemma LookAt(s: set<Node>, n: Node)
    requires (forall m {:trigger m in s} :: m in s ==> m.Valid()) && n in s
    ensures n.Valid() && n in Look(s) && Look(s)[n] == n.Value() && Look(s).Keys == s
  {}

  lemma LookAll(s: set<Node>)
    requires forall m {:trigger m in s} :: m in s ==> m.Valid()
    ensures Look(s).Keys == s && forall n {:trigger n in s} :: n in s ==>
      n.Valid() && n in Look(s) && Look(s)[n] == n.Value()
  {}

  lemma ValueOf(n: Node)
    requires n.Valid()
    ensures |n.keyVal| == MAX_KEYS && |n.children| == MAX_KEYS + 1 && n.nbKeys <= MAX_KEYS
    ensures n.Value().isLeaf == n.isLeaf && |n.Value().cells| == n.nbKeys && n.Value().cells == n.keyVal[..n.nbKeys]
    ensures n.isLeaf ==> n.Value().kids == []
    ensures !n.isLeaf ==> |n.Value().kids| == n.nbKeys + 1 && forall i {:trigger n.children[i]} ::
      0 <= i <= n.nbKeys ==> n.children[i] == n.Value().kids[i]
  {}

  /** The same lookups for every key. */
  ghost predicate SameFound(V: Graph, sh: Spans, W: Graph, s2: Spans, t: Node)
    requires Tree(V, sh, t) && Tree(W, s2, t)
  {
    forall k: Int {:trigger Stored(W, s2, t, k)} :: Stored(W, s2, t, k) == Stored(V, sh, t, k)
  }

  // ---------------------------------------------------------------- insert

  /** The route of an insert from the root on. */
  ghost function WayOf(V: Graph, sh: Spans, t: Node, k: Int): Way
    requires Tree(V, sh, t)
  {
    Route(V, sh, t, t, k)
  }

  /** What `splitChild` leaves of the nodes of a split: the halves and the placeholder. */
  ghost predicate CutDone(c: Val, l: Node, r: Node, d: Node?)
    reads l, r, d
  {
    && Full(c) && l != r && l.Valid() && r.Valid() && l.Value() == LeftOf(c, d) && r.Value() == RightOf(c)
    && (if c.isLeaf then d == null else d != null && d != l && d != r && d.Valid() && d.Value().cells == [])
  }

  ghost function DeadValue(d: Node?): Val
    requires d != null ==> d.Valid()
    reads d
  {
    if d == null then Val(true, [], []) else d.Value()
  }

  /** A full root is split under a virtual parent, whose contents the root's node then takes over. */
  method HalveRoot(t: Node) returns (ghost v: Node, ghost l: Node, ghost r: Node, ghost d: Node?)
    requires t.Valid() && t.nbKeys == MAX_KEYS && Full(t.Value()) && (!t.isLeaf ==> t.children[0] != null)
    modifies t
    ensures fresh(v) && fresh(l) && fresh(r) && (d != null ==> fresh(d)) && v != l && v != r && v != d
    ensures CutDone(old(t.Value()), l, r, d)
    ensures t.Valid() && t.nbKeys == 1 && t.Value() == Widened(Val(false, [], [t]), 0, old(t.Value()).cells[1], l, r)
  {
    hide *;
    ghost var c := t.Value();
    ValueOf(t);
    var virtRacine := new Node(false);
    ValueOf(virtRacine);
    OneIsRoom();
    virtRacine.children := virtRacine.children[0 := t];
    v := virtRacine;
    VirtualRoot(virtRacine, t);
    var next;
    next, l, r, d := SplitChild(virtRacine, 0, 69);
    t.isLeaf, t.nbKeys, t.keyVal, t.children := virtRacine.isLeaf, virtRacine.nbKeys, virtRacine.keyVal,
      virtRacine.children;
    SameValue(t, virtRacine);
    OneCell(t, c.cells[1], l, r);
    CutDoneNow(c, l, r, d);
  }

  lemma OneIsRoom()
    ensures 1 < MAX_KEYS
  {}

  lemma VirtualRoot(v: Node, t: Node)
    requires !v.isLeaf && v.nbKeys == 0 && |v.keyVal| == MAX_KEYS && |v.children| == MAX_KEYS + 1 && v.children[0] == t
    ensures v.Valid() && v.Value() == Val(false, [], [t])
  {}

  lemma OneCell(t: Node, up: KeyValue, l: Node, r: Node)
    requires t.Valid() && t.Value() == Widened(Val(false, [], [t]), 0, up, l, r)
    ensures t.nbKeys == 1
  {
    ValueOf(t);
    assert |t.Value().cells| == 1;
  }

  lemma SameValue(a: Node, b: Node)
    requires b.Valid() && a.isLeaf == b.isLeaf && a.nbKeys == b.nbKeys && a.keyVal == b.keyVal
      && a.children == b.children
    ensures a.Valid() && a.Value() == b.Value()
  {}

  method SplitRoot(t: Node, key: Int, ghost sh: Spans, ghost used: set<int>) returns (ghost sh': Spans)
    requires Holding(sh, t) && t.nbKeys == MAX_KEYS && KeysIn(Look(sh.Keys), sh, used)
    modifies t
    ensures Holding(sh', t) && sh.Keys <= sh'.Keys && fresh(sh'.Keys - sh.Keys) && t.nbKeys == 1
    ensures t.Valid() && !t.isLeaf && old(t.Valid()) && |old(t.Value()).cells| > 1
      && t.Value().cells == [old(t.Value()).cells[1]]
    ensures WayOf(Look(sh'.Keys), sh', t, key) == old(WayOf(Look(sh.Keys), sh, t, key))
    ensures SameFound(old(Look(sh.Keys)), sh, Look(sh'.Keys), sh', t) && KeysIn(Look(sh'.Keys), sh', used)
    ensures old(Filled(Look(sh.Keys), sh, t)) ==> Filled(Look(sh'.Keys), sh', t)
  {
    hide *;
    HoldingFacts(sh, t);
    ghost var V := Look(sh.Keys);
    LookAll(sh.Keys);
    ValueOf(t);
    RootReady(V, sh, t);
    ghost var v, l, r, d := HalveRoot(t);
    CutDoneFacts(V[t], l, r, d);
    ghost var x := Cut(v, 0, t, l, r, d, DeadValue(d));
    RootCutNow(V, sh, t, x);
    RootNodes(V, sh, t, x);
    sh' := RootSpans(V, sh, t, x);
    RootLook(V, sh, t, x);
    RootSplitAll(V, sh, t, x, used);
    RootWay(V, sh, t, x, key);
    OneUp(V[t], t, x);
    HoldingNow(sh', t);
  }

  lemma OneUp(c: Val, t: Node, x: Cut)
    requires Full(c) && t.Valid() && t.Value() == Widened(Val(false, [], [t]), 0, c.cells[1], x.l, x.r)
    ensures !t.isLeaf && |c.cells| > 1 && t.Value().cells == [c.cells[1]]
  {}

  lemma RootWay(V: Graph, sh: Spans, t: Node, x: Cut, key: Int)
    requires RootCut(V, sh, t, x) && V.Keys == sh.Keys && Tree(RootGraph(V, sh, t, x), RootSpans(V, sh, t, x), t)
    ensures WayOf(RootGraph(V, sh, t, x), RootSpans(V, sh, t, x), t, key) == WayOf(V, sh, t, key)
  {
    RootNodes(V, sh, t, x);
    var W, s2 := RootGraph(V, sh, t, x), RootSpans(V, sh, t, x);
    hide RootGraph, Widened, LeftOf, RightOf;
    assert s2[x.l] == Span(BELOW_ALL, V[t].cells[1].key, sh[t].rank)
      && s2[x.r] == Span(V[t].cells[1].key, LARGEST, sh[t].rank);
    forall m | m in sh && m != t ensures Agree(V, sh, W, s2, m) {}
    hide RootSpans, RootCut;
    assert RootCut(V, sh, t, x) && RootHalved(V, sh, t, x, W, s2);
    RouteRoot(V, sh, t, x, W, s2, key);
  }

  lemma HoldingFacts(sh: Spans, t: Node)
    requires Holding(sh, t)
    ensures t in sh && (forall n {:trigger n in sh.Keys} :: n in sh.Keys ==> n.Valid()) && Tree(Look(sh.Keys), sh, t)
    ensures Look(sh.Keys).Keys == sh.Keys
  {}

  lemma HoldingNow(sh: Spans, t: Node)
    requires (forall n {:trigger n in sh.Keys} :: n in sh.Keys ==> n.Valid()) && Tree(Look(sh.Keys), sh, t)
    ensures Holding(sh, t)
  {}

  lemma CutDoneFacts(c: Val, l: Node, r: Node, d: Node?)
    requires CutDone(c, l, r, d)
    ensures Full(c) && l != r && l.Valid() && r.Valid() && l.Value() == LeftOf(c, d) && r.Value() == RightOf(c)
    ensures if c.isLeaf then d == null else d != null && d != l && d != r
    ensures d != null ==> d.Valid() && d.Value() == DeadValue(d)
    ensures d == null ==> DeadValue(d) == Val(true, [], [])
    ensures DeadValue(d).cells == []
  {}

  lemma RootCutNow(V: Graph, sh: Spans, t: Node, x: Cut)
    requires Tree(V, sh, t) && t in V && Full(V[t]) && x.p !in sh && x.idx == 0 && x.c == t && x.dead.cells == []
    requires x.l !in sh && x.r !in sh && x.l != x.r && x.l != x.p && x.r != x.p
    requires if V[t].isLeaf then x.d == null else x.d != null && x.d !in sh && x.d != x.l && x.d != x.r && x.d != x.p
    ensures RootCut(V, sh, t, x)
  {}

  /** The nodes now are the graph that the split makes of the old one. */
  lemma RootLook(V: Graph, sh: Spans, t: Node, x: Cut)
    requires RootCut(V, sh, t, x) && V.Keys == sh.Keys && t.Valid() && x.l.Valid() && x.r.Valid()
      && (x.d != null ==> x.d.Valid() && x.d.Value() == x.dead)
    requires forall n {:trigger n in sh.Keys} :: n in sh.Keys && n != t ==> n.Valid() && V[n] == n.Value()
    requires t.Value() == Widened(Val(false, [], [t]), 0, V[t].cells[1], x.l, x.r) && x.l.Value() == LeftOf(V[t], x.d)
      && x.r.Value() == RightOf(V[t])
    ensures var s2 := RootSpans(V, sh, t, x);
      && (forall n {:trigger n in s2.Keys} :: n in s2.Keys ==> n.Valid()) && Look(s2.Keys) == RootGraph(V, sh, t, x)
  {
    RootNodes(V, sh, t, x);
    var W, s2 := RootGraph(V, sh, t, x), RootSpans(V, sh, t, x);
    hide RootGraph, RootSpans, LeftOf, RightOf, Widened;
    forall n | n in s2.Keys ensures n.Valid() && n in W && W[n] == n.Value() {}
    LookIs(s2.Keys, W);
  }

  lemma RootReady(V: Graph, sh: Spans, t: Node)
    requires Tree(V, sh, t) && t in V && |V[t].cells| == MAX_KEYS
    ensures Full(V[t]) && (!V[t].isLeaf ==> |V[t].kids| > 0 && V[t].kids[0] != null)
  {
    assert Local(V, sh, t, t);
    if !V[t].isLeaf { assert KidOk(V[t], sh, t, 0); }
  }

  /** Node by node, what a root split leaves. */
  lemma RootNodes(V: Graph, sh: Spans, t: Node, x: Cut)
    requires RootCut(V, sh, t, x) && V.Keys == sh.Keys
    ensures var W, s2 := RootGraph(V, sh, t, x), RootSpans(V, sh, t, x);
      && W.Keys == s2.Keys == sh.Keys + {x.l, x.r} + (if x.d == null then {} else {x.d})
      && W[t] == Widened(Val(false, [], [t]), 0, V[t].cells[1], x.l, x.r) && W[x.l] == LeftOf(V[t], x.d)
      && W[x.r] == RightOf(V[t])
      && (x.d != null ==> W[x.d] == x.dead)
      && forall n {:trigger W[n]} :: n in sh && n != t ==> W[n] == V[n]
  {}

  lemma RootSplitAll(V: Graph, sh: Spans, t: Node, x: Cut, used: set<int>)
    requires RootCut(V, sh, t, x) && KeysIn(V, sh, used)
    ensures Tree(RootGraph(V, sh, t, x), RootSpans(V, sh, t, x), t)
    ensures SameFound(V, sh, RootGraph(V, sh, t, x), RootSpans(V, sh, t, x), t)
    ensures KeysIn(RootGraph(V, sh, t, x), RootSpans(V, sh, t, x), used)
    ensures Filled(V, sh, t) ==> Filled(RootGraph(V, sh, t, x), RootSpans(V, sh, t, x), t)
  {
    RootSplitKeys(V, sh, t, x, used);
    RootSplitKeeps(V, sh, t, x, 0);
    forall k: Int ensures Stored(RootGraph(V, sh, t, x), RootSpans(V, sh, t, x), t, k) == Stored(V, sh, t, k) {
      RootSplitKeeps(V, sh, t, x, k);
    }
  }

  /** The binary search of `yabinsert`: the first cell above the key. */
  method GapOf(n: Node, key: Int) returns (max: nat)
    requires n.Valid() && Ascending(n.Value().cells)
    ensures max <= n.nbKeys && max == Gap(n.Value().cells, key)
  {
    ghost var cells := n.Value().cells;
    assert forall i {:trigger cells[i]} :: 0 <= i < n.nbKeys ==> cells[i] == n.keyVal[i];
    var lo, hi := -1, n.nbKeys as int;
    while hi - lo > 1
      invariant -1 <= lo < hi <= n.nbKeys
      invariant lo >= 0 ==> cells[lo].key <= key
      invariant hi < n.nbKeys ==> key < cells[hi].key
    {
      var curIdx := (hi + lo) / 2;
      assert cells[curIdx] == n.keyVal[curIdx];
      if n.keyVal[curIdx].key <= key {
        lo := curIdx;
      } else {
        hi := curIdx;
      }
    }
    max := hi;
    GapIs(cells, key, max);
  }

  /** Where an insert is on its way down: on the search path; off it, right of an equal separator; at a left half whose
      last separator, the key, has just gone up; or at the placeholder below that. */
  datatype Leg = On | Off | Edge | Hole

  ghost predicate AtNode(V: Graph, sh: Spans, t: Node, cur: Node, key: int, leg: Leg, way: Way) {
    && Tree(V, sh, t) && cur in sh && cur in V && |V[cur].cells| < MAX_KEYS && Ascending(V[cur].cells)
    && match leg
       case On =>
         && Covers(sh, cur, key) && Covers(sh, t, key) && OnPath(V, sh, t, t, cur, key)
         && Route(V, sh, t, cur, key) == way && (V[cur].isLeaf || sh[cur].hi != key || key == LARGEST)
       case Off => sh[cur].lo == key < sh[cur].hi && way == Strayed
       case Edge => OnEdge(V, sh, cur, key, way)
       case Hole =>
         !Live(sh, cur) && V[cur] == EmptyVal(V[cur].isLeaf) && way == if V[cur].isLeaf then Parked else Unset
  }

  ghost predicate OnEdge(V: Graph, sh: Spans, cur: Node, key: int, way: Way)
    requires cur in V
  {
    var v := V[cur];
    && Live(sh, cur) && !v.isLeaf && v.cells != [] && v.cells[|v.cells| - 1].key == key && |v.kids| == |v.cells| + 1
    && v.kids[|v.cells|] != null
    && var d := v.kids[|v.cells|];
      d in V && d in sh && !Live(sh, d) && sh[d].rank < sh[cur].rank && V[d] == EmptyVal(V[d].isLeaf) && way ==
        if V[d].isLeaf then Parked else Unset
  }

  ghost predicate At(sh: Spans, t: Node, cur: Node, key: int, used: set<int>, leg: Leg, way: Way)
    reads sh.Keys
  {
    Holding(sh, t) && KeysIn(Look(sh.Keys), sh, used) && AtNode(Look(sh.Keys), sh, t, cur, key, leg, way)
  }

  lemma AtFacts(sh: Spans, t: Node, cur: Node, key: int, used: set<int>, leg: Leg, way: Way)
    requires At(sh, t, cur, key, used, leg, way)
    ensures Holding(sh, t) && KeysIn(Look(sh.Keys), sh, used) && AtNode(Look(sh.Keys), sh, t, cur, key, leg, way)
    ensures cur in sh && cur in sh.Keys && cur.Valid() && cur.nbKeys < MAX_KEYS && Ascending(cur.Value().cells)
  {
    LookAt(sh.Keys, cur);
  }

  lemma AtNow(sh: Spans, t: Node, cur: Node, key: int, used: set<int>, leg: Leg, way: Way)
    requires Holding(sh, t) && KeysIn(Look(sh.Keys), sh, used) && AtNode(Look(sh.Keys), sh, t, cur, key, leg, way)
    ensures At(sh, t, cur, key, used, leg, way)
  {}

  ghost function NextLeg(V: Graph, cur: Node, key: int, leg: Leg): Leg
    requires cur in V
  {
    match leg
    case On => if NotAmong(V[cur].cells, key) then On else Off
    case Edge => Hole
    case _ => leg
  }

  /** The child that an insert goes on to: what it is, and where that leaves the insert. */
  ghost predicate GoesOn(V: Graph, sh: Spans, t: Node, cur: Node, key: int, leg: Leg, way: Way, c: Node) {
    && cur in V && cur in sh && c in sh && c in V && c != cur && sh[c].rank < sh[cur].rank && |V[c].cells| <= MAX_KEYS
    && (|V[c].cells| < MAX_KEYS ==> AtNode(V, sh, t, c, key, NextLeg(V, cur, key, leg), way))
    && (|V[c].cells| == MAX_KEYS ==> Live(sh, cur) && Live(sh, c) && Full(V[c]) && leg != Edge && KidsSplit(V, sh, c))
  }

  /** The first child of an interior node is a leaf just when the node is one level up. */
  ghost predicate KidsSplit(V: Graph, sh: Spans, c: Node)
    requires c in V && c in sh
  {
    !V[c].isLeaf ==> V[c].kids != [] && V[c].kids[0] != null && V[c].kids[0] in V && (V[V[c].kids[0]].isLeaf <==>
      sh[c].rank == 1)
  }

  lemma LiveKid(V: Graph, sh: Spans, t: Node, cur: Node, i: nat)
    requires Tree(V, sh, t) && Live(sh, cur) && cur in V && !V[cur].isLeaf && i <= |V[cur].cells|
    requires From(V[cur].cells, sh[cur].lo, i) < To(V[cur].cells, sh[cur].hi, i)
    ensures |V[cur].kids| == |V[cur].cells| + 1 && V[cur].kids[i] != null
    ensures var c := V[cur].kids[i];
      && c in sh && c in V && c != cur && Live(sh, c) && sh[c].rank + 1 == sh[cur].rank && c != t
      && sh[c].lo == From(V[cur].cells, sh[cur].lo, i) && sh[c].hi == To(V[cur].cells, sh[cur].hi, i)
      && |V[c].cells| <= MAX_KEYS && Ascending(V[c].cells) && KidsSplit(V, sh, c)
      && (|V[c].cells| == MAX_KEYS ==> Full(V[c]))
  {
    assert Local(V, sh, t, cur);
    assert KidOk(V[cur], sh, cur, i);
    var c := V[cur].kids[i];
    assert Local(V, sh, t, c);
    if !V[c].isLeaf {
      assert KidOk(V[c], sh, c, 0);
      assert V[c].cells != [] ==> sh[c].lo < V[c].cells[0].key;
      assert Local(V, sh, t, V[c].kids[0]);
    }
  }

  lemma StepOn(V: Graph, sh: Spans, t: Node, cur: Node, key: int, way: Way)
    requires AtNode(V, sh, t, cur, key, On, way) && !V[cur].isLeaf && NotAmong(V[cur].cells, key)
    ensures var max := Slot(V[cur].cells, key);
      max < |V[cur].kids| && V[cur].kids[max] != null && GoesOn(V, sh, t, cur, key, On, way, V[cur].kids[max])
    ensures var c := V[cur].kids[Slot(V[cur].cells, key)];
      Covers(sh, c, key) && OnPath(V, sh, t, t, c, key) && Route(V, sh, t, c, key) == way
        && (sh[c].hi != key || key == LARGEST)
  {
    Step(V, sh, t, cur, key);
    PathOn(V, sh, t, t, cur, key);
    var max := Slot(V[cur].cells, key);
    LiveKid(V, sh, t, cur, max);
    assert max < |V[cur].cells| ==> V[cur].cells[max].key != key;
    hide Tree, OnPath, NodeOk, KidsSplit;
  }

  /** At an equal separator, and from then on. */
  lemma StepOff(V: Graph, sh: Spans, t: Node, cur: Node, key: int, leg: Leg, way: Way)
    requires AtNode(V, sh, t, cur, key, leg, way) && !V[cur].isLeaf
      && (leg == Off || (leg == On && !NotAmong(V[cur].cells, key)))
    ensures var max := Gap(V[cur].cells, key);
      && max < |V[cur].kids| && V[cur].kids[max] != null && GoesOn(V, sh, t, cur, key, leg, way, V[cur].kids[max])
      && sh[V[cur].kids[max]].lo == key && way == Strayed
  {
    var cells := V[cur].cells;
    assert Local(V, sh, t, cur);
    var max := Gap(cells, key);
    if leg == On {
      WaysPart(cells, key);
      var j :| 0 <= j < |cells| && cells[j].key == key;
      SlotUnique(cells, key, j);
      assert max == j + 1;
    } else {
      GapIs(cells, key, 0);
    }
    LiveKid(V, sh, t, cur, max);
    hide Tree, OnPath, NodeOk, KidsSplit, Route;
  }

  lemma StepEdge(V: Graph, sh: Spans, t: Node, cur: Node, key: int, way: Way)
    requires AtNode(V, sh, t, cur, key, Edge, way)
    ensures var max := Gap(V[cur].cells, key);
      max < |V[cur].kids| && V[cur].kids[max] != null && GoesOn(V, sh, t, cur, key, Edge, way, V[cur].kids[max])
  {
    GapIs(V[cur].cells, key, |V[cur].cells|);
  }

  lemma NextKid(V: Graph, sh: Spans, t: Node, cur: Node, key: int, leg: Leg, way: Way)
    requires AtNode(V, sh, t, cur, key, leg, way) && !V[cur].isLeaf
    ensures var max := Gap(V[cur].cells, key);
      && max < |V[cur].kids| && (V[cur].kids[max] == null <==> leg == Hole) && (leg == Hole ==> way == Unset)
      && (leg != Hole ==> GoesOn(V, sh, t, cur, key, leg, way, V[cur].kids[max]))
  {
    match leg
    case Hole => EmptyIsEmpty(V[cur].isLeaf);
    case Edge => StepEdge(V, sh, t, cur, key, way);
    case Off => StepOff(V, sh, t, cur, key, leg, way);
    case On =>
      WaysPart(V[cur].cells, key);
      if NotAmong(V[cur].cells, key) { StepOn(V, sh, t, cur, key, way); } else { StepOff(V, sh, t, cur, key, leg, way);
        }
      hide *;
  }

  ghost function CutLeg(V: Graph, cur: Node, key: int, leg: Leg, c: Node): Leg
    requires cur in V && c in V && |V[c].cells| == MAX_KEYS
  {
    if leg == On && NotAmong(V[cur].cells, key) && !V[c].isLeaf
      && V[c].cells[1].key == key then Edge else NextLeg(V, cur, key, leg)
  }

  /** One level down, splitting a full child first; null if there is no child to go on to. */
  method StepDown(t: Node, cur: Node, key: Int, ghost sh: Spans, ghost used: set<int>, ghost leg: Leg, ghost way: Way)
    returns (next: Node?, ghost sh': Spans, ghost leg': Leg)
    requires At(sh, t, cur, key, used, leg, way) && !cur.isLeaf
    modifies cur
    ensures sh.Keys <= sh'.Keys && fresh(sh'.Keys - sh.Keys) && Holding(sh', t) && cur in sh
    ensures if next == null then way == Unset && KeysIn(Look(sh'.Keys), sh', used)
      else At(sh', t, next, key, used, leg', way) && next in sh' && sh'[next].rank < sh[cur].rank
    ensures SameFound(old(Look(sh.Keys)), sh, Look(sh'.Keys), sh', t)
    ensures old(Filled(Look(sh.Keys), sh, t)) ==> Filled(Look(sh'.Keys), sh', t)
    ensures SeparatorsStay(old(Look(sh.Keys)), Look(sh'.Keys), t)
  {
    hide *;
    AtFacts(sh, t, cur, key, used, leg, way);
    HoldingFacts(sh, t);
    ghost var V := Look(sh.Keys);
    LookAll(sh.Keys);
    ValueOf(cur);
    var max := GapOf(cur, key);
    NextKid(V, sh, t, cur, key, leg, way);
    SameIsSame(V, sh, t);
    SameStay(V, t);
    sh', leg' := sh, leg;
    next := cur.children[max];
    if next != null {
      var correctChild: Node := next;
      GoesOnFacts(V, sh, t, cur, key, leg, way, correctChild);
      ValueOf(correctChild);
      if correctChild.nbKeys < MAX_KEYS {
        leg' := NextLeg(V, cur, key, leg);
        AtNow(sh, t, correctChild, key, used, leg', way);
      } else {
        FirstKid(V, sh, correctChild);
        if !correctChild.isLeaf { ValueOf(correctChild.children[0]); }
        ghost var below := !correctChild.isLeaf && correctChild.children[0].isLeaf;
        assert !correctChild.isLeaf ==> below == (sh[correctChild].rank == 1);
        ghost var l, r, d;
        next, l, r, d := SplitChild(cur, max, key);
        ghost var x := Cut(cur, max, correctChild, l, r, d, DeadValue(d));
        assert !V[correctChild].isLeaf ==> d.Value() == EmptyVal(below);
        CutDoneNow(V[correctChild], l, r, d);
        CutReadyNow(V, sh, t, x);
        CutNodes(V, sh, t, x);
        sh', leg' := CutSpans(V, sh, x), CutLeg(V, cur, key, leg, correctChild);
        CutLook(V, sh, t, x);
        CutAll(V, sh, t, x, used);
        CutNext(V, sh, t, x, key, leg, way);
        CutStays(V, sh, t, x);
        HoldingNow(sh', t);
        AtNow(sh', t, next, key, used, leg', way);
      }
    }
  }

  /** The root stays interior and keeps its separators. */
  ghost predicate SeparatorsStay(V: Graph, W: Graph, t: Node) {
    t in V && t in W && (V[t].isLeaf <==> W[t].isLeaf)
    && forall k {:trigger NotAmong(W[t].cells, k)} :: NotAmong(W[t].cells, k) ==> NotAmong(V[t].cells, k)
  }

  lemma SameStay(V: Graph, t: Node)
    requires t in V
    ensures SeparatorsStay(V, V, t)
  {}

  lemma CutStays(V: Graph, sh: Spans, t: Node, x: Cut)
    requires CutReady(V, sh, t, x) && t in V && t in sh && |V[x.p].kids| == |V[x.p].cells| + 1
    ensures SeparatorsStay(V, CutGraph(V, x), t)
  {
    CutFacts(V, sh, t, x);
    var W := CutGraph(V, x);
    if t == x.p {
      var v, w := V[t].cells, W[t].cells;
      forall k | NotAmong(w, k) ensures NotAmong(v, k) {
        forall i | 0 <= i < |v| ensures v[i].key != k { assert w[if i < x.idx then i else i + 1] == v[i]; }
      }
    }
  }

  lemma GoesOnFacts(V: Graph, sh: Spans, t: Node, cur: Node, key: int, leg: Leg, way: Way, c: Node)
    requires GoesOn(V, sh, t, cur, key, leg, way, c)
    ensures cur in V && cur in sh && c in sh && c in V && c != cur && sh[c].rank < sh[cur].rank
      && |V[c].cells| <= MAX_KEYS
    ensures |V[c].cells| < MAX_KEYS ==> AtNode(V, sh, t, c, key, NextLeg(V, cur, key, leg), way)
    ensures |V[c].cells| == MAX_KEYS ==>
      Live(sh, cur) && Live(sh, c) && Full(V[c]) && leg != Edge && KidsSplit(V, sh, c)
  {}

  lemma FirstKid(V: Graph, sh: Spans, c: Node)
    requires c in V && c in sh && KidsSplit(V, sh, c) && c.Valid() && V[c] == c.Value()
    ensures !c.isLeaf ==> c.children[0] != null && c.children[0] in V && (V[c.children[0]].isLeaf <==> sh[c].rank == 1)
  {}

  /** The child that the search path takes. */
  lemma NextChild(V: Graph, sh: Spans, t: Node, cur: Node, key: int)
    requires Tree(V, sh, t) && Covers(sh, cur, key) && Covers(sh, t, key) && OnPath(V, sh, t, t, cur, key) && cur in V
      && !V[cur].isLeaf
    ensures var max := Slot(V[cur].cells, key);
      && max < |V[cur].kids| == |V[cur].cells| + 1 && V[cur].kids[max] != null
      && var c := V[cur].kids[max];
        c in sh && c in V && Covers(sh, c, key) && sh[c].rank < sh[cur].rank && OnPath(V, sh, t, t, c, key)
  {
    Step(V, sh, t, cur, key);
    PathOn(V, sh, t, t, cur, key);
    Step(V, sh, t, V[cur].kids[Slot(V[cur].cells, key)], key);
  }

  lemma SameIsSame(V: Graph, sh: Spans, t: Node)
    requires Tree(V, sh, t)
    ensures SameFound(V, sh, V, sh, t)
  {}

  lemma CutDoneNow(c: Val, l: Node, r: Node, d: Node?)
    requires Full(c) && l != r && l.Valid() && r.Valid() && l.Value() == LeftOf(c, d) && r.Value() == RightOf(c)
    requires if c.isLeaf then d == null else d != null && d != l && d != r && d.Valid() && d.Value().cells == []
    ensures CutDone(c, l, r, d) && DeadValue(d).cells == [] && (d != null ==> d.Valid() && d.Value() == DeadValue(d))
  {}

  lemma CutReadyNow(V: Graph, sh: Spans, t: Node, x: Cut)
    requires Tree(V, sh, t) && Live(sh, x.p) && x.p in V && !V[x.p].isLeaf && |V[x.p].cells| < MAX_KEYS
    requires x.idx <= |V[x.p].cells| < |V[x.p].kids| && V[x.p].kids[x.idx] == x.c && Live(sh, x.c) && x.c in V
      && Full(V[x.c])
    requires x.l !in sh && x.r !in sh && x.l != x.r
    requires if V[x.c].isLeaf then x.d == null else x.d != null && x.d !in sh && x.d != x.l && x.d != x.r
    ensures CutReady(V, sh, t, x)
  {}

  lemma CutNodes(V: Graph, sh: Spans, t: Node, x: Cut)
    requires CutReady(V, sh, t, x) && V.Keys == sh.Keys
    ensures |V[x.p].kids| == |V[x.p].cells| + 1
    ensures var W, s2 := CutGraph(V, x), CutSpans(V, sh, x);
      && W.Keys == s2.Keys == sh.Keys + {x.l, x.r} + (if x.d == null then {} else {x.d})
      && W[x.p] == Widened(V[x.p], x.idx, V[x.c].cells[1], x.l, x.r) && W[x.l] == LeftOf(V[x.c], x.d)
      && W[x.r] == RightOf(V[x.c])
      && (x.d != null ==> W[x.d] == x.dead)
      && forall n {:trigger W[n]} :: n in sh && n != x.p ==> W[n] == V[n]
  {
    CutFacts(V, sh, t, x);
  }

  lemma CutLook(V: Graph, sh: Spans, t: Node, x: Cut)
    requires CutReady(V, sh, t, x) && V.Keys == sh.Keys && x.p.Valid() && x.l.Valid() && x.r.Valid()
      && (x.d != null ==> x.d.Valid() && x.d.Value() == x.dead)
    requires forall n {:trigger n in sh.Keys} :: n in sh.Keys && n != x.p ==> n.Valid() && V[n] == n.Value()
    requires |V[x.p].kids| == |V[x.p].cells| + 1
    requires x.p.Value() == Widened(V[x.p], x.idx, V[x.c].cells[1], x.l, x.r) && x.l.Value() == LeftOf(V[x.c], x.d)
      && x.r.Value() == RightOf(V[x.c])
    ensures var s2 := CutSpans(V, sh, x);
      && (forall n {:trigger n in s2.Keys} :: n in s2.Keys ==> n.Valid()) && Look(s2.Keys) == CutGraph(V, x)
  {
    CutNodes(V, sh, t, x);
    var W, s2 := CutGraph(V, x), CutSpans(V, sh, x);
    hide CutGraph, CutSpans, LeftOf, RightOf, Widened;
    forall n | n in s2.Keys ensures n.Valid() && n in W && W[n] == n.Value() {}
    LookIs(s2.Keys, W);
  }

  lemma CutAll(V: Graph, sh: Spans, t: Node, x: Cut, used: set<int>)
    requires CutReady(V, sh, t, x) && KeysIn(V, sh, used) && x.dead.cells == [] && |V[x.p].kids| == |V[x.p].cells| + 1
    ensures Tree(CutGraph(V, x), CutSpans(V, sh, x), t) && SameFound(V, sh, CutGraph(V, x), CutSpans(V, sh, x), t)
    ensures KeysIn(CutGraph(V, x), CutSpans(V, sh, x), used)
    ensures Filled(V, sh, t) ==> Filled(CutGraph(V, x), CutSpans(V, sh, x), t)
  {
    CutKeysIn(V, sh, t, x, used);
    CutKeepsTree(V, sh, t, x);
    if Filled(V, sh, t) { CutFilled(V, sh, t, x); }
    forall k: Int ensures Stored(CutGraph(V, x), CutSpans(V, sh, x), t, k) == Stored(V, sh, t, k) {
      CutLookup(V, sh, t, x, t, k);
    }
  }

  /** Where a split on the way down leaves the insert. */
  lemma CutNext(V: Graph, sh: Spans, t: Node, x: Cut, key: int, leg: Leg, way: Way)
    requires CutReady(V, sh, t, x) && AtNode(V, sh, t, x.p, key, leg, way) && |V[x.p].kids| == |V[x.p].cells| + 1
    requires x.idx == Gap(V[x.p].cells, key) && GoesOn(V, sh, t, x.p, key, leg, way, x.c)
    requires Tree(CutGraph(V, x), CutSpans(V, sh, x), t) && (!V[x.c].isLeaf ==> x.dead == EmptyVal(sh[x.c].rank == 1))
    ensures var n, s2 := if V[x.c].cells[1].key < key then x.r else x.l, CutSpans(V, sh, x);
      && n in s2 && s2[n].rank < sh[x.p].rank
      && AtNode(CutGraph(V, x), s2, t, n, key, CutLeg(V, x.p, key, leg, x.c), way)
  {
    CutFacts(V, sh, t, x);
    if leg == On && NotAmong(V[x.p].cells, key) {
      WaysPart(V[x.p].cells, key);
      if !V[x.c].isLeaf && V[x.c].cells[1].key == key {
        CutEdge(V, sh, t, x, key, way);
      } else {
        CutOn(V, sh, t, x, key, way);
      }
    } else {
      CutOff(V, sh, t, x, key, leg, way);
    }
  }

  lemma HalfNode(V: Graph, sh: Spans, t: Node, x: Cut, n: Node)
    requires CutReady(V, sh, t, x) && (n == x.l || n == x.r)
    ensures |V[x.p].kids| == |V[x.p].cells| + 1
    ensures var W, s2 := CutGraph(V, x), CutSpans(V, sh, x);
      && n in W && n in s2 && |W[n].cells| == 2 && Ascending(W[n].cells) && s2[n].rank == sh[x.c].rank
      && sh[x.c].rank < sh[x.p].rank
      && s2[n].lo == (if n == x.l then sh[x.c].lo else V[x.c].cells[1].key)
      && s2[n].hi == (if n == x.l then V[x.c].cells[1].key else sh[x.c].hi)
      && W[n].isLeaf == V[x.c].isLeaf
  {
    CutFacts(V, sh, t, x);
    assert NodeOk(V[x.c], sh, x.c) && KidOk(V[x.p], sh, x.p, x.idx);
  }

  lemma CutOn(V: Graph, sh: Spans, t: Node, x: Cut, key: int, way: Way)
    requires CutReady(V, sh, t, x) && AtNode(V, sh, t, x.p, key, On, way) && x.idx == Slot(V[x.p].cells, key)
      && NotAmong(V[x.p].cells, key)
    requires |V[x.p].kids| == |V[x.p].cells| + 1 && Tree(CutGraph(V, x), CutSpans(V, sh, x), t)
      && (V[x.c].isLeaf || V[x.c].cells[1].key != key)
    ensures var n, s2 := if V[x.c].cells[1].key < key then x.r else x.l, CutSpans(V, sh, x);
      n in s2 && s2[n].rank < sh[x.p].rank && AtNode(CutGraph(V, x), s2, t, n, key, On, way)
  {
    var n := if V[x.c].cells[1].key < key then x.r else x.l;
    StepOn(V, sh, t, x.p, key, way);
    HalfNode(V, sh, t, x, n);
    RouteHalf(V, sh, t, x, key);
    CutPath(V, sh, t, x, t, key);
    hide CutSpans, CutGraph, Route, Tree, Slot;
    assert CutSpans(V, sh, x)[t] == sh[t] && Covers(CutSpans(V, sh, x), t, key) by { CutFacts(V, sh, t, x); }
    CutFacts(V, sh, t, x);
    PathOn(CutGraph(V, x), CutSpans(V, sh, x), t, t, x.p, key);
    CutChild(V, sh, t, x, key);
  }

  lemma CutOff(V: Graph, sh: Spans, t: Node, x: Cut, key: int, leg: Leg, way: Way)
    requires CutReady(V, sh, t, x) && AtNode(V, sh, t, x.p, key, leg, way) && x.idx == Gap(V[x.p].cells, key)
    requires |V[x.p].kids| == |V[x.p].cells| + 1 && Tree(CutGraph(V, x), CutSpans(V, sh, x), t)
      && (leg == Off || (leg == On && !NotAmong(V[x.p].cells, key)))
    ensures var n, s2 := if V[x.c].cells[1].key < key then x.r else x.l, CutSpans(V, sh, x);
      n == x.l && n in s2 && s2[n].rank < sh[x.p].rank && AtNode(CutGraph(V, x), s2, t, n, key, Off, way)
  {
    StepOff(V, sh, t, x.p, key, leg, way);
    CutFacts(V, sh, t, x);
    HalfNode(V, sh, t, x, x.l);
    hide CutSpans, CutGraph, Route, Tree, GoesOn, NodeOk;
  }

  lemma CutEdge(V: Graph, sh: Spans, t: Node, x: Cut, key: int, way: Way)
    requires CutReady(V, sh, t, x) && AtNode(V, sh, t, x.p, key, On, way) && x.idx == Slot(V[x.p].cells, key)
      && NotAmong(V[x.p].cells, key)
    requires |V[x.p].kids| == |V[x.p].cells| + 1 && Tree(CutGraph(V, x), CutSpans(V, sh, x), t) && !V[x.c].isLeaf
      && V[x.c].cells[1].key == key && x.dead == EmptyVal(sh[x.c].rank == 1)
    ensures var s2 := CutSpans(V, sh, x);
      x.l in s2 && s2[x.l].rank < sh[x.p].rank && AtNode(CutGraph(V, x), s2, t, x.l, key, Edge, way)
  {
    StepOn(V, sh, t, x.p, key, way);
    CutFacts(V, sh, t, x);
    HalfNode(V, sh, t, x, x.l);
    var W, s2 := CutGraph(V, x), CutSpans(V, sh, x);
    assert x.d in W && W[x.d] == x.dead && s2[x.d] == Span(key, key, 0);
    assert !NotAmong(V[x.c].cells, key);
    Step(V, sh, t, x.c, key);
    assert Local(V, sh, t, x.p) && x.c != t;
    assert W[x.l] == LeftOf(V[x.c], x.d) && W[x.l].cells[1] == V[x.c].cells[1] && W[x.l].kids[2] == x.d;
  }
}
