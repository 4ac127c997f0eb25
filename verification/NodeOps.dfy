/** Inserting into and deleting from the in-memory B+-tree, in place: what each operation does to the finite map
    that searches see. */
module NodeOps {
  import opened Options
  import opened NodeTree
  import opened NodeLookup
  import opened NodeRoute
  import opened NodeDescent

  // ---------------------------------------------------------------- at the leaf

  /** Whether the leaf has the key already. */
  method Has(leaf: Node, key: Int) returns (already: bool)
    requires leaf.Valid()
    ensures already <==> !NotAmong(leaf.Value().cells, key)
  {
    ghost var cells := leaf.Value().cells;
    already := false;
    for j := 0 to leaf.nbKeys
      invariant already <==> exists i :: 0 <= i < j && cells[i].key == key
    {
      assert cells[j] == leaf.keyVal[j];
      already := already || leaf.keyVal[j].key == key;
    }
  }

  lemma PlacedThen(cells: seq<KeyValue>, new_: seq<KeyValue>, n: nat, c: KeyValue)
    requires Part(cells, 0, new_, n) && n < |new_|
    ensures Spliced(cells, n, 0, [c], new_[n := c], n + 1)
  {}

  lemma StrictlyBelow(cells: seq<KeyValue>, i: nat, key: int)
    requires NotAmong(cells, key) && i < |cells| && cells[i].key <= key
    ensures cells[i].key < key
  {}

  /** The leaf's cells with the new one in its place, in a new array. */
  method PlaceCell(leaf: Node, kv: KeyValue) returns (newKeyVal: seq<KeyValue>)
    requires leaf.Valid() && leaf.nbKeys < MAX_KEYS && Ascending(leaf.Value().cells)
      && NotAmong(leaf.Value().cells, kv.key)
    ensures |newKeyVal| == MAX_KEYS
    ensures var cells := leaf.Value().cells;
      newKeyVal[..leaf.nbKeys + 1] == cells[..Slot(cells, kv.key)] + [kv] + cells[Slot(cells, kv.key)..]
  {
    hide *;
    ValueOf(leaf);
    ghost var cells := leaf.Value().cells;
    var i := 0;
    newKeyVal := seq(|leaf.keyVal|, j => kv);
    PartNone(cells, 0, newKeyVal);
    while i < leaf.nbKeys && leaf.keyVal[i].key <= kv.key
      invariant i <= leaf.nbKeys && |newKeyVal| == |leaf.keyVal| && Part(cells, 0, newKeyVal, i)
      invariant i > 0 ==> cells[i - 1].key < kv.key
    {
      assert cells[i] == leaf.keyVal[i];
      PartNext(cells, 0, newKeyVal, i);
      StrictlyBelow(cells, i, kv.key);
      newKeyVal := newKeyVal[i := leaf.keyVal[i]];
      i := i + 1;
    }
    assert i < leaf.nbKeys ==> cells[i] == leaf.keyVal[i];
    SlotUnique(cells, kv.key, i);
    PlacedThen(cells, newKeyVal, i, kv);
    newKeyVal := newKeyVal[i := kv];
    for j := i + 1 to leaf.nbKeys + 1
      invariant |newKeyVal| == |leaf.keyVal| && Spliced(cells, i, 0, [kv], newKeyVal, j)
    {
      assert cells[j - 1] == leaf.keyVal[j - 1];
      SplicedNext(cells, i, 0, [kv], newKeyVal, j);
      newKeyVal := newKeyVal[j := leaf.keyVal[j - 1]];
    }
    SplicedIs(cells, i, 0, [kv], newKeyVal, leaf.nbKeys + 1);
    assert cells[i..leaf.nbKeys] == cells[i..];
  }

  /** The row goes in where it belongs, unless its key is there already. */
  method AddToLeaf(leaf: Node, kv: KeyValue)
    requires leaf.Valid() && leaf.isLeaf && leaf.nbKeys < MAX_KEYS && Ascending(leaf.Value().cells)
    modifies leaf
    ensures leaf.Valid() && leaf.Value() == Val(true, PutCells(old(leaf.Value()).cells, kv), [])
  {
    var already := Has(leaf, kv.key);
    if !already {
      var newKeyVal := PlaceCell(leaf, kv);
      leaf.keyVal := newKeyVal;
      leaf.nbKeys := leaf.nbKeys + 1;
    }
  }

  /** The leaf's cells but for the key's, in a new array. */
  method Sift(leaf: Node, key: Int) returns (newKeyVal: seq<KeyValue>, found: bool)
    requires leaf.Valid() && Ascending(leaf.Value().cells)
    ensures |newKeyVal| == MAX_KEYS
    ensures var cells := leaf.Value().cells;
      && (found <==> !NotAmong(cells, key))
      && leaf.nbKeys >= (if found then 1 else 0)
      && newKeyVal[..leaf.nbKeys - if found then 1 else 0] == KeptUpTo(cells, key, |cells|)
  {
    hide *;
    ValueOf(leaf);
    ghost var cells := leaf.Value().cells;
    newKeyVal := seq(|leaf.keyVal|, j => KeyValue(0, Data([], [])));
    found := false;
    var kept := 0;
    KeptNone(cells, key);
    for i := 0 to leaf.nbKeys
      invariant |newKeyVal| == |leaf.keyVal| && kept == (if found then i - 1 else i)
        && newKeyVal[..kept] == KeptUpTo(cells, key, i)
      invariant found <==> !NotAmong(cells[..i], key)
    {
      assert cells[i] == leaf.keyVal[i];
      AmongNext(cells, key, i);
      KeptNext(cells, key, i);
      if leaf.keyVal[i].key != key {
        PrefixPush(newKeyVal, kept, leaf.keyVal[i]);
        newKeyVal := newKeyVal[kept := leaf.keyVal[i]];
        kept := kept + 1;
      } else {
        found := true;
      }
    }
    assert cells[..leaf.nbKeys] == cells;
  }

  lemma PrefixPush(s: seq<KeyValue>, n: nat, c: KeyValue)
    requires n < |s|
    ensures s[n := c][..n + 1] == s[..n] + [c]
  {}

  lemma KeptNone(cells: seq<KeyValue>, key: int)
    ensures KeptUpTo(cells, key, 0) == [] && NotAmong(cells[..0], key)
  {}

  lemma KeptNext(cells: seq<KeyValue>, key: int, i: nat)
    requires i < |cells|
    ensures KeptUpTo(cells, key, i + 1) == KeptUpTo(cells, key, i) + if cells[i].key == key then [] else [cells[i]]
  {}

  /** The row under the key goes, if there is one. */
  method RemoveFromLeaf(leaf: Node, key: Int)
    requires leaf.Valid() && leaf.isLeaf && Ascending(leaf.Value().cells)
    modifies leaf
    ensures leaf.Valid()
    ensures var cells := old(leaf.Value()).cells;
      leaf.Value() == Val(true, if NotAmong(cells, key) then cells else Without(cells, Slot(cells, key)), [])
  {
    hide *;
    ghost var cells := leaf.Value().cells;
    ValueOf(leaf);
    var newKeyVal, found := Sift(leaf, key);
    KeptIs(cells, key);
    if found {
      leaf.nbKeys := leaf.nbKeys - 1;
      leaf.keyVal := newKeyVal;
    }
    LeafValue(leaf, if found then newKeyVal[..leaf.nbKeys] else cells);
  }

  lemma LeafValue(n: Node, cells: seq<KeyValue>)
    requires n.isLeaf && n.nbKeys <= MAX_KEYS && |n.keyVal| == MAX_KEYS && |n.children| == MAX_KEYS + 1
      && n.keyVal[..n.nbKeys] == cells
    ensures n.Valid() && n.Value() == Val(true, cells, [])
  {}

  function Without(cells: seq<KeyValue>, i: nat): seq<KeyValue> {
    if i < |cells| then cells[..i] + cells[i + 1..] else cells
  }

  function KeptUpTo(cells: seq<KeyValue>, key: int, i: nat): seq<KeyValue>
    requires i <= |cells|
  {
    if i == 0 then [] else KeptUpTo(cells, key, i - 1) + if cells[i - 1].key == key then [] else [cells[i - 1]]
  }

  lemma AmongNext(cells: seq<KeyValue>, key: int, i: nat)
    requires i < |cells| && Ascending(cells)
    ensures NotAmong(cells[..i + 1], key) <==> NotAmong(cells[..i], key) && cells[i].key != key
    ensures cells[i].key == key ==> NotAmong(cells[..i], key)
  {
    var a, b := cells[..i], cells[..i + 1];
    assert forall j {:trigger a[j]} :: 0 <= j < i ==> a[j] == cells[j] == b[j];
    assert b[i] == cells[i];
  }

  lemma {:induction false} KeptPrefix(cells: seq<KeyValue>, key: int, i: nat)
    requires Ascending(cells) && i <= |cells|
    ensures KeptUpTo(cells, key, i) == Sifted(cells, key, i)
  {
    hide *;
    if i > 0 {
      KeptPrefix(cells, key, i - 1);
      KeptNext(cells, key, i - 1);
      SiftedNext(cells, key, i - 1);
    } else {
      KeptNone(cells, key);
      SiftedNone(cells, key);
    }
  }

  /** The first `i` cells but for the one in the key's slot. */
  function Sifted(cells: seq<KeyValue>, key: int, i: nat): seq<KeyValue>
    requires i <= |cells|
  {
    var s := Slot(cells, key);
    if s < i && cells[s].key == key then cells[..s] + cells[s + 1..i] else cells[..i]
  }

  lemma SiftedNone(cells: seq<KeyValue>, key: int)
    ensures Sifted(cells, key, 0) == []
  {}

  lemma SiftedNext(cells: seq<KeyValue>, key: int, i: nat)
    requires Ascending(cells) && i < |cells|
    ensures Sifted(cells, key, i + 1) == Sifted(cells, key, i) + if cells[i].key == key then [] else [cells[i]]
  {
    if cells[i].key == key { SlotUnique(cells, key, i); }
    hide Ascending, Slot;
    NextOf(cells, Slot(cells, key), i);
  }

  lemma NextOf(cells: seq<KeyValue>, s: nat, i: nat)
    requires i < |cells|
    ensures cells[..i + 1] == cells[..i] + [cells[i]] && cells[i + 1..i + 1] == []
    ensures s < i ==> cells[s + 1..i + 1] == cells[s + 1..i] + [cells[i]]
  {}

  lemma KeptIs(cells: seq<KeyValue>, key: int)
    requires Ascending(cells)
    ensures KeptUpTo(cells, key, |cells|) == if NotAmong(cells, key) then cells else Without(cells, Slot(cells, key))
    ensures !NotAmong(cells, key) ==> Slot(cells, key) < |cells| && cells[Slot(cells, key)].key == key
  {
    KeptPrefix(cells, key, |cells|);
    if !NotAmong(cells, key) {
      var i :| 0 <= i < |cells| && cells[i].key == key;
      SlotUnique(cells, key, i);
    }
    assert cells[..|cells|] == cells;
  }

  /** A leaf on the key's path gets other cells: what each lookup finds afterwards. */
  ghost predicate LeafReady(V: Graph, sh: Spans, t: Node, l: Node, key: int) {
    && Tree(V, sh, t) && Covers(sh, t, key) && OnPath(V, sh, t, t, l, key) && Covers(sh, l, key) && l in V
    && V[l].isLeaf
  }

  /** What a lookup finds after a put: the row that was there, or else the new one under its key. */
  ghost function AfterPut(V: Graph, sh: Spans, t: Node, kv: KeyValue, k: Int): Option<Data>
    requires Tree(V, sh, t)
  {
    if k == kv.key && Stored(V, sh, t, k) == None then Some(kv.value) else Stored(V, sh, t, k)
  }

  lemma LeafAdded(V: Graph, sh: Spans, t: Node, l: Node, kv: KeyValue, used: set<int>)
    requires LeafReady(V, sh, t, l, kv.key) && |V[l].cells| < MAX_KEYS && KeysIn(V, sh, used) && V[l].kids == []
    ensures var W := V[l := Val(true, PutCells(V[l].cells, kv), [])];
      && Tree(W, sh, t) && KeysIn(W, sh, used + {kv.key}) && (Filled(V, sh, t) ==> Filled(W, sh, t))
      && forall k: Int {:trigger Stored(W, sh, t, k)} :: Stored(W, sh, t, k) == AfterPut(V, sh, t, kv, k)
  {
    LeafHas(V, sh, t, l, kv.key);
    if NotAmong(V[l].cells, kv.key) {
      LeafGrown(V, sh, t, l, kv, used);
    } else {
      LeafSame(V, l);
    }
    hide LeafReady, Tree, KeysIn, Filled, Stored, Slot;
  }

  /** A key is stored if and only if it is among the cells of its leaf. */
  lemma LeafHas(V: Graph, sh: Spans, t: Node, l: Node, key: Int)
    requires LeafReady(V, sh, t, l, key)
    ensures Stored(V, sh, t, key) == None <==> NotAmong(V[l].cells, key)
  {
    PathEnds(V, sh, t, t, l, key);
    Step(V, sh, t, l, key);
    var i := Slot(V[l].cells, key);
    if !NotAmong(V[l].cells, key) {
      var j :| 0 <= j < |V[l].cells| && V[l].cells[j].key == key;
      SlotUnique(V[l].cells, key, j);
    }
  }

  lemma LeafSame(V: Graph, l: Node)
    requires l in V && V[l].isLeaf && V[l].kids == []
    ensures V[l := Val(true, V[l].cells, [])] == V
  {}

  lemma LeafGrown(V: Graph, sh: Spans, t: Node, l: Node, kv: KeyValue, used: set<int>)
    requires LeafReady(V, sh, t, l, kv.key) && |V[l].cells| < MAX_KEYS && NotAmong(V[l].cells, kv.key)
      && KeysIn(V, sh, used)
    ensures var cells := V[l].cells;
      var W := V[l := Val(true, cells[..Slot(cells, kv.key)] + [kv] + cells[Slot(cells, kv.key)..], [])];
      && Tree(W, sh, t) && KeysIn(W, sh, used + {kv.key}) && (Filled(V, sh, t) ==> Filled(W, sh, t))
      && forall k: Int {:trigger Stored(W, sh, t, k)} ::
           Stored(W, sh, t, k) == if k == kv.key then Some(kv.value) else Stored(V, sh, t, k)
  {
    hide *;
    GrownOk(V, sh, t, l, kv);
    var cells := V[l].cells;
    var i := Slot(cells, kv.key);
    var v := Val(true, cells[..i] + [kv] + cells[i..], []);
    var W := V[l := v];
    LeafSet(V, sh, t, l, v, t, kv.key);
    PathEnds(V, sh, t, t, l, kv.key);
    forall k: Int ensures Stored(W, sh, t, k) == if k == kv.key then Some(kv.value) else Stored(V, sh, t, k) {
      StoredIs(V, sh, t, k);
      StoredIs(W, sh, t, k);
      LeafSet(V, sh, t, l, v, t, k);
      GetInserted(cells, i, kv, k);
      LeafSelf(V, sh, t, l, kv.key);
    }
    LeafAddedKeys(V, sh, t, l, kv, used, i);
  }

  lemma StoredIs(V: Graph, sh: Spans, t: Node, k: Int)
    requires Tree(V, sh, t)
    ensures Covers(sh, t, k) && Stored(V, sh, t, k) == Lookup(V, sh, t, t, k) == Get(V[LeafAt(V, sh, t, t, k)].cells, k)
  {}

  lemma LeafSelf(V: Graph, sh: Spans, t: Node, l: Node, k: int)
    requires Tree(V, sh, t) && Covers(sh, l, k) && l in V && V[l].isLeaf
    ensures LeafAt(V, sh, t, l, k) == l
  {}

  lemma GrownOk(V: Graph, sh: Spans, t: Node, l: Node, kv: KeyValue)
    requires LeafReady(V, sh, t, l, kv.key) && |V[l].cells| < MAX_KEYS && NotAmong(V[l].cells, kv.key)
    ensures var cells, i := V[l].cells, Slot(V[l].cells, kv.key);
      && l in V && V[l].isLeaf && Tree(V, sh, t) && t in V && l in sh && sh[l].lo < kv.key && Live(sh, l)
      && Ascending(cells)
      && Covers(sh, l, kv.key) && Covers(sh, t, kv.key) && OnPath(V, sh, t, t, l, kv.key)
      && i <= |cells| && (i > 0 ==> cells[i - 1].key < kv.key) && (i < |cells| ==> kv.key < cells[i].key)
      && NodeOk(Val(true, cells[..i] + [kv] + cells[i..], []), sh, l)
  {
    Step(V, sh, t, l, kv.key);
    Step(V, sh, t, t, kv.key);
    hide Tree, OnPath, Ascending;
    GrownNode(V[l].cells, Slot(V[l].cells, kv.key), kv, sh, l);
  }

  lemma GrownNode(cells: seq<KeyValue>, i: nat, kv: KeyValue, sh: Spans, l: Node)
    requires Ascending(cells) && i <= |cells| < MAX_KEYS && l in sh && sh[l].rank == 0
    requires (i > 0 ==> cells[i - 1].key < kv.key) && (i < |cells| ==> kv.key < cells[i].key)
    requires Inside(cells, sh[l].lo - 1, sh[l].hi) && sh[l].lo < kv.key <= sh[l].hi
    ensures NodeOk(Val(true, cells[..i] + [kv] + cells[i..], []), sh, l)
  {
    var w := cells[..i] + [kv] + cells[i..];
    AscendingWith(cells, i, kv);
    hide Ascending;
    assert forall j {:trigger w[j]} :: 0 <= j < |w| ==>
      w[j] == if j < i then cells[j] else if j == i then kv else cells[j - 1];
  }

  lemma LeafAddedKeys(V: Graph, sh: Spans, t: Node, l: Node, kv: KeyValue, used: set<int>, i: nat)
    requires l in V && V[l].isLeaf && i <= |V[l].cells| && KeysIn(V, sh, used) && t in V && l in sh && sh[l].lo < kv.key
    ensures var W := V[l := Val(true, V[l].cells[..i] + [kv] + V[l].cells[i..], [])];
      KeysIn(W, sh, used + {kv.key}) && (Filled(V, sh, t) ==> Filled(W, sh, t))
  {
    var cells, v := V[l].cells, Val(true, V[l].cells[..i] + [kv] + V[l].cells[i..], []);
    var W := V[l := v];
    forall n, j | n in sh && n in W && 0 <= j < |W[n].cells| ensures W[n].cells[j].key in used + {kv.key} {
      if n == l {
        assert v.cells[j] == if j < i then cells[j] else if j == i then kv else cells[j - 1];
      } else {
        assert W[n].cells[j] == V[n].cells[j];
      }
    }
  }

  lemma LeafRemoved(V: Graph, sh: Spans, t: Node, l: Node, key: Int, used: set<int>)
    requires LeafReady(V, sh, t, l, key) && KeysIn(V, sh, used)
    ensures var cells := V[l].cells;
      var W := V[l := Val(true, if NotAmong(cells, key) then cells else Without(cells, Slot(cells, key)), [])];
      && Tree(W, sh, t) && KeysIn(W, sh, used)
      && forall k: Int {:trigger Stored(W, sh, t, k)} ::
           Stored(W, sh, t, k) == if k == key then None else Stored(V, sh, t, k)
  {
    var cells := V[l].cells;
    var v := Val(true, if NotAmong(cells, key) then cells else Without(cells, Slot(cells, key)), []);
    var W := V[l := v];
    RemovedOk(V, sh, t, l, key, used, v);
    LeafSet(V, sh, t, l, v, t, key);
    PathEnds(V, sh, t, t, l, key);
    hide Tree, NodeOk, Slot, Without, KeysIn, NotAmong;
    forall k: Int ensures Stored(W, sh, t, k) == if k == key then None else Stored(V, sh, t, k) {
      LeafSet(V, sh, t, l, v, t, k);
      RemovedGet(cells, key, k);
    }
  }

  lemma RemovedOk(V: Graph, sh: Spans, t: Node, l: Node, key: Int, used: set<int>, v: Val)
    requires LeafReady(V, sh, t, l, key) && KeysIn(V, sh, used)
    requires v == Val(true, if NotAmong(V[l].cells, key) then V[l].cells
      else Without(V[l].cells, Slot(V[l].cells, key)), [])
    ensures Live(sh, l) && NodeOk(v, sh, l) && KeysIn(V[l := v], sh, used) && Ascending(V[l].cells)
  {
    Step(V, sh, t, l, key);
    RemovedCells(V[l].cells, key, v.cells, sh[l].lo - 1, sh[l].hi);
    hide Slot, Without, NotAmong, Ascending, Inside;
    var W := V[l := v];
    forall n, j | n in sh && n in W && 0 <= j < |W[n].cells| ensures W[n].cells[j].key in used {
      if n != l {
        assert W[n].cells[j] == V[n].cells[j];
      } else {
        assert v.cells[j] in V[l].cells;
        var i :| 0 <= i < |V[l].cells| && V[l].cells[i] == v.cells[j];
      }
    }
  }

  lemma RemovedCells(cells: seq<KeyValue>, key: int, w: seq<KeyValue>, lo: int, hi: int)
    requires Ascending(cells) && Inside(cells, lo, hi)
    requires w == if NotAmong(cells, key) then cells else Without(cells, Slot(cells, key))
    ensures Ascending(w) && Inside(w, lo, hi) && |w| <= |cells| && forall j {:trigger w[j]} :: 0 <= j < |w| ==>
      w[j] in cells
  {
    hide *;
    if NotAmong(cells, key) {
      AllIn(cells);
    } else {
      SlotIn(cells, key);
      Dropped(cells, Slot(cells, key), w, lo, hi);
    }
  }

  lemma AllIn(cells: seq<KeyValue>)
    ensures forall j {:trigger cells[j]} :: 0 <= j < |cells| ==> cells[j] in cells
  {}

  lemma SlotIn(cells: seq<KeyValue>, key: int)
    requires Ascending(cells) && !NotAmong(cells, key)
    ensures Slot(cells, key) < |cells|
  {
    KeptIs(cells, key);
  }

  lemma Dropped(cells: seq<KeyValue>, i: nat, w: seq<KeyValue>, lo: int, hi: int)
    requires Ascending(cells) && Inside(cells, lo, hi) && i < |cells| && w == Without(cells, i)
    ensures Ascending(w) && Inside(w, lo, hi) && |w| <= |cells| && forall j {:trigger w[j]} :: 0 <= j < |w| ==>
      w[j] in cells
  {
    assert forall j {:trigger w[j]} :: 0 <= j < |w| ==> w[j] == if j >= i then cells[j + 1] else cells[j];
  }

  lemma RemovedGet(cells: seq<KeyValue>, key: int, k: int)
    requires Ascending(cells)
    ensures Get(if NotAmong(cells, key) then cells else Without(cells, Slot(cells, key)), k) ==
      if k == key then None else Get(cells, k)
  {
    hide *;
    KeptIs(cells, key);
    if NotAmong(cells, key) {
      AbsentGet(cells, key);
    } else {
      WithoutAt(cells, Slot(cells, key));
      GetDeleted(cells, Slot(cells, key), k);
    }
  }

  lemma AbsentGet(cells: seq<KeyValue>, key: int)
    requires NotAmong(cells, key)
    ensures Get(cells, key) == None
  {}

  lemma WithoutAt(cells: seq<KeyValue>, i: nat)
    requires i < |cells|
    ensures Without(cells, i) == cells[..i] + cells[i + 1..] && |Without(cells, i)| == |cells| - 1
  {}

  /** After a leaf was changed in place. */
  lemma LeafLook(V: Graph, sh: Spans, l: Node, v: Val)
    requires V.Keys == sh.Keys && l in sh && l.Valid() && l.Value() == v
    requires forall n {:trigger n in sh.Keys} :: n in sh.Keys && n != l ==> n.Valid() && V[n] == n.Value()
    ensures (forall n {:trigger n in sh.Keys} :: n in sh.Keys ==> n.Valid()) && Look(sh.Keys) == V[l := v]
  {
    forall n | n in sh.Keys ensures n.Valid() && V[l := v][n] == n.Value() {}
    LookIs(sh.Keys, V[l := v]);
  }

  // ---------------------------------------------------------------- the operations

  lemma StoresFacts(sh: Spans, t: Node, m: map<Int, Data>, used: set<int>)
    requires Stores(sh, t, m, used)
    ensures Holding(sh, t) && KeysIn(Look(sh.Keys), sh, used) && Tree(Look(sh.Keys), sh, t)
    ensures forall k {:trigger k in m} :: k in m ==> k in used
    ensures forall k: Int {:trigger Stored(Look(sh.Keys), sh, t, k)} ::
      Stored(Look(sh.Keys), sh, t, k) == if k in m then Some(m[k]) else None
  {}

  lemma SpansAll(V: Graph, sh: Spans, t: Node, k: Int)
    requires Tree(V, sh, t)
    ensures Covers(sh, t, k) && OnPath(V, sh, t, t, t, k) && t in V && |V[t].cells| <= MAX_KEYS
  {
    Step(V, sh, t, t, k);
  }

  lemma SameThrough(V: Graph, sh: Spans, W: Graph, s2: Spans, X: Graph, s3: Spans, t: Node)
    requires Tree(V, sh, t) && Tree(W, s2, t) && Tree(X, s3, t) && SameFound(V, sh, W, s2, t)
      && SameFound(W, s2, X, s3, t)
    ensures SameFound(V, sh, X, s3, t)
  {
    forall k: Int
      ensures Stored(X, s3, t, k) == Stored(V, sh, t, k)
    {
      assert Stored(X, s3, t, k) == Stored(W, s2, t, k);
    }
  }

  /** Down to a leaf for the key, splitting every full node on the way; null if a child pointer on the way was never
      set. */
  method MakeRoom(t: Node, key: Int, ghost sh: Spans, ghost used: set<int>)
    returns (leaf: Node?, ghost sh': Spans, ghost leg: Leg)
    requires Holding(sh, t) && KeysIn(Look(sh.Keys), sh, used)
    modifies sh.Keys
    ensures sh.Keys <= sh'.Keys && fresh(sh'.Keys - sh.Keys) && Holding(sh', t)
    ensures var way := old(WayOf(Look(sh.Keys), sh, t, key));
      if leaf == null then way == Unset && KeysIn(Look(sh'.Keys), sh', used)
      else leaf in sh' && leaf.isLeaf && At(sh', t, leaf, key, used, leg, way)
    ensures SameFound(old(Look(sh.Keys)), sh, Look(sh'.Keys), sh', t)
    ensures old(Filled(Look(sh.Keys), sh, t)) ==> Filled(Look(sh'.Keys), sh', t)
    ensures RootKept(old(Look(sh.Keys)), Look(sh'.Keys), t)
  {
    hide *;
    HoldingFacts(sh, t);
    ghost var V := Look(sh.Keys);
    ghost var way := WayOf(V, sh, t, key);
    LookAll(sh.Keys);
    SpansAll(V, sh, t, key);
    ValueOf(t);
    SameIsSame(V, sh, t);
    SameStay(V, t);
    sh', leg := sh, On;
    if t.nbKeys >= MAX_KEYS {
      sh' := SplitRoot(t, key, sh, used);
      HoldingFacts(sh', t);
      LookAll(sh'.Keys);
      SpansAll(Look(sh'.Keys), sh', t, key);
      ValueOf(t);
      OneIsRoom();
    }
    leaf := t;
    RootKeptNow(V, Look(sh'.Keys), t);
    StartsOn(Look(sh'.Keys), sh', t, key, way);
    AtNow(sh', t, t, key, used, On, way);
    while leaf != null && !leaf.isLeaf
      invariant sh.Keys <= sh'.Keys && fresh(sh'.Keys - sh.Keys) && Holding(sh', t)
      invariant forall n {:trigger n in sh'.Keys} :: n in sh'.Keys ==> n.Valid()
      invariant Tree(Look(sh'.Keys), sh', t) && SameFound(V, sh, Look(sh'.Keys), sh', t)
      invariant if leaf == null then way == Unset && KeysIn(Look(sh'.Keys), sh', used)
        else leaf in sh' && At(sh', t, leaf, key, used, leg, way)
      invariant Filled(V, sh, t) ==> Filled(Look(sh'.Keys), sh', t)
      invariant RootKept(V, Look(sh'.Keys), t)
      decreases if leaf == null then 0 else sh'[leaf].rank + 1
    {
      ghost var s1, W := sh', Look(sh'.Keys);
      leaf, sh', leg := StepDown(t, leaf, key, sh', used, leg, way);
      HoldingFacts(sh', t);
      SameThrough(V, sh, W, s1, Look(sh'.Keys), sh', t);
      StayThrough(V, W, Look(sh'.Keys), t);
    }
  }

  /** What an insert leaves of the root: a full root becomes an interior node over its second key, and separators
      stay. */
  ghost predicate RootKept(V: Graph, W: Graph, t: Node) {
    && t in V && t in W
    && (if |V[t].cells| == MAX_KEYS then !W[t].isLeaf && !NotAmong(W[t].cells, V[t].cells[1].key)
         else SeparatorsStay(V, W, t))
  }

  lemma RootKeptNow(V: Graph, W: Graph, t: Node)
    requires t in V && t in W && |V[t].cells| <= MAX_KEYS
    requires if |V[t].cells| == MAX_KEYS then !W[t].isLeaf && W[t].cells == [V[t].cells[1]] else SeparatorsStay(V, W, t)
    ensures RootKept(V, W, t)
  {
    if |V[t].cells| == MAX_KEYS { assert W[t].cells[0].key == V[t].cells[1].key; }
  }

  lemma StayThrough(V: Graph, W: Graph, X: Graph, t: Node)
    requires RootKept(V, W, t) && SeparatorsStay(W, X, t)
    ensures RootKept(V, X, t)
  {}

  lemma StartsOn(V: Graph, sh: Spans, t: Node, key: Int, way: Way)
    requires Tree(V, sh, t) && way == WayOf(V, sh, t, key) && t in V && |V[t].cells| < MAX_KEYS
    ensures AtNode(V, sh, t, t, key, On, way)
  {
    Step(V, sh, t, t, key);
  }

  /** `yabinsert`. On the direct way the map gains the key, or stays as it is if it had it; on any other way no lookup
      changes. There is no result if the C code follows a child pointer that was never set. */
  method Insert(t: Node, kv: KeyValue, ghost sh: Spans, ghost m: map<Int, Data>, ghost used: set<int>)
    returns (ret: Option<int>, ghost sh': Spans)
    requires Stores(sh, t, m, used)
    modifies sh.Keys
    ensures sh.Keys <= sh'.Keys && fresh(sh'.Keys - sh.Keys)
    ensures var way := old(WayOf(Look(sh.Keys), sh, t, kv.key));
      && ret == (if way == Unset then None else Some(1))
      && Stores(sh', t, if way == Direct && kv.key !in m then m[kv.key := kv.value] else m, used + {kv.key})
      && (old(Filled(Look(sh.Keys), sh, t)) && way == Direct ==> Filled(Look(sh'.Keys), sh', t))
    ensures RootKept(old(Look(sh.Keys)), Look(sh'.Keys), t) || (t.isLeaf && old(t.isLeaf && t.nbKeys < MAX_KEYS))
  {
    hide *;
    StoresFacts(sh, t, m, used);
    HoldingFacts(sh, t);
    ghost var V := Look(sh.Keys);
    ghost var way := WayOf(V, sh, t, kv.key);
    LookAll(sh.Keys);
    ValueOf(t);
    var leaf;
    ghost var leg;
    leaf, sh', leg := MakeRoom(t, kv.key, sh, used);
    HoldingFacts(sh', t);
    ghost var W := Look(sh'.Keys);
    LookAll(sh'.Keys);
    if leaf == null {
      MoreUsed(W, sh', used, kv.key);
      StoresSame(V, sh, W, W, sh', t, m, used, kv);
      return None, sh';
    }
    ValueOf(leaf);
    AtFacts(sh', t, leaf, kv.key, used, leg, way);
    AtLeaf(W, sh', t, leaf, kv, used, leg, way);
    AddToLeaf(leaf, kv);
    LeafLook(W, sh', leaf, leaf.Value());
    HoldingNow(sh', t);
    if way == Direct {
      StoresMore(V, sh, W, Look(sh'.Keys), sh', t, m, used, kv);
    } else {
      StoresSame(V, sh, W, Look(sh'.Keys), sh', t, m, used, kv);
    }
    RootAfter(V, W, Look(sh'.Keys), t, leaf);
    ValueOf(t);
    ret := Some(1);
  }

  lemma RootAfter(V: Graph, W: Graph, X: Graph, t: Node, leaf: Node)
    requires RootKept(V, W, t) && leaf in W && X.Keys == W.Keys && W[leaf].isLeaf
      && (forall n {:trigger X[n]} :: n in W && n != leaf ==> X[n] == W[n])
    requires leaf in X && X[leaf].isLeaf
    ensures RootKept(V, X, t)
      || (t == leaf && t in V && t in X && X[t].isLeaf && V[t].isLeaf && |V[t].cells| != MAX_KEYS)
  {}

  lemma MoreUsed(V: Graph, sh: Spans, used: set<int>, key: int)
    requires KeysIn(V, sh, used)
    ensures KeysIn(V, sh, used + {key})
  {}

  /** The cells of a leaf after a put. */
  ghost function PutCells(cells: seq<KeyValue>, kv: KeyValue): seq<KeyValue> {
    if NotAmong(cells, kv.key) then cells[..Slot(cells, kv.key)] + [kv] + cells[Slot(cells, kv.key)..] else cells
  }

  /** What a put into the leaf that the insert reached does to lookups. */
  lemma AtLeaf(V: Graph, sh: Spans, t: Node, l: Node, kv: KeyValue, used: set<int>, leg: Leg, way: Way)
    requires AtNode(V, sh, t, l, kv.key, leg, way) && V[l].isLeaf && V[l].kids == [] && KeysIn(V, sh, used)
    ensures way != Unset
    ensures var W := V[l := Val(true, PutCells(V[l].cells, kv), [])];
      && Tree(W, sh, t) && KeysIn(W, sh, used + {kv.key}) && (Filled(V, sh, t) && way == Direct ==> Filled(W, sh, t))
      && forall k: Int {:trigger Stored(W, sh, t, k)} ::
           Stored(W, sh, t, k) == if way == Direct then AfterPut(V, sh, t, kv, k) else Stored(V, sh, t, k)
  {
    match leg
    case On =>
      LeafWay(V, sh, t, l, kv.key);
      LeafReadyNow(V, sh, t, l, kv.key);
      LeafAdded(V, sh, t, l, kv, used);
      hide *;
    case Off =>
      LeafStrayed(V, sh, t, l, kv, used);
      hide *;
    case Hole =>
      LeafParked(V, sh, t, l, kv, used);
      hide *;
    case Edge =>
  }

  lemma LeafWay(V: Graph, sh: Spans, t: Node, l: Node, k: int)
    requires Tree(V, sh, t) && Covers(sh, l, k) && l in V && V[l].isLeaf && |V[l].cells| < MAX_KEYS
    ensures Route(V, sh, t, l, k) == Direct
  {}

  /** A key put into the leaf that begins right above it is found by no lookup. */
  lemma LeafStrayed(V: Graph, sh: Spans, t: Node, l: Node, kv: KeyValue, used: set<int>)
    requires Tree(V, sh, t) && l in V && Live(sh, l) && sh[l].lo == kv.key && V[l].isLeaf && |V[l].cells| < MAX_KEYS
      && KeysIn(V, sh, used)
    requires V[l].kids == []
    ensures var W := V[l := Val(true, PutCells(V[l].cells, kv), [])];
      && Tree(W, sh, t) && KeysIn(W, sh, used + {kv.key})
      && forall k: Int {:trigger Stored(W, sh, t, k)} :: Stored(W, sh, t, k) == Stored(V, sh, t, k)
  {
    var cells := V[l].cells;
    assert Local(V, sh, t, l);
    if NotAmong(cells, kv.key) {
      var v := Val(true, [kv] + cells, []);
      assert forall j {:trigger cells[j]} :: 0 <= j < |cells| ==> kv.key < cells[j].key;
      SlotUnique(cells, kv.key, 0);
      assert PutCells(cells, kv) == v.cells by { assert cells[..0] == [] && cells[0..] == cells; }
      StrayOk(V, sh, t, l, kv, v, used);
    } else {
      LeafSame(V, l);
      MoreUsed(V, sh, used, kv.key);
    }
  }

  lemma StrayOk(V: Graph, sh: Spans, t: Node, l: Node, kv: KeyValue, v: Val, used: set<int>)
    requires Tree(V, sh, t) && l in V && Live(sh, l) && sh[l].lo == kv.key && V[l].isLeaf && |V[l].cells| < MAX_KEYS
      && KeysIn(V, sh, used)
    requires v == Val(true, [kv] + V[l].cells, []) && forall j {:trigger V[l].cells[j]} :: 0 <= j < |V[l].cells| ==>
      kv.key < V[l].cells[j].key
    ensures var W := V[l := v];
      && Tree(W, sh, t) && KeysIn(W, sh, used + {kv.key})
      && forall k: Int {:trigger Stored(W, sh, t, k)} :: Stored(W, sh, t, k) == Stored(V, sh, t, k)
  {
    hide KeysIn, NodeOk;
    var cells, W := V[l].cells, V[l := v];
    StrayNode(V, sh, t, l, kv, v);
    StrayKeys(V, sh, l, kv, v, used);
    SpansAll(V, sh, t, kv.key);
    LeafSet(V, sh, t, l, v, t, kv.key);
    forall k: Int ensures Stored(W, sh, t, k) == Stored(V, sh, t, k) {
      LeafSet(V, sh, t, l, v, t, k);
      GetInserted(cells, 0, kv, k);
      assert cells[..0] + [kv] + cells[0..] == v.cells;
    }
  }

  lemma StrayNode(V: Graph, sh: Spans, t: Node, l: Node, kv: KeyValue, v: Val)
    requires Tree(V, sh, t) && l in V && Live(sh, l) && sh[l].lo == kv.key && V[l].isLeaf && |V[l].cells| < MAX_KEYS
    requires v == Val(true, [kv] + V[l].cells, []) && forall j {:trigger V[l].cells[j]} :: 0 <= j < |V[l].cells| ==>
      kv.key < V[l].cells[j].key
    ensures NodeOk(v, sh, l) && Ascending(V[l].cells)
  {
    assert Local(V, sh, t, l);
    hide Tree;
    assert forall j {:trigger v.cells[j]} :: 0 <= j < |v.cells| ==>
      v.cells[j] == if j == 0 then kv else V[l].cells[j - 1];
  }

  lemma StrayKeys(V: Graph, sh: Spans, l: Node, kv: KeyValue, v: Val, used: set<int>)
    requires l in V && KeysIn(V, sh, used) && v.cells == [kv] + V[l].cells && l in sh
    ensures KeysIn(V[l := v], sh, used + {kv.key})
  {
    var W := V[l := v];
    forall n, j | n in sh && n in W && 0 <= j < |W[n].cells| ensures W[n].cells[j].key in used + {kv.key} {
      if n != l {
        assert W[n].cells[j] == V[n].cells[j];
      } else if j > 0 {
        assert W[n].cells[j] == V[n].cells[j - 1];
      }
    }
  }

  /** A key put into a placeholder is found by no lookup. */
  lemma LeafParked(V: Graph, sh: Spans, t: Node, l: Node, kv: KeyValue, used: set<int>)
    requires Tree(V, sh, t) && l in V && l in sh && !Live(sh, l) && V[l] == EmptyVal(true) && KeysIn(V, sh, used)
    ensures var W := V[l := Val(true, PutCells(V[l].cells, kv), [])];
      && Tree(W, sh, t) && KeysIn(W, sh, used + {kv.key}) && (Filled(V, sh, t) ==> Filled(W, sh, t))
      && forall k: Int {:trigger Stored(W, sh, t, k)} :: Stored(W, sh, t, k) == Stored(V, sh, t, k)
  {
    var v := Val(true, PutCells(V[l].cells, kv), []);
    var W := V[l := v];
    assert v.cells == [kv];
    assert Live(sh, t);
    DeadSet(V, sh, t, l, v, t, kv.key);
    forall k: Int ensures Stored(W, sh, t, k) == Stored(V, sh, t, k) { DeadSet(V, sh, t, l, v, t, k); }
    forall n, j | n in sh && n in W && 0 <= j < |W[n].cells| ensures W[n].cells[j].key in used + {kv.key} {
      if n != l { assert W[n].cells[j] == V[n].cells[j]; }
    }
  }

  lemma {:induction false} DeadSet(V: Graph, sh: Spans, t: Node, l: Node, v: Val, n: Node, k: int)
    requires Tree(V, sh, t) && l in sh && !Live(sh, l) && Covers(sh, n, k)
    ensures Tree(V[l := v], sh, t) && Lookup(V[l := v], sh, t, n, k) == Lookup(V, sh, t, n, k)
    decreases sh[n].rank
  {
    var W := V[l := v];
    forall m | m in sh ensures Local(W, sh, t, m) { assert Local(V, sh, t, m); }
    Step(V, sh, t, n, k);
    Step(W, sh, t, n, k);
    if !V[n].isLeaf { DeadSet(V, sh, t, l, v, V[n].kids[Slot(V[n].cells, k)], k); }
  }

  lemma LeafReadyNow(V: Graph, sh: Spans, t: Node, l: Node, key: int)
    requires Tree(V, sh, t) && Covers(sh, t, key) && OnPath(V, sh, t, t, l, key) && Covers(sh, l, key) && l in V
      && V[l].isLeaf
    ensures LeafReady(V, sh, t, l, key)
  {}

  lemma StoresMore(V: Graph, sh: Spans, W: Graph, X: Graph, sh': Spans, t: Node, m: map<Int, Data>, used: set<int>,
                   kv: KeyValue)
    requires Tree(V, sh, t) && Tree(W, sh', t) && Holding(sh', t) && X == Look(sh'.Keys)
      && KeysIn(X, sh', used + {kv.key})
    requires SameFound(V, sh, W, sh', t)
    requires forall k: Int {:trigger Stored(V, sh, t, k)} :: Stored(V, sh, t, k) == if k in m then Some(m[k]) else None
    requires forall k {:trigger k in m} :: k in m ==> k in used
    requires forall k: Int {:trigger Stored(X, sh', t, k)} :: Stored(X, sh', t, k) == AfterPut(W, sh', t, kv, k)
    ensures Stores(sh', t, if kv.key in m then m else m[kv.key := kv.value], used + {kv.key})
  {
    var m' := if kv.key in m then m else m[kv.key := kv.value];
    assert Stored(W, sh', t, kv.key) == Stored(V, sh, t, kv.key);
    forall k: Int ensures Stored(X, sh', t, k) == if k in m' then Some(m'[k]) else None {
      assert Stored(W, sh', t, k) == Stored(V, sh, t, k);
    }
  }

  lemma StoresSame(V: Graph, sh: Spans, W: Graph, X: Graph, sh': Spans, t: Node, m: map<Int, Data>, used: set<int>,
                   kv: KeyValue)
    requires Tree(V, sh, t) && Tree(W, sh', t) && Holding(sh', t) && X == Look(sh'.Keys)
      && KeysIn(X, sh', used + {kv.key})
    requires SameFound(V, sh, W, sh', t)
    requires forall k: Int {:trigger Stored(V, sh, t, k)} :: Stored(V, sh, t, k) == if k in m then Some(m[k]) else None
    requires forall k {:trigger k in m} :: k in m ==> k in used
    requires forall k: Int {:trigger Stored(X, sh', t, k)} :: Stored(X, sh', t, k) == Stored(W, sh', t, k)
    ensures Stores(sh', t, m, used + {kv.key})
  {
    forall k: Int ensures Stored(X, sh', t, k) == if k in m then Some(m[k]) else None {
      assert Stored(W, sh', t, k) == Stored(V, sh, t, k);
    }
  }

  // ---------------------------------------------------------------- delete

  /** The binary search of `yabdelete`: the first cell that is not below the key. */
  method FloorOf(n: Node, key: Int) returns (max: nat)
    requires n.Valid() && Ascending(n.Value().cells)
    ensures max <= n.nbKeys && max == Slot(n.Value().cells, key)
  {
    ghost var cells := n.Value().cells;
    assert forall i {:trigger cells[i]} :: 0 <= i < n.nbKeys ==> cells[i] == n.keyVal[i];
    var lo, hi := -1, n.nbKeys as int;
    while hi - lo > 1
      invariant -1 <= lo < hi <= n.nbKeys
      invariant lo >= 0 ==> cells[lo].key < key
      invariant hi < n.nbKeys ==> key <= cells[hi].key
    {
      var curIdx := (hi + lo) / 2;
      assert cells[curIdx] == n.keyVal[curIdx];
      if n.keyVal[curIdx].key < key {
        lo := curIdx;
      } else {
        hi := curIdx;
      }
    }
    max := hi;
    SlotUnique(cells, key, max);
  }

  /** The leaf for the key. */
  method ToLeaf(t: Node, key: Int, ghost sh: Spans) returns (leaf: Node)
    requires Holding(sh, t)
    ensures leaf in sh && leaf.isLeaf && Covers(sh, t, key) && Covers(sh, leaf, key)
      && OnPath(Look(sh.Keys), sh, t, t, leaf, key)
  {
    hide *;
    HoldingFacts(sh, t);
    LookAll(sh.Keys);
    ghost var V := Look(sh.Keys);
    SpansAll(V, sh, t, key);
    leaf := t;
    while !leaf.isLeaf
      invariant leaf in sh && Covers(sh, t, key) && Covers(sh, leaf, key) && OnPath(V, sh, t, t, leaf, key)
      decreases sh[leaf].rank
    {
      ValueOf(leaf);
      NodeAt(V, sh, t, leaf, key);
      var max := FloorOf(leaf, key);
      NextChild(V, sh, t, leaf, key);
      leaf := leaf.children[max];
    }
  }

  /** `yabdelete`: the map loses the key, if it has it. */
  method Delete(t: Node, key: Int, ghost sh: Spans, ghost m: map<Int, Data>, ghost used: set<int>) returns (ret: int)
    requires Stores(sh, t, m, used)
    modifies sh.Keys
    ensures ret == 1 && Stores(sh, t, m - {key}, used)
    ensures old(t.Valid() && !t.isLeaf) ==> t.Valid() && !t.isLeaf && t.Value() == old(t.Value())
  {
    hide *;
    StoresFacts(sh, t, m, used);
    HoldingFacts(sh, t);
    ghost var V := Look(sh.Keys);
    LookAll(sh.Keys);
    var leaf := ToLeaf(t, key, sh);
    NodeAt(V, sh, t, leaf, key);
    ValueOf(leaf);
    LeafReadyNow(V, sh, t, leaf, key);
    LeafRemoved(V, sh, t, leaf, key, used);
    RemoveFromLeaf(leaf, key);
    LeafLook(V, sh, leaf, leaf.Value());
    HoldingNow(sh, t);
    StoresLess(V, sh, Look(sh.Keys), t, m, used, key);
    ret := 1;
  }

  lemma StoresLess(V: Graph, sh: Spans, W: Graph, t: Node, m: map<Int, Data>, used: set<int>, key: Int)
    requires Tree(V, sh, t) && Holding(sh, t) && W == Look(sh.Keys) && KeysIn(W, sh, used)
    requires forall k: Int {:trigger Stored(V, sh, t, k)} :: Stored(V, sh, t, k) == if k in m then Some(m[k]) else None
    requires forall k {:trigger k in m} :: k in m ==> k in used
    requires forall k: Int {:trigger Stored(W, sh, t, k)} ::
      Stored(W, sh, t, k) == if k == key then None else Stored(V, sh, t, k)
    ensures Stores(sh, t, m - {key}, used)
  {
    forall k: Int ensures Stored(W, sh, t, k) == if k in m - {key} then Some((m - {key})[k]) else None {
      assert Stored(V, sh, t, k) == if k in m then Some(m[k]) else None;
    }
  }

  /** `yabsearch`: what the map has under the key. */
  method Find(t: Node, key: Int, ghost sh: Spans, ghost m: map<Int, Data>, ghost used: set<int>)
    returns (found: Option<Data>)
    requires Stores(sh, t, m, used)
    ensures found == if key in m then Some(m[key]) else None
  {
    StoresFacts(sh, t, m, used);
    SpansAll(Look(sh.Keys), sh, t, key);
    found := Search(t, key, sh, t);
    assert found == Stored(Look(sh.Keys), sh, t, key);
  }
}
