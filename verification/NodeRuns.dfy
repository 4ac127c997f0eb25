/** Runs of operations on the in-memory B+-tree. */
module NodeRuns {
  import opened Options
  import opened NodeTree
  import opened NodeLookup
  import opened NodeRoute
  import opened NodeDescent
  import opened NodeOps

  datatype Op = Put(kv: KeyValue) | Remove(key: Int)

  function MapAfter(ops: seq<Op>): map<Int, Data> {
    if ops == [] then map[]
    else
      var m := MapAfter(ops[..|ops| - 1]);
      match ops[|ops| - 1]
      case Put(kv) => m[kv.key := kv.value]
      case Remove(k) => m - {k}
  }

  ghost function PutKeys(ops: seq<Op>): set<int> {
    set i | 0 <= i < |ops| && ops[i].Put? :: ops[i].kv.key as int
  }

  /** No key is inserted twice, not even after it was deleted. */
  ghost predicate NeverAgain(ops: seq<Op>) {
    forall i, j {:trigger ops[i], ops[j]} :: 0 <= i < j < |ops| && ops[i].Put? && ops[j].Put? ==>
      ops[i].kv.key != ops[j].kv.key
  }

  ghost predicate OnlyPuts(ops: seq<Op>) {
    forall i {:trigger ops[i]} :: 0 <= i < |ops| ==> ops[i].Put?
  }

  lemma PutKeysNext(ops: seq<Op>, i: nat)
    requires i < |ops| && NeverAgain(ops)
    ensures PutKeys(ops[..0]) == {} && MapAfter(ops[..0]) == map[]
    ensures ops[i].Put? ==>
      ops[i].kv.key !in PutKeys(ops[..i]) && PutKeys(ops[..i + 1]) == PutKeys(ops[..i]) + {ops[i].kv.key}
    ensures ops[i].Remove? ==> PutKeys(ops[..i + 1]) == PutKeys(ops[..i])
    ensures MapAfter(ops[..i + 1]) == match ops[i]
      case Put(kv) => MapAfter(ops[..i])[kv.key := kv.value]
      case Remove(k) => MapAfter(ops[..i]) - {k}
  {
    var a, b := ops[..i], ops[..i + 1];
    assert b[..i] == a;
    forall k | k in PutKeys(b) ensures k in PutKeys(a) || (ops[i].Put? && k == ops[i].kv.key) {
      var j :| 0 <= j < |b| && b[j].Put? && b[j].kv.key == k;
      if j < i { assert a[j] == b[j]; }
    }
    forall k | k in PutKeys(a) ensures k in PutKeys(b) {
      var j :| 0 <= j < |a| && a[j].Put? && a[j].kv.key == k;
      assert b[j] == a[j];
    }
    if ops[i].Put? { assert b[i].Put? && b[i].kv.key in PutKeys(b); }
  }

  /** Any run of inserts and deletes in which no key is ever inserted twice leaves a tree that stores the finite map.
      After inserts alone every node below the root has at least two keys. */
  method Run(ops: seq<Op>) returns (t: Node, ghost sh: Spans)
    requires NeverAgain(ops)
    ensures fresh(sh.Keys) && Stores(sh, t, MapAfter(ops), PutKeys(ops))
    ensures OnlyPuts(ops) ==> Filled(Look(sh.Keys), sh, t)
  {
    hide *;
    t, sh := Create();
    StartFilled(sh, t);
    RunStarts(ops);
    HoldsValid(sh, t, map[], {});
    for i := 0 to |ops|
      invariant forall n {:trigger n in sh.Keys} :: n in sh.Keys ==> n.Valid()
      invariant fresh(sh.Keys) && Stores(sh, t, MapAfter(ops[..i]), PutKeys(ops[..i]))
      invariant OnlyPuts(ops) ==> Filled(Look(sh.Keys), sh, t)
    {
      PutKeysNext(ops, i);
      OnlyAt(ops, i);
      match ops[i] {
        case Put(kv) =>
          NewIsDirect(sh, t, MapAfter(ops[..i]), PutKeys(ops[..i]), kv.key);
          var ret;
          ret, sh := Insert(t, kv, sh, MapAfter(ops[..i]), PutKeys(ops[..i]));
        case Remove(k) =>
          var ret := Delete(t, k, sh, MapAfter(ops[..i]), PutKeys(ops[..i]));
      }
      HoldsValid(sh, t, MapAfter(ops[..i + 1]), PutKeys(ops[..i + 1]));
    }
    assert ops[..|ops|] == ops;
  }

  /** A key that was never inserted before goes the direct way, and is not stored. */
  lemma NewIsDirect(sh: Spans, t: Node, m: map<Int, Data>, used: set<int>, key: Int)
    requires Stores(sh, t, m, used) && key !in used
    ensures Holding(sh, t) && (forall n {:trigger n in sh} :: n in sh ==> n.Valid())
      && WayOf(Look(sh.Keys), sh, t, key) == Direct && key !in m
  {
    UnusedIsDirect(Look(sh.Keys), sh, t, t, key, used);
  }

  lemma HoldsValid(sh: Spans, t: Node, m: map<Int, Data>, used: set<int>)
    requires Stores(sh, t, m, used)
    ensures forall n {:trigger n in sh.Keys} :: n in sh.Keys ==> n.Valid()
  {}

  lemma RunStarts(ops: seq<Op>)
    ensures PutKeys(ops[..0]) == {} && MapAfter(ops[..0]) == map[]
  {}

  lemma OnlyAt(ops: seq<Op>, i: nat)
    requires i < |ops|
    ensures OnlyPuts(ops) ==> ops[i].Put?
  {}

  lemma StartFilled(sh: Spans, t: Node)
    requires Stores(sh, t, map[], {}) && sh.Keys == {t} && sh[t].rank == 0
    ensures Filled(Look(sh.Keys), sh, t)
  {
    assert Local(Look(sh.Keys), sh, t, t);
  }

  /** After inserts alone a tree of h levels, h at least 2, stores at least 2^h keys, and all its leaves are h - 1 steps
      down. */
  lemma Tall(sh: Spans, t: Node, m: map<Int, Data>, used: set<int>, h: nat)
    requires Stores(sh, t, m, used) && Filled(Look(sh.Keys), sh, t) && h >= 2 && t in sh && h == sh[t].rank + 1
    ensures |m| >= Pow2(h)
    ensures forall n {:trigger Live(sh, n)} :: Live(sh, n) && n in Look(sh.Keys) ==>
      (Look(sh.Keys)[n].isLeaf <==> sh[n].rank == 0)
  {
    var V := Look(sh.Keys);
    assert Local(V, sh, t, t);
    forall n | Live(sh, n) && n in V ensures V[n].isLeaf <==> sh[n].rank == 0 { assert Local(V, sh, t, n); }
    ManyKeys(V, sh, t, t);
    var found := KeysBelow(V, sh, t, t);
    forall k | k in found ensures k in m.Keys {
      var i: Int := k;
      assert Stored(V, sh, t, i).Some?;
    }
    Subset(found, set k | k in m.Keys :: k as int, m);
  }

  lemma Subset(a: set<int>, b: set<int>, m: map<Int, Data>)
    requires a <= b && b == set k | k in m.Keys :: k as int
    ensures |a| <= |m|
  {
    CountInts(m.Keys, b);
    assert b == a + (b - a);
  }

  lemma {:induction false} CountInts(s: set<Int>, b: set<int>)
    requires b == set k | k in s :: k as int
    ensures |b| == |s|
  {
    if s != {} {
      var x :| x in s;
      var s', b' := s - {x}, b - {x as int};
      forall y | y in b' ensures y in set k | k in s' :: k as int {
        var k :| k in s && k as int == y;
        assert k in s';
      }
      CountInts(s', b');
    }
  }

  // ---------------------------------------------------------------- a key inserted again

  /** An insert of a key that is not stored and a search for it: the search finds it if and only if no interior node
      on its search path had it as a separator before. There is no search if the insert met an unset pointer. */
  method InsertFinds(t: Node, kv: KeyValue, ghost sh: Spans, ghost m: map<Int, Data>, ghost used: set<int>)
    returns (ret: Option<int>, found: Option<Data>, ghost sh': Spans)
    requires Stores(sh, t, m, used) && kv.key !in m
    modifies sh.Keys
    ensures found == if old(Barred(Look(sh.Keys), sh, t, kv.key)) then None else Some(kv.value)
    ensures ret == None <==> old(WayOf(Look(sh.Keys), sh, t, kv.key)) == Unset
  {
    hide *;
    StoresFacts(sh, t, m, used);
    HoldingFacts(sh, t);
    BarredExactly(sh, t, m, used, kv.key);
    ghost var way := WayOf(Look(sh.Keys), sh, t, kv.key);
    ret, sh' := Insert(t, kv, sh, m, used);
    found := None;
    if ret.Some? {
      found := Find(t, kv.key, sh', if way == Direct
        && kv.key !in m then m[kv.key := kv.value] else m, used + {kv.key});
    }
  }

  lemma BarredExactly(sh: Spans, t: Node, m: map<Int, Data>, used: set<int>, key: Int)
    requires Stores(sh, t, m, used) && key !in m
    ensures Holding(sh, t) && (forall n {:trigger n in sh} :: n in sh ==> n.Valid())
    ensures WayOf(Look(sh.Keys), sh, t, key) == Direct <==> !Barred(Look(sh.Keys), sh, t, key)
  {
    assert Stored(Look(sh.Keys), sh, t, key) == None;
    DirectExactly(Look(sh.Keys), sh, t, key);
  }

  function Ints(cells: seq<KeyValue>): set<Int> {
    set i | 0 <= i < |cells| :: cells[i].key
  }

  lemma {:induction false} IntsCount(cells: seq<KeyValue>)
    requires Ascending(cells)
    ensures |Ints(cells)| == |cells|
  {
    if cells != [] {
      var n := |cells| - 1;
      var front, last := cells[..n], cells[n].key;
      assert Ascending(front);
      IntsCount(front);
      forall k | k in Ints(cells) ensures k in Ints(front) + {last} {
        var i :| 0 <= i < |cells| && cells[i].key == k;
        if i < n { assert front[i].key == k; }
      }
      forall k | k in Ints(front) ensures k in Ints(cells) && k != last {
        var i :| 0 <= i < n && front[i].key == k;
        assert cells[i].key == k && cells[i].key < cells[n].key;
      }
      assert cells[n].key in Ints(cells);
      assert Ints(cells) == Ints(front) + {last};
    }
  }

  /** A root that is a leaf holds exactly the keys of the map. */
  lemma RootLeaf(sh: Spans, t: Node, m: map<Int, Data>, used: set<int>)
    requires Stores(sh, t, m, used) && t.Valid() && t.isLeaf
    ensures t in sh && Ascending(t.Value().cells) && t.nbKeys == |m| && Ints(t.Value().cells) == m.Keys
  {
    var V := Look(sh.Keys);
    assert Local(V, sh, t, t);
    var cells := t.Value().cells;
    forall k: Int ensures k in m <==> k in Ints(cells) {
      assert Stored(V, sh, t, k) == if k in m then Some(m[k]) else None;
      Step(V, sh, t, t, k);
      if k in Ints(cells) {
        var i :| 0 <= i < |cells| && cells[i].key == k;
        GetAt(cells, i);
      }
    }
    IntsCount(cells);
    assert Ints(cells) == m.Keys;
  }

  lemma SecondOfFour(cells: seq<KeyValue>)
    requires Ascending(cells) && |cells| == 4 && Ints(cells) == {1, 2, 3, 4}
    ensures cells[1].key == 2
  {
    assert forall i {:trigger cells[i]} :: 0 <= i < 4 ==> cells[i].key in Ints(cells);
    assert cells[0].key < cells[1].key < cells[2].key < cells[3].key;
  }

  /** Once the root has the key as a separator, an insert of it strays. */
  lemma RootBars(sh: Spans, t: Node, key: Int)
    requires Holding(sh, t) && t in sh && t.Valid() && !t.isLeaf && !NotAmong(t.Value().cells, key)
    ensures (forall n {:trigger n in sh} :: n in sh ==> n.Valid()) && WayOf(Look(sh.Keys), sh, t, key) == Strayed
  {
    var V := Look(sh.Keys);
    assert V[t] == t.Value();
    Step(V, sh, t, t, key);
  }

  /** The keys below `k` have been inserted in order. */
  ghost predicate Counted(sh: Spans, t: Node, m: map<Int, Data>, used: set<int>, k: nat)
    requires k < 10
    reads sh.Keys, t
  {
    && Stores(sh, t, m, used) && t in sh && t.Valid() && m.Keys == Upto(k) && |m| == k - 1
    && (forall i {:trigger i in used} :: i in used ==> 1 <= i < k)
    && if k <= 5 then t.isLeaf else !t.isLeaf && !NotAmong(t.Value().cells, 2)
  }

  method PutNext(t: Node, k: nat, v: Data, ghost sh: Spans, ghost m: map<Int, Data>, ghost used: set<int>)
    returns (ghost sh': Spans)
    requires 1 <= k <= 5 && Counted(sh, t, m, used, k)
    modifies sh.Keys
    ensures fresh(sh'.Keys - sh.Keys) && Counted(sh', t, m[k := v], used + {k}, k + 1)
  {
    hide *;
    CountedFacts(sh, t, m, used, k);
    RootLeaf(sh, t, m, used);
    UptoNext(k);
    NewIsDirect(sh, t, m, used, k);
    ghost var V, cells := Look(sh.Keys), t.Value().cells;
    LookAll(sh.Keys);
    ValueOf(t);
    var ret;
    ret, sh' := Insert(t, KeyValue(k, v), sh, m, used);
    StoresFacts(sh', t, m[k := v], used + {k});
    HoldingFacts(sh', t);
    LookAll(sh'.Keys);
    ValueOf(t);
    AfterKey(V, Look(sh'.Keys), t, cells, k);
    CountedNow(sh', t, m, used, k, v);
  }

  lemma CountedFacts(sh: Spans, t: Node, m: map<Int, Data>, used: set<int>, k: nat)
    requires k < 10 && Counted(sh, t, m, used, k)
    ensures Stores(sh, t, m, used) && Holding(sh, t) && t in sh.Keys && t.Valid() && m.Keys == Upto(k) && |m| == k - 1
      && (k <= 5 ==> t.isLeaf)
    ensures forall n {:trigger n in sh.Keys} :: n in sh.Keys ==> n.Valid()
    ensures k !in used && forall i {:trigger i in used} :: i in used ==> 1 <= i < k
  {}

  lemma CountedNow(sh: Spans, t: Node, m: map<Int, Data>, used: set<int>, k: nat, v: Data)
    requires 1 <= k <= 5 && Stores(sh, t, m[k := v], used + {k}) && t in sh && t.Valid() && m.Keys == Upto(k)
      && |m| == k - 1 && k !in m
    requires Upto(k + 1) == Upto(k) + {k} && forall i {:trigger i in used} :: i in used ==> 1 <= i < k
    requires if k < 5 then t.isLeaf else !t.isLeaf && !NotAmong(t.Value().cells, 2)
    ensures Counted(sh, t, m[k := v], used + {k}, k + 1)
  {
    hide Stores, NotAmong, Upto;
    assert m[k := v].Keys == m.Keys + {k};
  }

  lemma NoneCounted(sh: Spans, t: Node)
    requires Stores(sh, t, map[], {}) && t in sh && t.Valid() && t.isLeaf && Upto(1) == {}
    ensures Counted(sh, t, map[], {}, 1)
  {}

  method FiveKeys(v: Data) returns (t: Node, ghost sh: Spans, ghost m: map<Int, Data>, ghost used: set<int>)
    ensures fresh(sh.Keys) && Counted(sh, t, m, used, 6)
  {
    hide *;
    t, sh := Create();
    m, used := map[], {};
    UptoNext(1);
    NoneCounted(sh, t);
    for k := 1 to 6
      invariant fresh(sh.Keys) && Counted(sh, t, m, used, k)
    {
      sh := PutNext(t, k, v, sh, m, used);
      m, used := m[k := v], used + {k};
    }
  }

  /** The keys 1 to 5 are inserted, 2 is deleted and inserted again: a search does not find it. */
  method Reinserted(v: Data) returns (found: Option<Data>)
    ensures found == None
  {
    hide *;
    var t;
    ghost var sh, m: map<Int, Data>, used: set<int>;
    t, sh, m, used := FiveKeys(v);
    SixthFacts(sh, t, m, used);
    var gone := Delete(t, 2, sh, m, used);
    m := m - {2};
    StoresFacts(sh, t, m, used);
    HoldsValid(sh, t, m, used);
    RootBars(sh, t, 2);
    var ret;
    ret, sh := Insert(t, KeyValue(2, v), sh, m, used);
    found := Find(t, 2, sh, m, used + {2});
  }

  lemma SixthFacts(sh: Spans, t: Node, m: map<Int, Data>, used: set<int>)
    requires Counted(sh, t, m, used, 6)
    ensures Stores(sh, t, m, used) && t in sh && t.Valid() && !t.isLeaf && !NotAmong(t.Value().cells, 2)
  {}

  function Upto(k: nat): set<Int>
    requires k < 10
  {
    if k <= 1 then {} else Upto(k - 1) + {k - 1}
  }

  lemma UptoNext(k: nat)
    requires 1 <= k < 6
    ensures Upto(k + 1) == Upto(k) + {k} && Upto(1) == {} && (k == 5 ==> Upto(k) == {1, 2, 3, 4}) && MAX_KEYS == 4
  {
    assert Upto(2) == {1} && Upto(3) == {1, 2} && Upto(4) == {1, 2, 3};
  }

  lemma AfterKey(V: Graph, W: Graph, t: Node, cells: seq<KeyValue>, k: nat)
    requires 1 <= k <= 5 && t in V && t in W && V[t].isLeaf && V[t].cells == cells && |cells| == k - 1
      && Ascending(cells)
    requires Ints(cells) == Upto(k) && (k == 5 ==> Upto(k) == {1, 2, 3, 4})
    requires RootKept(V, W, t) || (W[t].isLeaf && k < 5)
    ensures if k < 5 then W[t].isLeaf else !W[t].isLeaf && !NotAmong(W[t].cells, 2)
  {
    if k == 5 { SecondOfFour(cells); }
  }
}
