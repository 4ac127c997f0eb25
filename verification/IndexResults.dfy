/** The index seen as its in-order sequence: what an insert does to it, what a search reads from it, and that
    every column of comparable records has an order to build an index by. */
module IndexResults {
  import opened Nodes
  import opened Codec
  import opened SearchTree
  import opened Cascade
  import opened PageTree
  import opened LeafInsert
  import opened Records
  import opened IndexTree
  import opened IndexInsert
  import opened IndexOrder
  import opened IndexScan

  ghost predicate SameMembers(a: seq<Key>, b: seq<Key>) {
    forall k {:trigger k in a} {:trigger k in b} :: k in a <==> k in b
  }

  lemma LastIsMost(o: Order, a: seq<Key>, b: seq<Key>, lo: int, hi: int)
    requires ByRank(o, a, lo, hi) && ByRank(o, b, lo, hi) && SameMembers(a, b) && a != []
    ensures b != [] && a[|a| - 1] == b[|b| - 1]
  {
    assert a[0] in a;
    var i, j := |a| - 1, |b| - 1;
    assert a[i] in b;
    var x :| 0 <= x < |b| && b[x] == a[i];
    assert b[j] in a;
    var y :| 0 <= y < |a| && a[y] == b[j];
    assert Ord(o, b[x]) <= Ord(o, b[j]) && Ord(o, a[y]) <= Ord(o, a[i]);
    assert y == i;
  }

  lemma FrontByRank(o: Order, a: seq<Key>, lo: int, hi: int)
    requires ByRank(o, a, lo, hi) && a != []
    ensures ByRank(o, a[..|a| - 1], lo, hi)
  {}

  /** A strictly ascending sequence is determined by its members. */
  lemma {:induction false} SameByRank(o: Order, a: seq<Key>, b: seq<Key>, lo: int, hi: int)
    requires ByRank(o, a, lo, hi) && ByRank(o, b, lo, hi) && SameMembers(a, b)
    ensures a == b
  {
    if a == [] {
      if b != [] { LastIsMost(o, b, a, lo, hi); }
    } else {
      LastIsMost(o, a, b, lo, hi);
      var i, j := |a| - 1, |b| - 1;
      FrontByRank(o, a, lo, hi);
      FrontByRank(o, b, lo, hi);
      forall k ensures k in a[..i] <==> k in b[..j] {
        FrontMembers(o, a, lo, hi, k);
        FrontMembers(o, b, lo, hi, k);
      }
      hide ByRank;
      SameByRank(o, a[..i], b[..j], lo, hi);
      assert a == a[..i] + [a[i]] && b == b[..j] + [b[j]];
    }
  }

  lemma FrontMembers(o: Order, a: seq<Key>, lo: int, hi: int, k: Key)
    requires ByRank(o, a, lo, hi) && a != []
    ensures k in a[..|a| - 1] <==> k in a && k != a[|a| - 1]
  {
    if k in a[..|a| - 1] {
      var i :| 0 <= i < |a| - 1 && a[i] == k;
    }
    assert a == a[..|a| - 1] + [a[|a| - 1]];
  }

  // ---------------------------------------------------------------- insert

  /** Read in order, the index lists its records strictly ascending under `compare_r`. */
  lemma InOrderCompares(V: map<Page, Node>, sh: Shape, root: Page, f: Field, i: nat, j: nat)
    requires Tree(By(f), V, sh, root) && Known(V, sh, f) && Ranks(f)
    requires i < j < |InOrder(By(f), V, sh, root, root)|
    ensures var keys := InOrder(By(f), V, sh, root, root);
      keys[i] in f.value && keys[j] in f.value && SameClass(f.value[keys[i]], f.value[keys[j]])
      && Compare(f.value[keys[i]], f.value[keys[j]]) < 0
  {
    var keys := InOrder(By(f), V, sh, root, root);
    InOrderClimbs(By(f), V, sh, root, root);
    InOrderLists(By(f), V, sh, root, root, keys[i]);
    InOrderLists(By(f), V, sh, root, root, keys[j]);
    hide InOrder, Compare, SameClass, Tree;
    assert f.value[keys[i]] == f.value[keys[i]] && f.value[keys[j]] == f.value[keys[j]];
  }

  /** The sequence with the key at its place. */
  function Slotted(o: Order, keys: seq<Key>, k: Key): seq<Key> {
    if keys == [] then [k]
    else if Ord(o, keys[|keys| - 1]) < Ord(o, k) then keys + [k]
    else Slotted(o, keys[..|keys| - 1], k) + [keys[|keys| - 1]]
  }

  lemma {:induction false} SlottedMembers(o: Order, keys: seq<Key>, k: Key, j: Key)
    ensures j in Slotted(o, keys, k) <==> j in keys || j == k
  {
    if keys != [] {
      SlottedMembers(o, keys[..|keys| - 1], k, j);
      assert keys == keys[..|keys| - 1] + [keys[|keys| - 1]];
    }
  }

  ghost predicate NewTo(o: Order, keys: seq<Key>, k: Key) {
    forall i {:trigger keys[i]} :: 0 <= i < |keys| ==> Ord(o, keys[i]) != Ord(o, k)
  }

  lemma {:induction false} SlottedClimbs(o: Order, keys: seq<Key>, k: Key, lo: int, hi: int)
    requires ByRank(o, keys, lo, hi) && lo <= Ord(o, k) < hi && NewTo(o, keys, k)
    ensures ByRank(o, Slotted(o, keys, k), lo, hi)
  {
    if keys != [] {
      var n := |keys| - 1;
      var front, last := keys[..n], keys[n];
      assert ByRank(o, front, lo, Ord(o, last)) && NewTo(o, front, k);
      if Ord(o, last) > Ord(o, k) {
        SlottedClimbs(o, front, k, lo, Ord(o, last));
        hide Slotted;
        PushByRank(o, Slotted(o, front, k), last, lo, hi);
      } else {
        assert forall i {:trigger keys[i]} :: 0 <= i < |keys| ==> Ord(o, keys[i]) <= Ord(o, last);
        PushByRank(o, keys, k, lo, hi);
      }
    }
  }

  lemma PushByRank(o: Order, keys: seq<Key>, k: Key, lo: int, hi: int)
    requires ByRank(o, keys, lo, Ord(o, k)) && lo <= Ord(o, k) < hi
    ensures ByRank(o, keys + [k], lo, hi)
  {}

  /** One insert puts its key into the in-order sequence, at its place, and changes nothing else in it. */
  lemma InsertedInOrder(V: map<Page, Node>, sh: Shape, W: map<Page, Node>, sh': Shape, root: Page, f: Field, key: Key)
    requires Insertable(V, sh, root, key, f) && root in sh && root in sh'
    requires Tree(By(f), W, sh', root) && sh'[root].lo == sh[root].lo && sh'[root].hi == sh[root].hi
    requires forall k {:trigger HasKey(W, sh', k)} :: HasKey(W, sh', k) <==> HasKey(V, sh, k) || k == key
    ensures InOrder(By(f), W, sh', root, root) == Slotted(By(f), InOrder(By(f), V, sh, root, root), key)
  {
    hide *;
    NewRank(V, sh, root, f, key);
    IndexRootKind(f);
    var o := By(f);
    var was, now := InOrder(o, V, sh, root, root), InOrder(o, W, sh', root, root);
    InOrderClimbs(o, V, sh, root, root);
    InOrderClimbs(o, W, sh', root, root);
    SlottedClimbs(o, was, key, sh[root].lo, sh[root].hi);
    forall k ensures k in now <==> k in Slotted(o, was, key) {
      InOrderLists(o, V, sh, root, root, k);
      InOrderLists(o, W, sh', root, root, k);
      SlottedMembers(o, was, key, k);
      if HasKey(V, sh, k) { RankIsKey(o, V, sh, root, k, k); }
      SpanIs(o, sh, root, Ord(o, k));
      SpanIs(o, sh', root, Ord(o, k));
    }
    MembersAre(now, Slotted(o, was, key));
    SameByRank(o, now, Slotted(o, was, key), sh[root].lo, sh[root].hi);
  }

  lemma MembersAre(a: seq<Key>, b: seq<Key>)
    requires forall k {:trigger k in a} :: k in a <==> k in b
    ensures SameMembers(a, b)
  {}

  lemma SpanIs(o: Order, sh: Shape, p: Page, r: int)
    requires p in sh
    ensures Covers(o, sh, p, r) <==> sh[p].lo <= r < sh[p].hi
  {}

  lemma NewRank(V: map<Page, Node>, sh: Shape, root: Page, f: Field, key: Key)
    requires Insertable(V, sh, root, key, f)
    ensures Tree(By(f), V, sh, root) && root in sh && sh[root].lo <= Ord(By(f), key) < sh[root].hi
    ensures NewTo(By(f), InOrder(By(f), V, sh, root, root), key)
  {
    var was := InOrder(By(f), V, sh, root, root);
    forall i | 0 <= i < |was| ensures Ord(By(f), was[i]) != Ord(By(f), key) {
      InOrderLists(By(f), V, sh, root, root, was[i]);
      var p :| HoldsKey(V, sh, p, was[i]);
      KeyIsHeld(By(f), V[p], was[i]);
      assert Lacks(By(f), V[p], f.at[key]);
    }
  }

  /** In a well-parented tree with legal fill a row id can be inserted whenever no record there equals its own. */
  lemma WellParentedIsInsertable(V: map<Page, Node>, sh: Shape, root: Page, f: Field, key: Key)
    requires Tree(By(f), V, sh, root) && LegalBut(V, sh, {}) && WellParented(V, sh, root) && Known(V, sh, f)
      && Backs(V, f, sh)
    requires key in f.value && key < KEY_LIMIT && root in sh && Covers(By(f), sh, root, Ord(By(f), key))
    requires forall k {:trigger HasKey(V, sh, k)} ::
      HasKey(V, sh, k) && k in f.value && Comparable(f.value[k]) && Comparable(f.value[key]) ==>
      Compare(f.value[k], f.value[key]) != 0
    ensures Insertable(V, sh, root, key, f)
  {
    SpansPages(By(f), V, sh, root);
    ComparedAs(f, key, key);
    forall p | p in sh && p in V ensures Lacks(By(f), V[p], f.at[key]) {
      forall i | 0 <= i < |V[p].cells| ensures K(By(f), V[p], i) != f.at[key] {
        var k := V[p].cells[i].key;
        assert HoldsKey(V, sh, p, k);
        assert HasKey(V, sh, k);
        ComparedAs(f, k, key);
      }
    }
    assert Fresh(By(f), V, sh, f.at[key]);
    ReachCovers(By(f), V, sh, root, root, f.at[key]);
    var l := Reach(By(f), V, sh, root, root, f.at[key]);
    hide Backs, Known, Fresh, Ranks;
    assert sh[root].rank >= 0 && sh[l].rank >= 0;
    if l != root { ParentsUpward(V, sh, root, f, l); }
  }

  lemma ParentsUpward(V: map<Page, Node>, sh: Shape, root: Page, f: Field, l: Page)
    requires Tree(By(f), V, sh, root) && WellParented(V, sh, root) && l in sh && l in V && l != root
    ensures Upward(By(f), V, sh, root, l, V[l].parent)
  {
    assert sh[l].rank >= 0;
    assert Local(By(f), V, sh, root, l);
  }

  // ---------------------------------------------------------------- search

  ghost function Matching(f: Field, probe: Record, keys: seq<Key>): seq<Key> {
    if keys == [] then []
    else Matching(f, probe, keys[..|keys| - 1]) + if Matches(f, probe, keys[|keys| - 1]) then [keys[|keys| - 1]] else []
  }

  lemma {:induction false} MatchingMembers(f: Field, probe: Record, keys: seq<Key>, k: Key)
    ensures k in Matching(f, probe, keys) <==> k in keys && Matches(f, probe, k)
  {
    hide Matches;
    if keys != [] {
      var n := |keys| - 1;
      MatchingMembers(f, probe, keys[..n], k);
      assert keys == keys[..n] + [keys[n]];
    }
  }

  lemma {:induction false} MatchingClimbs(f: Field, probe: Record, keys: seq<Key>, lo: int, hi: int)
    requires ByRank(By(f), keys, lo, hi)
    ensures ByRank(By(f), Matching(f, probe, keys), lo, hi)
  {
    if keys != [] {
      var n := |keys| - 1;
      var front, last := keys[..n], keys[n];
      assert ByRank(By(f), front, lo, Ord(By(f), last));
      MatchingClimbs(f, probe, front, lo, Ord(By(f), last));
      MatchingSnoc(f, probe, keys);
      assert lo <= Ord(By(f), last) < hi;
      hide Matching, Matches;
      PushByRank(By(f), Matching(f, probe, front), last, lo, hi);
      WidenByRank(By(f), Matching(f, probe, front), lo, Ord(By(f), last), hi);
    }
  }

  lemma MatchingSnoc(f: Field, probe: Record, keys: seq<Key>)
    requires keys != []
    ensures var n := |keys| - 1;
      Matching(f, probe, keys) == Matching(f, probe, keys[..n]) + if Matches(f, probe, keys[n]) then [keys[n]] else []
  {}

  lemma WidenByRank(o: Order, keys: seq<Key>, lo: int, mid: int, hi: int)
    requires ByRank(o, keys, lo, mid) && mid <= hi
    ensures ByRank(o, keys, lo, hi)
  {}

  /** What `find_all` returns is the in-order sequence, filtered. */
  lemma AllMatchesInOrder(V: map<Page, Node>, sh: Shape, root: Page, f: Field, probe: Record, keys: seq<Key>)
    requires Searchable(V, sh, root, f, probe) && AllMatches(V, sh, f, probe, keys) && root in sh
    ensures keys == Matching(f, probe, InOrder(By(f), V, sh, root, root))
  {
    var o, all := By(f), InOrder(By(f), V, sh, root, root);
    InOrderClimbs(o, V, sh, root, root);
    MatchingClimbs(f, probe, all, sh[root].lo, sh[root].hi);
    forall k ensures k in keys <==> k in Matching(f, probe, all) {
      InOrderLists(o, V, sh, root, root, k);
      MatchingMembers(f, probe, all, k);
      if HasKey(V, sh, k) { RankIsKey(o, V, sh, root, k, k); }
    }
    MembersAre(keys, Matching(f, probe, all));
    assert ByRank(o, keys, sh[root].lo, sh[root].hi) by {
      forall i | 0 <= i < |keys| ensures sh[root].lo <= Ord(o, keys[i]) < sh[root].hi {
        assert keys[i] in keys;
        RankIsKey(o, V, sh, root, keys[i], keys[i]);
      }
      assert forall i, j {:trigger keys[i], keys[j]} :: 0 <= i < j < |keys| ==> Rank(f, keys[i]) < Rank(f, keys[j]);
    }
    SameByRank(o, keys, Matching(f, probe, all), sh[root].lo, sh[root].hi);
  }

  // ---------------------------------------------------------------- every column has ranks

  ghost predicate OneClass(value: map<Key, Record>) {
    forall j, k {:trigger value[j], value[k]} :: j in value && k in value ==> SameClass(value[j], value[k])
  }

  ghost function Smaller(value: map<Key, Record>, k: Key): set<Key>
    requires OneClass(value) && k in value
  {
    set j | j in value && Comparable(value[j]) && Comparable(value[k]) && Compare(value[j], value[k]) < 0
  }

  lemma CountsRise(a: set<Key>, b: set<Key>, k: Key)
    requires a <= b && k in b && k !in a
    ensures |a| < |b|
  {
    assert b == a + (b - a) && k in b - a;
  }

  lemma SmallerRises(value: map<Key, Record>, j: Key, k: Key)
    requires OneClass(value) && j in value && k in value
    ensures SameClass(value[j], value[k])
    ensures Compare(value[j], value[k]) <= 0 ==> Smaller(value, j) <= Smaller(value, k)
    ensures Compare(value[j], value[k]) < 0 ==> j in Smaller(value, k) && j !in Smaller(value, j)
  {
    assert SameClass(value[j], value[k]) && SameClass(value[j], value[j]);
    CompareOrder(value[j], value[j], value[j]);
    hide Compare;
    forall i | i in Smaller(value, j) && Compare(value[j], value[k]) <= 0 ensures i in Smaller(value, k) {
      assert SameClass(value[i], value[j]);
      CompareOrder(value[i], value[j], value[k]);
    }
  }

  /** Comparable records can be ranked, by how many of them are smaller, with room for another rank on both sides of
      each. */
  lemma RanksExist(table: Page, n: nat, rows: Shape, value: map<Key, Record>) returns (f: Field)
    requires OneClass(value)
    ensures f.table == table && f.n == n && f.rows == rows && f.value == value && Ranks(f)
    ensures forall k {:trigger f.at[k]} :: k in f.at ==> 0 <= f.at[k] && f.at[k] + 1 < 2 * |value|
    ensures forall j, k {:trigger f.at[j], f.at[k]} :: j in f.at && k in f.at && f.at[j] < f.at[k] ==>
      f.at[j] + 1 < f.at[k]
  {
    hide *;
    var at := map k | k in value :: 2 * |Smaller(value, k)|;
    f := Field(table, n, rows, value, at);
    forall j, k | j in value && k in value ensures RanksTwo(value, at, j, k) { TwoRanks(value, at, j, k); }
    RanksNow(f);
  }

  ghost predicate RanksTwo(value: map<Key, Record>, at: map<Key, int>, j: Key, k: Key) {
    && j in value && k in value && j in at && k in at
    && SameClass(value[j], value[k]) && Compare(value[j], value[k]) == Sign(at[j], at[k])
    && 0 <= at[k] && at[k] + 1 < 2 * |value| && (at[j] < at[k] ==> at[j] + 1 < at[k])
  }

  lemma TwoRanks(value: map<Key, Record>, at: map<Key, int>, j: Key, k: Key)
    requires OneClass(value) && j in value && k in value && j in at && k in at
    requires at[j] == 2 * |Smaller(value, j)| && at[k] == 2 * |Smaller(value, k)|
    ensures RanksTwo(value, at, j, k)
  {
    SmallerCounts(value, j, k);
    hide OneClass, Smaller, Compare, SameClass;
  }

  lemma RanksNow(f: Field)
    requires f.at.Keys == f.value.Keys
    requires forall j, k {:trigger RanksTwo(f.value, f.at, j, k)} :: j in f.value && k in f.value ==>
      RanksTwo(f.value, f.at, j, k)
    ensures Ranks(f)
    ensures forall k {:trigger f.at[k]} :: k in f.at ==> 0 <= f.at[k] && f.at[k] + 1 < 2 * |f.value|
    ensures forall j, k {:trigger f.at[j], f.at[k]} :: j in f.at && k in f.at && f.at[j] < f.at[k] ==>
      f.at[j] + 1 < f.at[k]
  {
    hide Compare;
    forall j, k | j in f.value && k in f.value
      ensures SameClass(f.value[j], f.value[k]) && Compare(f.value[j], f.value[k]) == Sign(f.at[j], f.at[k])
      ensures 0 <= f.at[k] && f.at[k] + 1 < 2 * |f.value| && (f.at[j] < f.at[k] ==> f.at[j] + 1 < f.at[k])
    {
      assert RanksTwo(f.value, f.at, j, k);
    }
  }

  lemma SmallerCounts(value: map<Key, Record>, j: Key, k: Key)
    requires OneClass(value) && j in value && k in value
    ensures SameClass(value[j], value[k]) && |Smaller(value, k)| < |value|
    ensures Compare(value[j], value[k]) == Sign(|Smaller(value, j)|, |Smaller(value, k)|)
  {
    SmallerRises(value, j, k);
    SmallerRises(value, k, j);
    CompareOrder(value[j], value[k], value[j]);
    NotSmaller(value, k);
    CardKeys(value);
    assert -1 <= Compare(value[j], value[k]) <= 1 && Compare(value[k], value[j]) == -Compare(value[j], value[k]);
    hide OneClass, Compare, Smaller, SameClass;
    if Compare(value[j], value[k]) == 0 { assert Smaller(value, j) == Smaller(value, k); }
    CountsRise(Smaller(value, k), value.Keys, k);
    if Compare(value[j], value[k]) < 0 { CountsRise(Smaller(value, j), Smaller(value, k), j); }
    if Compare(value[k], value[j]) < 0 { CountsRise(Smaller(value, k), Smaller(value, j), k); }
  }

  lemma NotSmaller(value: map<Key, Record>, k: Key)
    requires OneClass(value) && k in value
    ensures Smaller(value, k) <= value.Keys && k !in Smaller(value, k)
  {
    assert SameClass(value[k], value[k]);
    CompareOrder(value[k], value[k], value[k]);
    hide Compare;
  }

  lemma CardKeys(value: map<Key, Record>)
    ensures |value.Keys| == |value|
  {}

  /** An empty leaf is an index in any order. */
  lemma EmptyIndex(V: map<Page, Node>, root: Page, f: Field, lo: int, hi: int) returns (sh: Shape)
    requires root in V && V[root].kind == IndexLeaf && V[root].cells == [] && |V[root].kids| == 1
      && V[root].parent == NO_PAGE
    requires lo < hi && FieldIs(V, f) && Ranks(f) && root !in f.rows
    ensures sh.Keys == {root} && sh[root].lo == lo && sh[root].hi == hi
    ensures Tree(By(f), V, sh, root) && LegalBut(V, sh, {}) && WellParented(V, sh, root) && Known(V, sh, f)
      && Backs(V, f, sh)
  {
    sh := map[root := Info(lo, hi, 0, root)];
    assert Local(By(f), V, sh, root, root);
  }
}
