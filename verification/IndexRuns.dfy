/** One index insert after another while the table grows: every new row needs ranks that have a place for it. */
module IndexRuns {
  import opened Nodes
  import opened Codec
  import opened SearchTree
  import opened Cascade
  import opened PageTree
  import opened LeafInsert
  import opened Disk
  import opened Records
  import opened TableRows
  import opened IndexTree
  import opened IndexInsert
  import opened IndexOrder
  import opened IndexResults
  import opened IndexRerank

  /** An index that is ready for its next row. Of the pages only its own matter. */
  ghost predicate Indexed(V: map<Page, Node>, sh: Shape, root: Page, f: Field) {
    && Tree(By(f), V, sh, root) && LegalBut(V, sh, {}) && WellParented(V, sh, root) && Known(V, sh, f) && Ranks(f)
    && root in V && V[root].parent == NO_PAGE
  }

  /** The column as it is now: it still has the records that the index was built from. */
  ghost predicate Continues(V: map<Page, Node>, sh: Shape, f: Field, rows: Shape, value: map<Key, Record>) {
    && OneClass(value) && FieldIs(V, Field(f.table, f.n, rows, value, map[])) && rows.Keys !! sh.Keys
    && forall k {:trigger HasKey(V, sh, k)} :: HasKey(V, sh, k) ==> k in value && k in f.value && value[k] == f.value[k]
  }

  /** Whatever happens on other pages, such as rows added to the table, leaves the index as it is. */
  lemma IndexStays(V: map<Page, Node>, W: map<Page, Node>, sh: Shape, root: Page, f: Field)
    requires Indexed(V, sh, root, f) && forall p {:trigger p in sh} :: p in sh && p in V ==> p in W && W[p] == V[p]
    ensures Indexed(W, sh, root, f) && root in sh
      && InOrder(By(f), W, sh, root, root) == InOrder(By(f), V, sh, root, root)
  {
    SpansPages(By(f), V, sh, root);
    TreeFrame(By(f), V, W, sh, root);
    hide Tree, Ranks, Parented;
    forall k | HasKey(W, sh, k) ensures HasKey(V, sh, k) && k in f.value {
      var p :| HoldsKey(W, sh, p, k);
      assert HoldsKey(V, sh, p, k);
      assert HasKey(V, sh, k);
    }
    assert WellParented(W, sh, root) by { ParentsStay(V, W, sh, root); }
    OrderStays(By(f), V, W, sh, root);
  }

  lemma ParentsStay(V: map<Page, Node>, W: map<Page, Node>, sh: Shape, root: Page)
    requires WellParented(V, sh, root) && forall p {:trigger p in sh} :: p in sh ==> p in V && p in W && W[p] == V[p]
    ensures WellParented(W, sh, root)
  {
    assert forall p {:trigger sh[p]} :: p in sh ==> W[p] == V[p];
  }

  lemma OrderStays(o: Order, V: map<Page, Node>, W: map<Page, Node>, sh: Shape, root: Page)
    requires Tree(o, V, sh, root) && Tree(o, W, sh, root) && !o.Natural? && root in sh
    requires forall p {:trigger p in sh} :: p in sh ==> p in V && p in W && W[p] == V[p]
    ensures InOrder(o, W, sh, root, root) == InOrder(o, V, sh, root, root)
  {
    var a, b := InOrder(o, W, sh, root, root), InOrder(o, V, sh, root, root);
    InOrderClimbs(o, V, sh, root, root);
    InOrderClimbs(o, W, sh, root, root);
    forall k ensures k in a <==> k in b {
      InOrderLists(o, V, sh, root, root, k);
      InOrderLists(o, W, sh, root, root, k);
      SamePages(V, W, sh, k);
    }
    MembersAre(a, b);
    hide InOrder, Tree;
    SameByRank(o, a, b, sh[root].lo, sh[root].hi);
  }

  lemma SamePages(V: map<Page, Node>, W: map<Page, Node>, sh: Shape, k: Key)
    requires forall p {:trigger p in sh} :: p in sh ==> p in V && p in W && W[p] == V[p]
    ensures HasKey(W, sh, k) <==> HasKey(V, sh, k)
  {
    hide KeyIn;
    if p :| HoldsKey(V, sh, p, k) { assert HoldsKey(W, sh, p, k); }
    if p :| HoldsKey(W, sh, p, k) { assert HoldsKey(V, sh, p, k); }
  }

  /** There are ranks for the column as it is now in which the index is in order, with a place for every row. */
  lemma NextRanks(V: map<Page, Node>, sh: Shape, root: Page, f: Field, rows: Shape, value: map<Key, Record>)
    returns (f': Field, sh': Shape)
    requires Indexed(V, sh, root, f) && Continues(V, sh, f, rows, value)
    ensures f'.table == f.table && f'.n == f.n && f'.rows == rows && f'.value == value
    ensures Indexed(V, sh', root, f') && Backs(V, f', sh') && root in sh && root in sh'
    ensures InOrder(By(f'), V, sh', root, root) == InOrder(By(f), V, sh, root, root)
    ensures sh'.Keys == sh.Keys && forall p {:trigger sh'[p]} :: p in sh' ==>
      sh'[p].rank == sh[p].rank && sh'[p].par == sh[p].par
    ensures forall k {:trigger HasKey(V, sh', k)} {:trigger HasKey(V, sh, k)} :: HasKey(V, sh', k) <==> HasKey(V, sh, k)
    ensures forall k {:trigger value[k]} :: k in value ==> Covers(By(f'), sh', root, Ord(By(f'), k))
  {
    hide *;
    IndexedParts(V, sh, root, f);
    ContinuesParts(V, sh, f, rows, value);
    f' := RanksExist(f.table, f.n, rows, value);
    var lo, hi := -1, 2 * |value|;
    NewOrder(V, sh, root, f, f', lo, hi);
    sh' := RerankKeepsTree(V, sh, root, By(f), By(f'), lo, hi);
    RerankKeepsOrder(V, sh, root, By(f), By(f'), lo, hi, sh');
    IndexedNow(V, sh, sh', root, f, f');
  }

  lemma IndexedParts(V: map<Page, Node>, sh: Shape, root: Page, f: Field)
    requires Indexed(V, sh, root, f)
    ensures Tree(By(f), V, sh, root) && LegalBut(V, sh, {}) && WellParented(V, sh, root) && Ranks(f) && root in sh
  {}

  lemma ContinuesParts(V: map<Page, Node>, sh: Shape, f: Field, rows: Shape, value: map<Key, Record>)
    requires Continues(V, sh, f, rows, value)
    ensures OneClass(value) && FieldIs(V, Field(f.table, f.n, rows, value, map[])) && rows.Keys !! sh.Keys
    ensures forall k {:trigger HasKey(V, sh, k)} :: HasKey(V, sh, k) ==>
      k in value && k in f.value && value[k] == f.value[k]
  {}

  lemma NewOrder(V: map<Page, Node>, sh: Shape, root: Page, f: Field, f': Field, lo: int, hi: int)
    requires Tree(By(f), V, sh, root) && Ranks(f) && Ranks(f')
    requires forall k {:trigger HasKey(V, sh, k)} :: HasKey(V, sh, k) ==>
      k in f'.value && k in f.value && f'.value[k] == f.value[k]
    requires lo == -1 && hi == 2 * |f'.value|
    requires forall k {:trigger f'.at[k]} :: k in f'.at ==> 0 <= f'.at[k] && f'.at[k] + 1 < hi
    requires forall j, k {:trigger f'.at[j], f'.at[k]} :: j in f'.at && k in f'.at && f'.at[j] < f'.at[k] ==>
      f'.at[j] + 1 < f'.at[k]
    ensures Rerankable(V, sh, root, By(f), By(f'), lo, hi)
  {
    hide *;
    forall j, k | HasKey(V, sh, j) && HasKey(V, sh, k)
      ensures Ord(By(f), j) < Ord(By(f), k) <==> Ord(By(f'), j) < Ord(By(f'), k)
    {
      ByRecords(f, f', j, k);
    }
    forall k | HasKey(V, sh, k) ensures k in f'.at && Ord(By(f'), k) == f'.at[k] { RankAt(f', k); }
    SpreadOut(V, sh, root, f, f', lo, hi);
  }

  lemma RankAt(f: Field, k: Key)
    requires Ranks(f) && k in f.value
    ensures k in f.at && Ord(By(f), k) == f.at[k]
  {}

  /** Ranks of the same two records compare alike. */
  lemma ByRecords(f: Field, f': Field, j: Key, k: Key)
    requires Ranks(f) && Ranks(f') && j in f.value && k in f.value && j in f'.value && k in f'.value
    requires f.value[j] == f'.value[j] && f.value[k] == f'.value[k]
    ensures Ord(By(f), j) < Ord(By(f), k) <==> Ord(By(f'), j) < Ord(By(f'), k)
  {
    var r, s := f.value[j], f.value[k];
    assert SameClass(r, s) && Compare(r, s) == Sign(f.at[j], f.at[k]);
    assert Compare(f'.value[j], f'.value[k]) == Sign(f'.at[j], f'.at[k]);
    hide Compare, SameClass, Ranks;
  }

  lemma SpreadOut(V: map<Page, Node>, sh: Shape, root: Page, f: Field, f': Field, lo: int, hi: int)
    requires Tree(By(f), V, sh, root) && lo == -1 && hi == 2 * |f'.value|
    requires forall j, k {:trigger HasKey(V, sh, j), HasKey(V, sh, k)} :: HasKey(V, sh, j) && HasKey(V, sh, k) ==>
      (Ord(By(f), j) < Ord(By(f), k) <==> Ord(By(f'), j) < Ord(By(f'), k))
    requires forall k {:trigger HasKey(V, sh, k)} :: HasKey(V, sh, k) ==> k in f'.at && Ord(By(f'), k) == f'.at[k]
    requires forall k {:trigger f'.at[k]} :: k in f'.at ==> 0 <= f'.at[k] && f'.at[k] + 1 < hi
    requires forall j, k {:trigger f'.at[j], f'.at[k]} :: j in f'.at && k in f'.at && f'.at[j] < f'.at[k] ==>
      f'.at[j] + 1 < f'.at[k]
    ensures Rerankable(V, sh, root, By(f), By(f'), lo, hi)
  {
    hide Tree, HasKey, Ord, Filled;
  }

  lemma IndexedNow(V: map<Page, Node>, sh: Shape, sh': Shape, root: Page, f: Field, f': Field)
    requires Indexed(V, sh, root, f) && Ranks(f') && FieldIs(V, Field(f'.table, f'.n, f'.rows, f'.value, map[]))
      && f'.rows.Keys !! sh.Keys
    requires Tree(By(f'), V, sh', root) && WellParented(V, sh', root) && LegalBut(V, sh', {}) && sh'.Keys == sh.Keys
    requires forall k {:trigger HasKey(V, sh, k)} :: HasKey(V, sh, k) ==> k in f'.value
    requires forall k {:trigger HasKey(V, sh', k)} {:trigger HasKey(V, sh, k)} :: HasKey(V, sh', k) <==>
      HasKey(V, sh, k)
    requires root in sh' && sh'[root].lo == -1 && sh'[root].hi == 2 * |f'.value|
    requires forall k {:trigger f'.at[k]} :: k in f'.at ==> 0 <= f'.at[k] && f'.at[k] + 1 < 2 * |f'.value|
    ensures Indexed(V, sh', root, f') && Backs(V, f', sh')
    ensures forall k {:trigger f'.value[k]} :: k in f'.value ==> Covers(By(f'), sh', root, Ord(By(f'), k))
  {
    var g := Field(f'.table, f'.n, f'.rows, f'.value, map[]);
    hide Tree, HasKey, Ranks, WellParented, LegalBut, Extract, HasRow;
    forall k | k in f'.value ensures k in f'.at && Ord(By(f'), k) == f'.at[k] { RankAt(f', k); }
    forall k | k in f'.value ensures FieldAt(V, f', k) { assert FieldAt(V, g, k) by { assert k in g.value; } }
  }

  /** Where a new row goes by its record alone: behind all smaller ones. */
  function Sooner(value: map<Key, Record>, j: Key, k: Key): bool {
    j in value && k in value && Comparable(value[j]) && Comparable(value[k]) && Compare(value[j], value[k]) < 0
  }

  function SlottedIn(value: map<Key, Record>, keys: seq<Key>, k: Key): seq<Key> {
    if keys == [] then [k]
    else if Sooner(value, keys[|keys| - 1], k) then keys + [k]
    else SlottedIn(value, keys[..|keys| - 1], k) + [keys[|keys| - 1]]
  }

  lemma {:induction false} SlottedByRecord(f: Field, keys: seq<Key>, k: Key)
    requires Ranks(f) && k in f.value && forall j :: j in keys ==> j in f.value
    ensures Slotted(By(f), keys, k) == SlottedIn(f.value, keys, k)
  {
    if keys != [] {
      var last := keys[|keys| - 1];
      assert last in keys;
      assert SameClass(f.value[last], f.value[k]) && Compare(f.value[last], f.value[k]) == Sign(f.at[last], f.at[k]);
      hide Ranks, Compare;
      SlottedByRecord(f, keys[..|keys| - 1], k);
    }
  }

  /** No row of the index has an equal record. */
  ghost predicate NewRecord(V: map<Page, Node>, sh: Shape, value: map<Key, Record>, key: Key) {
    && key in value && key < KEY_LIMIT
    && forall k {:trigger HasKey(V, sh, k)} ::
         HasKey(V, sh, k) && k in value && Comparable(value[k]) && Comparable(value[key]) ==>
         Compare(value[k], value[key]) != 0
  }

  /** The row's leaf is full, and so is the page that lists it. */
  ghost predicate Overflows(V: map<Page, Node>, sh: Shape, root: Page, f: Field, key: Key) {
    && Tree(By(f), V, sh, root) && root in sh && key in f.at
    && var l := Reach(By(f), V, sh, root, root, f.at[key]);
       l in V && |V[l].cells| == ORDER - 1 && l != root && ParentFull(V, sh, l)
  }

  /** The pages, and one index among them. */
  datatype Index = Index(nodes: map<Page, Node>, sh: Shape, f: Field)

  ghost function Listing(w: Index, root: Page): seq<Key>
    requires Indexed(w.nodes, w.sh, root, w.f)
  {
    InOrder(By(w.f), w.nodes, w.sh, root, root)
  }

  /** What one `insert` promises of a listing, with the records as they are by then. */
  ghost predicate Step(w: Index, x: Index, root: Page, key: Key) {
    && Indexed(w.nodes, w.sh, root, w.f) && Indexed(x.nodes, x.sh, root, x.f) && key in x.f.value
    && (forall k {:trigger HasKey(w.nodes, w.sh, k)} :: HasKey(w.nodes, w.sh, k) ==>
         k in x.f.value && k in w.f.value && x.f.value[k] == w.f.value[k])
    && Listing(x, root) == SlottedIn(x.f.value, Listing(w, root), key)
  }

  /** Rows added to the table before the insert make no difference. */
  lemma StepAcross(w: Index, V: map<Page, Node>, x: Index, root: Page, key: Key)
    requires Indexed(w.nodes, w.sh, root, w.f) && Step(w.(nodes := V), x, root, key)
    requires forall p {:trigger p in w.sh} :: p in w.sh && p in w.nodes ==> p in V && V[p] == w.nodes[p]
    ensures Step(w, x, root, key)
  {
    IndexStays(w.nodes, V, w.sh, root, w.f);
    SpansPages(By(w.f), w.nodes, w.sh, root);
    hide Indexed, Sooner, InOrder;
    forall k | HasKey(w.nodes, w.sh, k) ensures k in x.f.value && k in w.f.value && x.f.value[k] == w.f.value[k] {
      SamePages(w.nodes, V, w.sh, k);
    }
  }

  lemma NextReady(V: map<Page, Node>, sh: Shape, s1: Shape, root: Page, f: Field, key: Key)
    requires Indexed(V, s1, root, f) && Backs(V, f, s1) && NewRecord(V, sh, f.value, key) && root in s1
    requires forall k {:trigger HasKey(V, s1, k)} {:trigger HasKey(V, sh, k)} :: HasKey(V, s1, k) <==> HasKey(V, sh, k)
    requires forall k {:trigger f.value[k]} :: k in f.value ==> Covers(By(f), s1, root, Ord(By(f), k))
    requires root in sh && s1[root].rank == sh[root].rank
    ensures Insertable(V, s1, root, key, f) && key in f.at && key in f.value && WellParented(V, s1, root)
      && Tree(By(f), V, s1, root)
    ensures Reach(By(f), V, s1, root, root, f.at[key]) in V
    ensures Climb(V, s1, root, Reach(By(f), V, s1, root, root, f.at[key])) <= sh[root].rank
  {
    assert f.value[key] == f.value[key];
    hide Tree, Ranks, Parented, Backs, Known, LegalBut, HasKey, Compare;
    WellParentedIsInsertable(V, s1, root, f, key);
  }

  /** Inserts the next row into an index whose table has changed meanwhile: read in order, the index gains the row
      behind all rows with smaller records, and it is ready for another unless an interior page had to be cut. */
  method InsertNext(db: Db, root: Page, key: Key, n: nat, table: Page, junk: Page,
                    ghost sh: Shape, ghost f: Field, ghost rows: Shape, ghost value: map<Key, Record>)
    returns (ret: int, ghost s1: Shape, ghost sh': Shape, ghost f': Field)
    requires db.Valid() && Indexed(db.nodes, sh, root, f) && Continues(db.nodes, sh, f, rows, value)
    requires NewRecord(db.nodes, sh, value, key) && n == f.n && table == f.table && junk < PAGE_LIMIT
    requires root in sh && db.nbPages + sh[root].rank + 3 < NO_PAGE
    modifies db
    ensures ret == 0 && db.Valid() && old(db.live) <= db.live && db.nbPages <= old(db.nbPages) + sh[root].rank + 3
    ensures f'.table == f.table && f'.n == f.n && f'.rows == rows && f'.value == value
    ensures Tree(By(f'), db.nodes, sh', root) && root in sh' && Framed(old(db.nodes), old(db.live), db.nodes, sh, sh')
    ensures forall k {:trigger HasKey(db.nodes, sh', k)} :: HasKey(db.nodes, sh', k) <==>
      old(HasKey(db.nodes, sh, k)) || k == key
    ensures InOrder(By(f'), db.nodes, sh', root, root)
      == SlottedIn(value, old(InOrder(By(f), db.nodes, sh, root, root)), key)
    ensures Tree(By(f'), old(db.nodes), s1, root) && s1.Keys == sh.Keys
    ensures Indexed(db.nodes, sh', root, f') <==> !Overflows(old(db.nodes), s1, root, f', key)
    ensures Indexed(db.nodes, sh', root, f') ==> Step(Index(old(db.nodes), sh, f), Index(db.nodes, sh', f'), root, key)
  {
    hide *;
    ghost var V := db.nodes;
    ContinuesParts(V, sh, f, rows, value);
    IndexedParts(V, sh, root, f);
    f', s1 := NextRanks(V, sh, root, f, rows, value);
    NextReady(V, sh, s1, root, f', key);
    ghost var lp, q;
    ret, sh', lp, q := Insert(db, root, key, n, table, junk, s1, f');
    RootOf(By(f'), db.nodes, sh', root);
    InsertedInOrder(V, s1, db.nodes, sh', root, f', key);
    NextDone(V, sh, s1, db.nodes, sh', root, f', key);
    FramedAs(V, old(db.live), db.nodes, sh, s1, sh');
    if Indexed(db.nodes, sh', root, f') { StepNow(Index(V, sh, f), Index(db.nodes, sh', f'), root, key); }
  }

  lemma RootOf(o: Order, V: map<Page, Node>, sh: Shape, root: Page)
    requires Tree(o, V, sh, root)
    ensures root in sh
  {}

  lemma StepNow(w: Index, x: Index, root: Page, key: Key)
    requires Indexed(w.nodes, w.sh, root, w.f) && Indexed(x.nodes, x.sh, root, x.f) && key in x.f.value && root in w.sh
      && root in x.sh
    requires Tree(By(w.f), w.nodes, w.sh, root) && Tree(By(x.f), x.nodes, x.sh, root)
    requires forall k {:trigger HasKey(w.nodes, w.sh, k)} :: HasKey(w.nodes, w.sh, k) ==>
      k in x.f.value && k in w.f.value && x.f.value[k] == w.f.value[k]
    requires InOrder(By(x.f), x.nodes, x.sh, root, root)
      == SlottedIn(x.f.value, InOrder(By(w.f), w.nodes, w.sh, root, root), key)
    ensures Step(w, x, root, key)
  {
    hide Indexed, Tree, HasKey, InOrder, SlottedIn;
  }

  lemma FramedAs(V: map<Page, Node>, live: set<Page>, W: map<Page, Node>, sh: Shape, s1: Shape, sh': Shape)
    requires Framed(V, live, W, s1, sh') && s1.Keys == sh.Keys
    ensures Framed(V, live, W, sh, sh')
  {
    assert forall p {:trigger p in sh} {:trigger p in s1} :: p in sh <==> p in s1;
  }

  lemma NextDone(V: map<Page, Node>, sh: Shape, s1: Shape, W: map<Page, Node>, sh': Shape, root: Page, f: Field,
                 key: Key)
    requires Indexed(V, s1, root, f) && root in s1 && key in f.value && Tree(By(f), V, s1, root) && key in f.at
    requires Tree(By(f), W, sh', root) && LegalBut(W, sh', {}) && Known(W, sh', f) && root in W
      && W[root].parent == NO_PAGE
    requires var l := Reach(By(f), V, s1, root, root, f.at[key]);
      l in V && (WellParented(W, sh', root) <==> !(|V[l].cells| == ORDER - 1 && l != root && ParentFull(V, s1, l)))
    ensures Indexed(W, sh', root, f) <==> !Overflows(V, s1, root, f, key)
    ensures var was := InOrder(By(f), V, s1, root, root); Slotted(By(f), was, key) == SlottedIn(f.value, was, key)
  {
    var was := InOrder(By(f), V, s1, root, root);
    forall j | j in was ensures j in f.value {
      InOrderLists(By(f), V, s1, root, root, j);
    }
    hide Tree, InOrder, LegalBut, Parented, Compare, HasKey, ParentFull;
    SlottedByRecord(f, was, key);
  }

  // ---------------------------------------------------------------- runs

  ghost predicate Run(ws: seq<Index>, root: Page, keys: seq<Key>) {
    && |ws| == |keys| + 1 && Indexed(ws[0].nodes, ws[0].sh, root, ws[0].f)
    && forall i {:trigger keys[i]} :: 0 <= i < |keys| ==> Step(ws[i], ws[i + 1], root, keys[i])
  }

  /** Insertion sort of the keys by their records. */
  function SortedIn(value: map<Key, Record>, start: seq<Key>, keys: seq<Key>): seq<Key> {
    if keys == [] then start else SlottedIn(value, SortedIn(value, start, keys[..|keys| - 1]), keys[|keys| - 1])
  }

  lemma SortedNext(value: map<Key, Record>, start: seq<Key>, keys: seq<Key>)
    requires keys != []
    ensures SortedIn(value, start, keys)
      == SlottedIn(value, SortedIn(value, start, keys[..|keys| - 1]), keys[|keys| - 1])
  {}

  lemma {:induction false} SlottedSame(v: map<Key, Record>, w: map<Key, Record>, keys: seq<Key>, k: Key)
    requires k in v && k in w && v[k] == w[k] && forall j :: j in keys ==> j in v && j in w && v[j] == w[j]
    ensures SlottedIn(v, keys, k) == SlottedIn(w, keys, k)
  {
    if keys != [] {
      assert keys[|keys| - 1] in keys;
      hide Compare;
      SlottedSame(v, w, keys[..|keys| - 1], k);
    }
  }

  lemma {:induction false} SlottedHas(value: map<Key, Record>, keys: seq<Key>, k: Key, j: Key)
    ensures j in SlottedIn(value, keys, k) <==> j in keys || j == k
  {
    hide Sooner;
    if keys != [] {
      SlottedHas(value, keys[..|keys| - 1], k, j);
      assert keys == keys[..|keys| - 1] + [keys[|keys| - 1]];
    }
  }

  lemma {:induction false} SortedHas(value: map<Key, Record>, start: seq<Key>, keys: seq<Key>, j: Key)
    ensures j in SortedIn(value, start, keys) <==> j in start || j in keys
  {
    if keys == [] {
    } else {
      hide *;
      var n := |keys| - 1;
      SortedNext(value, start, keys);
      SortedHas(value, start, keys[..n], j);
      SlottedHas(value, SortedIn(value, start, keys[..n]), keys[n], j);
      assert keys == keys[..n] + [keys[n]];
    }
  }

  lemma {:induction false} SortedSame(v: map<Key, Record>, w: map<Key, Record>, start: seq<Key>, keys: seq<Key>)
    requires forall j :: j in SortedIn(v, start, keys) ==> j in v && j in w && v[j] == w[j]
    ensures SortedIn(v, start, keys) == SortedIn(w, start, keys)
  {
    if keys != [] {
      var n := |keys| - 1;
      var front := SortedIn(v, start, keys[..n]);
      forall j
        ensures j in SortedIn(v, start, keys) <==> j in front || j == keys[n]
      {
        SlottedHas(v, front, keys[n], j);
      }
      hide SlottedIn;
      SortedSame(v, w, start, keys[..n]);
      SlottedSame(v, w, front, keys[n]);
    }
  }

  /** After any run of inserts, between which the table may grow, the index lists its old keys and the new ones
      in the order that insertion sort by their records gives. */
  lemma {:induction false} RunSorts(ws: seq<Index>, root: Page, keys: seq<Key>)
    requires Run(ws, root, keys)
    ensures Indexed(ws[|keys|].nodes, ws[|keys|].sh, root, ws[|keys|].f)
    ensures Listing(ws[|keys|], root) == SortedIn(ws[|keys|].f.value, Listing(ws[0], root), keys)
    ensures forall k {:trigger k in Listing(ws[|keys|], root)} :: k in Listing(ws[|keys|], root) <==>
      k in Listing(ws[0], root) || k in keys
  {
    hide *;
    RunStarts(ws, root, keys);
    if keys != [] {
      var n := |keys| - 1;
      RunFront(ws, root, keys);
      RunSorts(ws[..n + 1], root, keys[..n]);
      var w, x, start := ws[n], ws[n + 1], Listing(ws[0], root);
      StepFacts(w, x, root, keys[n]);
      SortedSame(w.f.value, x.f.value, start, keys[..n]);
      SortedNext(x.f.value, start, keys);
    }
    forall k ensures k in Listing(ws[|keys|], root) <==> k in Listing(ws[0], root) || k in keys {
      SortedHas(ws[|keys|].f.value, Listing(ws[0], root), keys, k);
    }
  }

  lemma RunStarts(ws: seq<Index>, root: Page, keys: seq<Key>)
    requires Run(ws, root, keys)
    ensures |ws| == |keys| + 1 && Indexed(ws[0].nodes, ws[0].sh, root, ws[0].f)
    ensures keys == [] ==> Listing(ws[0], root) == SortedIn(ws[0].f.value, Listing(ws[0], root), keys)
  {}

  lemma RunFront(ws: seq<Index>, root: Page, keys: seq<Key>)
    requires Run(ws, root, keys) && keys != []
    ensures var n := |keys| - 1;
      |ws| == n + 2 && Run(ws[..n + 1], root, keys[..n]) && Step(ws[n], ws[n + 1], root, keys[n])
  {
    var n := |keys| - 1;
    hide Step, Indexed;
    forall i | 0 <= i < n
      ensures Step(ws[..n + 1][i], ws[..n + 1][i + 1], root, keys[..n][i])
    {
      assert keys[..n][i] == keys[i];
    }
    assert keys[n] == keys[n];
  }

  lemma StepFacts(w: Index, x: Index, root: Page, key: Key)
    requires Step(w, x, root, key)
    ensures Indexed(w.nodes, w.sh, root, w.f) && Indexed(x.nodes, x.sh, root, x.f)
    ensures Listing(x, root) == SlottedIn(x.f.value, Listing(w, root), key)
    ensures forall j :: j in Listing(w, root) ==> j in w.f.value && j in x.f.value && w.f.value[j] == x.f.value[j]
  {
    assert root in w.sh;
    forall j | j in Listing(w, root) ensures j in w.f.value && j in x.f.value && w.f.value[j] == x.f.value[j] {
      InOrderLists(By(w.f), w.nodes, w.sh, root, root, j);
    }
    hide InOrder, Indexed;
  }
}
