/** From an empty file to any run of inserts: the first table, adding a table to the catalogue, and what every
    later lookup finds. */
module DbRuns {
  import opened Options
  import opened Nodes
  import opened Codec
  import opened MemNodes
  import opened Disk
  import opened SearchTree
  import Cascade
  import opened PageTree
  import opened TableTree
  import opened LeafInsert
  import opened TableInsert
  import opened TableRows
  import opened TableChain
  import opened TableRun
  import opened TableChange
  import opened Records
  import opened Catalogue
  import opened DbOps

  /** A TABLES row: the table's name, its root page, its next row id. */
  function TableRow(name: seq<Byte>, root: Page, next: nat): seq<Record> {
    [FromString(name), FromLong(root), FromLong(next)]
  }

  lemma TableRowFacts(name: seq<Byte>, root: Page, next: nat)
    requires |name| <= 118 && root < PAGE_LIMIT && next < PAGE_LIMIT
    ensures AllValid(TableRow(name, root, next))
    ensures var row := Compress(TableRow(name, root, next));
      HasRoot(Some(row), root) && LongAt(row, 2) && WordAt(row, 2) == next && |row| == |name| + 20
  {
    var rs := TableRow(name, root, next);
    StringLimit(name);
    var row := Compress(rs);
    ExtractCompress(rs, 1);
    ExtractCompress(rs, 2);
    WordOfLong(row, 2, next);
    assert rs[1..] == [FromLong(root), FromLong(next)] && rs[1..][1..] == [FromLong(next)] && rs[1..][1..][1..] == [];
    hide LE, Extract, WordAt;
    assert Compress(rs[1..][1..]) == RecordImage(FromLong(next)) + Compress([]);
    assert Compress(rs[1..]) == RecordImage(FromLong(root)) + Compress(rs[1..][1..]);
  }

  /** What can be read back from the row of a table: its name as a string, then two longs, and no more. */
  predicate Describes(row: seq<Byte>, name: seq<Byte>, root: Page, next: nat)
    requires |name| <= 118
  {
    && Extract(row, 0) == Some(Record(|name| + 9, name + [0])) && Extract(row, 1) == Some(Record(4, LE(root, 8)))
    && Extract(row, 2) == Some(Record(4, LE(next, 8))) && Extract(row, 3) == None
  }

  lemma TableRowReads(name: seq<Byte>, root: Page, next: nat)
    requires |name| <= 118 && root < PAGE_LIMIT && next < PAGE_LIMIT
    ensures Describes(Compress(TableRow(name, root, next)), name, root, next)
  {
    var rs := TableRow(name, root, next);
    TableRowFacts(name, root, next);
    ExtractCompress(rs, 0);
    ExtractCompress(rs, 1);
    ExtractCompress(rs, 2);
    ExtractCompress(rs, 3);
    hide LE, Extract, Compress;
  }

  /** The bytes of the first row: the string TABLES, page 0, and 1 as the next id. */
  lemma FirstRowBytes()
    ensures Compress(TableRow([84, 65, 66, 76, 69, 83], 0, 1)) ==
      [15, 84, 65, 66, 76, 69, 83, 0, 4, 0, 0, 0, 0, 0, 0, 0, 0, 4, 1, 0, 0, 0, 0, 0, 0, 0]
  {
    FirstRecords();
    hide *;
    var r0 := Record(15, [84, 65, 66, 76, 69, 83, 0]);
    var r1, r2 := Record(4, [0, 0, 0, 0, 0, 0, 0, 0]), Record(4, [1, 0, 0, 0, 0, 0, 0, 0]);
    assert [r0, r1, r2] == [r0] + ([r1] + ([r2] + []));
    CompressBytes(r0, [r1] + ([r2] + []));
    CompressBytes(r1, [r2] + []);
    CompressBytes(r2, []);
    FirstBytes(r0.data, r1.data, r2.data);
  }

  lemma FirstBytes(a: seq<Byte>, b: seq<Byte>, c: seq<Byte>)
    requires a == [84, 65, 66, 76, 69, 83, 0] && b == [0, 0, 0, 0, 0, 0, 0, 0] && c == [1, 0, 0, 0, 0, 0, 0, 0]
    ensures [15] + a + ([4] + b + ([4] + c + [])) ==
      [15, 84, 65, 66, 76, 69, 83, 0, 4, 0, 0, 0, 0, 0, 0, 0, 0, 4, 1, 0, 0, 0, 0, 0, 0, 0]
  {
    hide *;
    assert [4] + c + [] == [4, 1, 0, 0, 0, 0, 0, 0, 0];
    assert [4] + b + [4, 1, 0, 0, 0, 0, 0, 0, 0] == [4, 0, 0, 0, 0, 0, 0, 0, 0, 4, 1, 0, 0, 0, 0, 0, 0, 0];
    assert [15] + a == [15, 84, 65, 66, 76, 69, 83, 0];
  }

  lemma FirstRecords()
    ensures TableRow([84, 65, 66, 76, 69, 83], 0, 1) ==
      [Record(15, [84, 65, 66, 76, 69, 83, 0]), Record(4, [0, 0, 0, 0, 0, 0, 0, 0]),
       Record(4, [1, 0, 0, 0, 0, 0, 0, 0])]
  {
    OneLong();
    hide LE;
    assert [84, 65, 66, 76, 69, 83] + [0] == [84, 65, 66, 76, 69, 83, 0];
  }

  lemma {:induction false} ZeroLong(w: nat)
    ensures LE(0, w) == seq(w, i => 0)
  {
    if w > 0 { ZeroLong(w - 1); }
  }

  lemma OneLong()
    ensures LE(1, 8) == [1, 0, 0, 0, 0, 0, 0, 0] && LE(0, 8) == [0, 0, 0, 0, 0, 0, 0, 0]
  {
    ZeroLong(7);
    ZeroLong(8);
  }

  lemma FirstBooks(V: map<Page, Node>, t: Table)
    requires TableIs(V, t) && t.root == 0
      && RowsOf(V, t) == [Cell(0, Compress(TableRow([84, 65, 66, 76, 69, 83], 0, 1)))]
    ensures Catalogued(V, map[TABLES := t]) && Listed(View(V, map[TABLES := t]), TABLES)
      && Next(View(V, map[TABLES := t]), TABLES) == 1
  {
    hide TableIs, RowsOf, Compress, TypeSize, FromLE, LE, Replace, Extract, WordAt, LongAt;
    TableRowFacts([84, 65, 66, 76, 69, 83], 0, 1);
    var cat, row := map[TABLES := t], Compress(TableRow([84, 65, 66, 76, 69, 83], 0, 1));
    var b := View(V, cat);
    assert b[TABLES][..0] == [];
    assert Lookup(b[TABLES], TABLES) == Some(row);
    assert Entry(b, TABLES);
  }

  /** A new file in which TABLES lists itself, and four more pages are set aside for the other system trees. */
  method InitTables(limit: nat) returns (db: Db, ghost cat: Tables)
    requires limit >= 1
    ensures fresh(db) && db.Valid() && db.cacheLimit == limit && Catalogued(db.nodes, cat) && cat.Keys == {TABLES}
    ensures Listed(View(db.nodes, cat), TABLES) && Next(View(db.nodes, cat), TABLES) == 1
    ensures View(db.nodes, cat)[TABLES] == [Cell(0,
      [15, 84, 65, 66, 76, 69, 83, 0, 4, 0, 0, 0, 0, 0, 0, 0, 0, 4, 1, 0, 0, 0, 0, 0, 0, 0])]
    ensures Describes(View(db.nodes, cat)[TABLES][0].value, [84, 65, 66, 76, 69, 83], 0, 1)
    ensures {0, 1, 2, 3, 4} <= db.live && db.nbPages <= 8 && cat[TABLES].sh.Keys !! {1, 2, 3, 4}
  {
    ghost var t;
    db, t := EmptyFile(limit);
    hide *;
    var records := TableRow([84, 65, 66, 76, 69, 83], 0, 1);
    TableRowFacts([84, 65, 66, 76, 69, 83], 0, 1);
    TableRowReads([84, 65, 66, 76, 69, 83], 0, 1);
    FirstRowBytes();
    FirstRow(db.nodes, t, Compress(records));
    var value := CompressRecords(records);
    ghost var live, V, t0 := db.live, db.nodes, t;
    var ret;
    ret, t := Append(db, 0, 0, value, t);
    FirstBooks(db.nodes, t);
    cat := FirstTable(live, V, db.nodes, t0, t);
  }

  lemma FirstRow(V: map<Page, Node>, t: Table, value: seq<Byte>)
    requires TableIs(V, t) && t.root == 0 && RowsOf(V, t) == [] && |value| == 26
    ensures 0 < KEY_LIMIT && LastTakes(V, t, value) && 8 < NO_PAGE && PAGE_LIMIT > 1 && TABLES == 0
    ensures forall key: Key :: Above([], key)
  {
    OneRowFits(value);
    SnugTakes(V, t, Cell(0, value), 0);
  }

  lemma OneRowFits(value: seq<Byte>)
    requires |value| == 26
    ensures Snug([] + [Cell(0, value)], 0, 0)
  {
    var rows := [] + [Cell(0, value)];
    assert rows[..0] == [] && Bulk(rows) == CELL_HEADER + 26;
    assert Window(rows, 0) == rows;
  }

  lemma FirstTable(live: set<Page>, V: map<Page, Node>, W: map<Page, Node>, t0: Table, t: Table) returns (cat: Tables)
    requires Cascade.Framed(V, live, W, t0.sh, t.sh) && t0.sh.Keys == {0} && {0, 1, 2, 3, 4} <= live
    ensures cat == map[TABLES := t] && cat.Keys == {TABLES} && cat[TABLES].sh.Keys !! {1, 2, 3, 4}
    ensures View(W, cat)[TABLES] == RowsOf(W, t)
  {
    cat := map[TABLES := t];
  }

  /** Five pages, the first an empty table. */
  method EmptyFile(limit: nat) returns (db: Db, ghost t: Table)
    requires limit >= 1
    ensures fresh(db) && db.Valid() && db.cacheLimit == limit && {0, 1, 2, 3, 4} <= db.live && db.nbPages <= 5
    ensures TableIs(db.nodes, t) && t.root == 0 && RowsOf(db.nodes, t) == [] && t.sh.Keys == {0}
  {
    hide Db.Valid, TableIs, RowsOf, Fits;
    db := new Db(limit);
    var p1 := db.CreateAddr();
    var p2 := db.CreateAddr();
    var p3 := db.CreateAddr();
    var p4 := db.CreateAddr();
    var root := NewLeaf();
    EmptyFits(0);
    var ret := db.WriteNode(root, 0);
    t := EmptyTable(db.nodes, 0);
  }

  // ---------------------------------------------------------------- one more table

  /** An empty leaf on a page of its own, listed in TABLES, is one more table. */
  lemma TableJoins(V: map<Page, Node>, cat: Tables, id: Key, root: Page) returns (t: Table)
    requires Catalogued(V, cat) && id !in cat && TABLES in cat && !Owned(cat, root) && 0 < root
    requires var row := Lookup(RowsOf(V, cat[TABLES]), id); HasRoot(row, root) && LongAt(row.value, 2)
    ensures var W := V[root := EmptyLeaf()];
      && t.root == root && t.sh.Keys == {root} && Catalogued(W, cat[id := t])
      && View(W, cat[id := t]) == View(V, cat)[id := []] && Listed(View(W, cat[id := t]), id)
  {
    var W := V[root := EmptyLeaf()];
    t := EmptyTable(W, root);
    JoinStands(V, cat, id, t);
    hide *;
    NewEntry(View(V, cat), cat, id, t);
  }

  lemma JoinStands(V: map<Page, Node>, cat: Tables, id: Key, t: Table)
    requires Catalogued(V, cat) && id !in cat && !Owned(cat, t.root) && t.sh.Keys == {t.root} && TABLES in cat
    requires var row := Lookup(RowsOf(V, cat[TABLES]), id); HasRoot(row, t.root) && LongAt(row.value, 2)
    requires var W := V[t.root := EmptyLeaf()]; TableIs(W, t) && RowsOf(W, t) == []
    ensures var W, c, b := V[t.root := EmptyLeaf()], cat[id := t], View(V, cat);
      && Standing(W, c) && View(W, c) == b[id := []] && id != TABLES
      && Balanced(b) && Addressed(b, cat) && b.Keys == cat.Keys && TABLES in b
      && HasRoot(Lookup(b[TABLES], id), t.root) && LongAt(Lookup(b[TABLES], id).value, 2)
  {
    hide TableIs, RowsOf, HasRoot, LongAt, Lookup, Balanced, Addressed;
    var W, c := V[t.root := EmptyLeaf()], cat[id := t];
    forall j | j in cat ensures TableIs(W, cat[j]) && RowsOf(W, cat[j]) == RowsOf(V, cat[j]) && t.root !in cat[j].sh {
      OtherPages(V, W, cat[j]);
    }
    assert View(W, c) == View(V, cat)[id := []];
  }

  lemma NewEntry(b: Books, cat: Tables, id: Key, t: Table)
    requires Balanced(b) && Addressed(b, cat) && id !in b && b.Keys == cat.Keys && id != TABLES
    requires HasRoot(Lookup(b[TABLES], id), t.root) && LongAt(Lookup(b[TABLES], id).value, 2)
    ensures Balanced(b[id := []]) && Addressed(b[id := []], cat[id := t]) && Listed(b[id := []], id)
  {
    var c := b[id := []];
    hide Lookup, Extract, LongAt, WordAt;
    forall j | j in c ensures Entry(c, j) {
      if j != id { assert b[j] == b[j] && Entry(b, j); }
    }
  }

  /** Lists a new table in TABLES and gives it an empty root: `init_COLUMNS_table`, and the table's own part of
      `create_table`. */
  method AddTable(db: Db, name: seq<Byte>, root: Page, ghost cat: Tables) returns (id: int, ghost cat': Tables)
    requires db.Valid() && Catalogued(db.nodes, cat) && |name| <= 118 && root in db.live && root != 0
    requires !Owned(cat, root) && db.nbPages + 3 < NO_PAGE
    requires TABLES in cat && CanTake(db.nodes, cat, TABLES, Compress(TableRow(name, root, 0)))
    modifies db
    ensures db.Valid() && Catalogued(db.nodes, cat') && id == Next(old(View(db.nodes, cat)), TABLES)
      && cat'.Keys == cat.Keys + {id}
    ensures cat'[id].root == root && forall j {:trigger cat'[j]} :: j in cat ==> cat'[j].root == cat[j].root
    ensures View(db.nodes, cat')
      == Inserted(old(View(db.nodes, cat)), TABLES, Compress(TableRow(name, root, 0)))[id := []]
    ensures Listed(View(db.nodes, cat'), id) && Next(View(db.nodes, cat'), id) == 0
    ensures TABLES in cat' && AnyRow(db.nodes, cat'[TABLES].sh, id)
    ensures forall row {:trigger HasRow(db.nodes, cat'[TABLES].sh, id, row)} ::
      HasRow(db.nodes, cat'[TABLES].sh, id, row) ==> Describes(row, name, root, 0)
    ensures db.nbPages <= old(db.nbPages) + 3
  {
    hide *;
    ghost var b := View(db.nodes, cat);
    NewRowFits(db, cat, name, root);
    NextIsNew(db.nodes, cat);
    var rootNode := NewLeaf();
    ghost var mid;
    id, mid := InsertRow(db, TABLES, TableRow(name, root, 0), cat);
    NewRowListed(b, View(db.nodes, mid), id, name, root);
    CatalogueRoots(db, mid);
    EmptyFits(root);
    ghost var t := TableJoins(db.nodes, mid, id, root);
    ghost var c := View(db.nodes, mid);
    var ret := db.WriteNode(rootNode, root);
    cat' := mid[id := t];
    FreshCounter(c, id);
    NewRowFound(db.nodes, cat', c, id, name, root);
  }

  lemma NextIsNew(V: map<Page, Node>, cat: Tables)
    requires Catalogued(V, cat) && TABLES in cat
    ensures Listed(View(V, cat), TABLES) && Next(View(V, cat), TABLES) !in cat
  {
    var b := View(V, cat);
    hide Listed, Next, Standing, Addressed, Balanced;
    StartsListed(b);
    forall id | id in cat ensures id < Next(b, TABLES) { IdsAreBelow(b, id); }
  }

  /** `get_row` on TABLES finds the new row, and its records are the table's. */
  lemma NewRowFound(V: map<Page, Node>, cat: Tables, c: Books, id: Key, name: seq<Byte>, root: Page)
    requires Catalogued(V, cat) && TABLES in c && View(V, cat) == c[id := []] && id != TABLES && |name| <= 118
    requires Lookup(c[TABLES], id).Some? && Describes(Lookup(c[TABLES], id).value, name, root, 0)
    ensures TABLES in cat && AnyRow(V, cat[TABLES].sh, id)
    ensures forall row {:trigger HasRow(V, cat[TABLES].sh, id, row)} :: HasRow(V, cat[TABLES].sh, id, row) ==>
      Describes(row, name, root, 0)
  {
    ViewTables(V, cat, TABLES);
    hide *;
    var t, found := cat[TABLES], Lookup(c[TABLES], id).value;
    assert RowsOf(V, t) == c[TABLES];
    LookupIsRow(V, t, id, found);
    SomeRow(V, t.sh, id, found);
    forall row | HasRow(V, t.sh, id, row) ensures row == found { LookupIsRow(V, t, id, row); }
  }

  lemma SomeRow(V: map<Page, Node>, sh: Shape, id: Key, row: seq<Byte>)
    requires HasRow(V, sh, id, row)
    ensures AnyRow(V, sh, id)
  {
    hide HasRow;
  }

  lemma FreshCounter(c: Books, id: Key)
    requires TABLES in c && id != TABLES && Listed(c[id := []], id) && WordAt(Lookup(c[TABLES], id).value, 2) == 0
    ensures Next(c[id := []], id) == 0
  {}

  lemma NewRowFits(db: Db, cat: Tables, name: seq<Byte>, root: Page)
    requires db.Valid() && Catalogued(db.nodes, cat) && |name| <= 118 && root in db.live && TABLES in cat
    requires CanTake(db.nodes, cat, TABLES, Compress(TableRow(name, root, 0)))
    ensures root < PAGE_LIMIT && AllValid(TableRow(name, root, 0)) && Balanced(View(db.nodes, cat)) && TABLES in cat
    ensures Listed(View(db.nodes, cat), TABLES)
  {
    CatalogueRoots(db, cat);
    db.LiveBound(root);
    TableRowFacts(name, root, 0);
    hide Db.Valid, Compress, Catalogued, Listed, Next, LastTakes;
  }

  lemma NewRowListed(b: Books, c: Books, id: Key, name: seq<Byte>, root: Page)
    requires Balanced(b) && Listed(b, TABLES) && id == Next(b, TABLES) && root < PAGE_LIMIT && |name| <= 118
    requires c == Inserted(b, TABLES, Compress(TableRow(name, root, 0)))
    ensures TABLES in c && var row := Lookup(c[TABLES], id);
      row.Some? && HasRoot(row, root) && LongAt(row.value, 2) && WordAt(row.value, 2) == 0
      && Describes(row.value, name, root, 0)
  {
    TableRowFacts(name, root, 0);
    TableRowReads(name, root, 0);
    LookupPush(SetRow(b[TABLES], TABLES, Bumped(Lookup(b[TABLES], TABLES).value)),
      Cell(id, Compress(TableRow(name, root, 0))), id);
    hide Compress, HasRoot, LongAt, WordAt, Bumped, Balanced, Lookup, Describes;
  }

  // ---------------------------------------------------------------- any run of inserts

  /** One call of `insert_row`. */
  datatype Call = Call(table: Key, records: seq<Record>)

  function Requested(calls: seq<Call>): (run: seq<Request>)
    ensures |run| == |calls|
  {
    seq(|calls|, i requires 0 <= i < |calls| => Request(calls[i].table, Compress(calls[i].records)))
  }

  /** The rows of a table before the run and then those that the run gives it. */
  ghost function Planned(b: Books, run: seq<Request>, id: Key): seq<Cell>
    requires Listed(b, id)
  {
    b[id] + Numbered(Given(run, id), Next(b, id))
  }

  /** Inserts into tables of the catalogue, while ids last, of rows of which any three in a row fit a page. */
  ghost predicate Callable(b: Books, cat: Tables, calls: seq<Call>) {
    && Balanced(b) && b.Keys == cat.Keys
    && forall i {:trigger calls[i]} :: 0 <= i < |calls| ==>
         && AllValid(calls[i].records) && calls[i].table in cat && Suits(b, cat, Requested(calls), calls[i].table)
  }

  ghost predicate Suits(b: Books, cat: Tables, run: seq<Request>, id: Key) {
    && id in cat && Listed(b, id) && Next(b, id) + |Given(run, id)| <= KEY_LIMIT
    && Snug(Planned(b, run, id), |b[id]|, cat[id].root)
  }

  lemma RequestedTo(calls: seq<Call>, i: nat)
    requires i < |calls|
    ensures Requested(calls[..i + 1]) == Requested(calls[..i]) + [Request(calls[i].table, Compress(calls[i].records))]
    ensures Requested(calls[..i + 1])[..i] == Requested(calls[..i])
  {
    hide Compress;
  }

  lemma CallsAreRequests(b: Books, cat: Tables, calls: seq<Call>)
    requires Callable(b, cat, calls)
    ensures Balanced(b) && Requests(b, Requested(calls))
  {
    var run := Requested(calls);
    forall i | 0 <= i < |run|
      ensures run[i].table in b && Entry(b, run[i].table)
        && Next(b, run[i].table) + |Given(run, run[i].table)| <= KEY_LIMIT
    {
      assert run[i].table == calls[i].table;
      assert b[run[i].table] == b[run[i].table];
    }
  }

  /** Where the run stands before its call number i. */
  lemma NextCall(b: Books, V: map<Page, Node>, cat: Tables, cat': Tables, calls: seq<Call>, i: nat)
    requires Callable(b, cat, calls) && i < |calls| && Catalogued(V, cat')
      && View(V, cat') == After(b, Requested(calls[..i]))
    requires TABLES in b && Climbing(b[TABLES])
    requires cat'.Keys == cat.Keys && forall j {:trigger cat'[j]} :: j in cat' ==> cat'[j].root == cat[j].root
    ensures TABLES in cat' && AllValid(calls[i].records) && CanTake(V, cat', calls[i].table, Compress(calls[i].records))
    ensures calls[i].table in cat' && Listed(View(V, cat'), calls[i].table) && Listed(b, calls[i].table)
    ensures Next(View(V, cat'), calls[i].table)
      == Next(b, calls[i].table) + |Given(Requested(calls[..i]), calls[i].table)|
    ensures After(b, Requested(calls[..i + 1])) == Inserted(View(V, cat'), calls[i].table, Compress(calls[i].records))
  {
    hide *;
    var front, id, row := calls[..i], calls[i].table, Compress(calls[i].records);
    CallAt(b, cat, calls, i);
    RequestedTo(calls, i);
    RunAdds(b, Requested(front), id);
    RunLoads(b, Requested(front), id);
    RunSnoc(b, Requested(calls[..i + 1]), id);
    ViewTables(V, cat', id);
    EntryListed(After(b, Requested(front)), id);
    PlannedNext(b, Requested(calls), i, id, cat[id].root, RowsOf(V, cat'[id]));
    SnugTakes(V, cat'[id], Cell(0, row), |b[id]|);
    TakeIs(V, cat', id, row);
  }

  /** The rows so far with the next one weigh what the plan says. */
  lemma PlannedNext(b: Books, run: seq<Request>, i: nat, id: Key, root: Page, rows: seq<Cell>)
    requires i < |run| && run[i].table == id && Listed(b, id) && Snug(Planned(b, run, id), |b[id]|, root)
    requires SameLoads(b[id] + Numbered(Given(run[..i], id), Next(b, id)), rows)
    ensures |b[id]| <= |rows| && Snug(rows + [Cell(0, run[i].row)], |b[id]|, root)
  {
    hide *;
    ListedIn(b, id);
    var was, next := b[id], Next(b, id);
    var given, all := Given(run[..i], id), Given(run, id);
    GivenTo(run, i, id);
    var k := |was| + |given| + 1;
    PlanPrefix(was, given, all, run[i].row, next);
    PlannedIs(b, run, id);
    SnugPrefix(Planned(b, run, id), |was|, root, k);
    LoadsNext(was + Numbered(given, next), rows, Cell(next + |given|, run[i].row), Cell(0, run[i].row));
    SnugSame(was + Numbered(given, next) + [Cell(next + |given|, run[i].row)], rows + [Cell(0, run[i].row)], |was|,
      root);
  }

  lemma ListedIn(b: Books, id: Key)
    requires Listed(b, id)
    ensures id in b
  {}

  lemma PlannedIs(b: Books, run: seq<Request>, id: Key)
    requires Listed(b, id)
    ensures Planned(b, run, id) == b[id] + Numbered(Given(run, id), Next(b, id))
  {}

  lemma GivenTo(run: seq<Request>, i: nat, id: Key)
    requires i < |run| && run[i].table == id
    ensures var k := |Given(run[..i], id)|;
      k < |Given(run, id)| && Given(run, id)[..k + 1] == Given(run[..i], id) + [run[i].row]
  {
    GivenFirst(run, id, i + 1);
    assert run[..i + 1][..i] == run[..i];
  }

  lemma PlanPrefix(was: seq<Cell>, given: seq<seq<Byte>>, all: seq<seq<Byte>>, row: seq<Byte>, next: nat)
    requires |given| < |all| && all[..|given| + 1] == given + [row]
    ensures var k := |was| + |given| + 1; var plan := was + Numbered(all, next);
      k <= |plan| && plan[..k] == was + Numbered(given, next) + [Cell(next + |given|, row)]
        && |Numbered(given, next)| == |given|
  {
    assert all[|given|] == all[..|given| + 1][|given|];
    forall j | 0 <= j < |given| ensures all[j] == given[j] { assert all[j] == all[..|given| + 1][j]; }
  }

  lemma LoadsNext(a: seq<Cell>, b: seq<Cell>, c: Cell, d: Cell)
    requires SameLoads(a, b) && c.value == d.value
    ensures SameLoads(a + [c], b + [d]) && |a| == |b|
  {}

  lemma SnugSame(a: seq<Cell>, b: seq<Cell>, from: nat, root: Page)
    requires SameLoads(a, b) && Snug(a, from, root)
    ensures Snug(b, from, root)
  {
    forall i: nat | i < |b| && from < i + 3 ensures PageFits(Window(b, i), Cap(if i == 0 then root else 1)) {
      var v, w := Window(a, i), Window(b, i);
      assert SameLoads(v, w);
      BulkSame(v, w);
    }
  }

  lemma CallAt(b: Books, cat: Tables, calls: seq<Call>, i: nat)
    requires Callable(b, cat, calls) && i < |calls|
    ensures var id := calls[i].table;
      && AllValid(calls[i].records) && id in cat && id in b && Balanced(b) && b.Keys == cat.Keys && Listed(b, id)
      && Next(b, id) + |Given(Requested(calls[..i]), id)| < KEY_LIMIT
      && Snug(Planned(b, Requested(calls), id), |b[id]|, cat[id].root)
      && Requests(b, Requested(calls[..i])) && Requested(calls)[..i] == Requested(calls[..i])
      && Requested(calls)[i] == Request(id, Compress(calls[i].records))
  {
    hide Snug, Planned, Compress, AllValid;
    var run, id := Requested(calls), calls[i].table;
    assert run[..i] == Requested(calls[..i]) && run[i] == Request(id, Compress(calls[i].records));
    CallsAreRequests(b, cat, calls);
    RequestsTo(b, run, i);
    GivenTo(run, i, id);
    assert Suits(b, cat, run, id);
  }

  lemma RequestsTo(b: Books, run: seq<Request>, n: nat)
    requires Balanced(b) && Requests(b, run) && n <= |run|
    ensures Requests(b, run[..n])
  {
    var front := run[..n];
    forall i | 0 <= i < n
      ensures front[i].table in b && Entry(b, front[i].table)
        && Next(b, front[i].table) + |Given(front, front[i].table)| <= KEY_LIMIT
    {
      assert front[i] == run[i];
      GivenFirst(run, run[i].table, n);
    }
  }

  lemma EntryListed(b: Books, id: Key)
    requires TABLES in b && id in b && Entry(b, id)
    ensures Listed(b, id)
  {}

  lemma TakeIs(V: map<Page, Node>, cat: Tables, id: Key, value: seq<Byte>)
    requires TABLES in cat && id in cat && Listed(View(V, cat), id) && Next(View(V, cat), id) < KEY_LIMIT
      && LastTakes(V, cat[id], value)
    ensures CanTake(V, cat, id, value)
  {}

  lemma ViewTables(V: map<Page, Node>, cat: Tables, id: Key)
    requires Catalogued(V, cat)
    ensures TABLES in cat && View(V, cat).Keys == cat.Keys && Climbing(View(V, cat)[TABLES])
    ensures id in cat ==> TableIs(V, cat[id]) && View(V, cat)[id] == RowsOf(V, cat[id])
  {
    hide Addressed, Balanced, TableIs, RowsOf, Climbing;
    RowsClimb(V, cat[TABLES]);
  }

  /** A client that makes any such calls one after the other: the ids it is given, and what the pages hold at the
      end. */
  method InsertRows(db: Db, calls: seq<Call>, ghost cat: Tables) returns (ids: seq<int>, ghost cat': Tables)
    requires db.Valid() && Catalogued(db.nodes, cat) && Callable(View(db.nodes, cat), cat, calls)
    requires db.nbPages + 3 * |calls| < NO_PAGE
    modifies db
    ensures db.Valid() && Catalogued(db.nodes, cat') && cat'.Keys == cat.Keys
    ensures forall j {:trigger cat'[j]} :: j in cat' ==> cat'[j].root == cat[j].root
    ensures View(db.nodes, cat') == After(old(View(db.nodes, cat)), Requested(calls))
    ensures |ids| == |calls| && forall i {:trigger ids[i]} :: 0 <= i < |ids| ==>
      IdOf(old(View(db.nodes, cat)), calls, i, ids[i])
  {
    hide *;
    ghost var b := View(db.nodes, cat);
    ids, cat' := [], cat;
    StartRun(b, calls);
    ViewTables(db.nodes, cat, TABLES);
    for i := 0 to |calls|
      invariant |ids| == i && db.Valid() && Catalogued(db.nodes, cat') && cat'.Keys == cat.Keys
      invariant forall j {:trigger cat'[j]} :: j in cat' ==> cat'[j].root == cat[j].root
      invariant View(db.nodes, cat') == After(b, Requested(calls[..i]))
      invariant forall k {:trigger ids[k]} :: 0 <= k < i ==> IdOf(b, calls, k, ids[k])
      invariant db.nbPages <= old(db.nbPages) + 3 * i
    {
      NextCall(b, db.nodes, cat, cat', calls, i);
      var id;
      id, cat' := InsertRow(db, calls[i].table, calls[i].records, cat');
      IdIs(b, calls, i, id);
      ids := ids + [id];
    }
    assert calls[..|calls|] == calls;
  }

  /** The id that call number i gets: the table's counter before the run, plus the earlier calls for the table. */
  ghost predicate IdOf(b: Books, calls: seq<Call>, i: nat, id: int) {
    && i < |calls| && Listed(b, calls[i].table)
    && id == Next(b, calls[i].table) + |Given(Requested(calls[..i]), calls[i].table)|
  }

  lemma IdIs(b: Books, calls: seq<Call>, i: nat, id: int)
    requires i < |calls| && Listed(b, calls[i].table)
    requires id == Next(b, calls[i].table) + |Given(Requested(calls[..i]), calls[i].table)|
    ensures IdOf(b, calls, i, id)
  {}

  lemma StartRun(b: Books, calls: seq<Call>)
    ensures b == After(b, Requested(calls[..0]))
  {
    assert calls[..0] == [];
  }

  /** After any run, `get_row` on a user table finds exactly the bytes stored under each id that the run was given,
      exactly the old row under each id below the counter it started from, and nothing under any other id. */
  lemma RunIsFound(b: Books, run: seq<Request>, V: map<Page, Node>, cat: Tables, id: Key, k: Key, v: seq<Byte>)
    requires Balanced(b) && Requests(b, run) && id in b && id != TABLES && id in cat
    requires Catalogued(V, cat) && View(V, cat) == After(b, run)
    ensures Listed(b, id)
    ensures var next, rows := Next(b, id), Given(run, id);
      HasRow(V, cat[id].sh, k, v) <==>
        if k < next then Lookup(b[id], k) == Some(v) else k < next + |rows| && v == rows[k - next]
  {
    RunIsRead(b, run, id, k);
    LookupIsRow(V, cat[id], k, v);
    assert View(V, cat)[id] == RowsOf(V, cat[id]);
    hide Ascending, HasRow, Lookup, Balanced, Requests, Catalogued;
  }

  /** After any run every old row of TABLES is found with its length and every record but its counter unchanged,
      and wholly unchanged when its table was given nothing. */
  lemma TablesAreFound(b: Books, run: seq<Request>, V: map<Page, Node>, cat: Tables, id: Key, v: seq<Byte>, m: nat)
    returns (w: seq<Byte>)
    requires Balanced(b) && Requests(b, run) && TABLES in b && Lookup(b[TABLES], id) == Some(v) && TABLES in cat
    requires Catalogued(V, cat) && View(V, cat) == After(b, run)
    ensures HasRow(V, cat[TABLES].sh, id, w) && |w| == |v| && (m != 2 ==> Extract(w, m) == Extract(v, m))
    ensures Given(run, id) == [] ==> w == v
  {
    RunKeepsTables(b, run, id, m);
    assert View(V, cat)[TABLES] == RowsOf(V, cat[TABLES]);
    w := Lookup(RowsOf(V, cat[TABLES]), id).value;
    LookupIsRow(V, cat[TABLES], id, w);
    hide Ascending, HasRow, Lookup, Balanced, Requests, Catalogued;
  }

  /** After any run each row that TABLES was given is found under its id, byte for byte. */
  lemma NewTablesAreFound(b: Books, run: seq<Request>, V: map<Page, Node>, cat: Tables, i: nat)
    requires Balanced(b) && Requests(b, run) && i < |Given(run, TABLES)| && TABLES in cat
    requires Catalogued(V, cat) && View(V, cat) == After(b, run)
    ensures Listed(b, TABLES) && HasRow(V, cat[TABLES].sh, Next(b, TABLES) + i, Given(run, TABLES)[i])
  {
    TablesRunIsRead(b, run, i);
    assert View(V, cat)[TABLES] == RowsOf(V, cat[TABLES]);
    LookupIsRow(V, cat[TABLES], Next(b, TABLES) + i, Given(run, TABLES)[i]);
    hide Ascending, HasRow, Lookup, Balanced, Requests, Catalogued;
  }
}
