/** Operations on tables through the TABLES table: reading and setting one record of a row, handing out
    row ids, and inserting rows. */
module DbOps {
  import opened Options
  import opened Nodes
  import opened Codec
  import opened MemNodes
  import opened Disk
  import opened SearchTree
  import Cascade
  import opened PageTree
  import opened TableTree
  import opened LeafInsert
  import opened TableInsert
  import opened TableRows
  import opened TableChain
  import opened TableRun
  import opened TableChange
  import opened Records
  import opened Catalogue

  // ---------------------------------------------------------------- one record of one row

  /** What `get_row` finds is what a scan would list under the key. */
  lemma LookupIsRow(V: map<Page, Node>, t: Table, key: Key, v: seq<Byte>)
    requires TableIs(V, t)
    ensures HasRow(V, t.sh, key, v) <==> Lookup(RowsOf(V, t), key) == Some(v)
  {
    RowsClimb(V, t);
    LookupFinds(RowsOf(V, t), key, v);
    RowsAreTheRows(V, t.sh, t.root, t.chain, key, v);
    hide Ascending, HasRow, Lookup;
  }

  /** Whatever row the key has, its nth record can be read. */
  ghost predicate Readable(V: map<Page, Node>, sh: Shape, key: Key, n: nat) {
    forall v {:trigger HasRow(V, sh, key, v)} :: HasRow(V, sh, key, v) ==> Extract(v, n).Some?
  }

  method GetNRecord(db: Db, root: Page, key: Key, n: nat, ghost sh: Shape) returns (record: Option<Record>)
    requires db.Valid() && Tree(Natural, db.nodes, sh, root) && Readable(db.nodes, sh, key, n)
    modifies db`cache, db`cacheSize
    ensures db.Valid()
    ensures record.Some? <==> AnyRow(db.nodes, sh, key)
    ensures forall v {:trigger HasRow(db.nodes, sh, key, v)} :: HasRow(db.nodes, sh, key, v) ==> record == Extract(v, n)
  {
    hide Db.Valid, HasRow, Extract, On;
    var row, cursor := GetRow(db, root, key, sh);
    if row == None {
      assert !AnyRow(db.nodes, sh, key);
      return None;
    }
    var r := ExtractRecord(row.value, n);
    record := Some(r);
    forall v | HasRow(db.nodes, sh, key, v)
      ensures v == row.value
    {
      RowsAreUnique(db.nodes, sh, root, key, v, row.value);
    }
    hide Tree;
  }

  /** The nth record of the row, if it has a row, is one that `r` can take the place of. */
  predicate Replaceable(row: Option<seq<Byte>>, n: nat, r: Record) {
    ValidRecord(r) && (row.Some? ==> Extract(row.value, n).Some? && |Extract(row.value, n).value.data| == |r.data|)
  }

  method SetNRecord(db: Db, root: Page, key: Key, n: nat, r: Record, ghost t: Table) returns (ret: int)
    requires db.Valid() && TableIs(db.nodes, t) && t.root == root
    requires Replaceable(Lookup(RowsOf(db.nodes, t), key), n, r)
    modifies db`cache, db`cacheSize, db`pages, db`nodes
    ensures db.Valid() && TableIs(db.nodes, t)
    ensures var rows := old(RowsOf(db.nodes, t));
      if Lookup(rows, key).Some?
        then ret == 0 && RowsOf(db.nodes, t) == SetRow(rows, key, Replace(Lookup(rows, key).value, n, r))
      else ret == -1 && RowsOf(db.nodes, t) == rows
    ensures SameSizes(old(db.nodes), db.nodes)
    ensures forall p {:trigger p in t.sh} :: p !in t.sh && p in db.nodes ==> db.nodes[p] == old(db.nodes)[p]
  {
    hide *;
    ghost var V, rows := db.nodes, RowsOf(db.nodes, t);
    TableTreeIs(V, t);
    var row, cursor := GetRow(db, root, key, t.sh);
    GotRow(V, t, key, row);
    SizesKept(V);
    if row == None { return -1; }
    ReplaceableRow(row, n, r);
    ghost var p, i := cursor.page, cursor.cell;
    OnCell(db.nodes, cursor, i);
    var value := ReplaceRecord(cursor.node.keyVals[cursor.cell].value, n, r);
    SetReady(db, t, p, i, value);
    RevaluedSizes(V, p, i, value);
    PutCell(cursor.node, cursor.cell, value, V[p]);
    ret := db.WriteNode(cursor.node, cursor.page);
  }

  lemma SizesKept(V: map<Page, Node>)
    ensures SameSizes(V, V)
  {}

  lemma TableTreeIs(V: map<Page, Node>, t: Table)
    requires TableIs(V, t)
    ensures Tree(Natural, V, t.sh, t.root) && t.root in V && t.root in t.sh
  {}

  lemma GotRow(V: map<Page, Node>, t: Table, key: Key, row: Option<seq<Byte>>)
    requires TableIs(V, t)
    requires row.Some? <==> AnyRow(V, t.sh, key)
    requires row.Some? ==> HasRow(V, t.sh, key, row.value)
    ensures row == Lookup(RowsOf(V, t), key)
  {
    var found := Lookup(RowsOf(V, t), key);
    if row.Some? { LookupIsRow(V, t, key, row.value); }
    if found.Some? { LookupIsRow(V, t, key, found.value); }
    hide TableIs, HasRow, Lookup;
  }

  lemma ReplaceableRow(row: Option<seq<Byte>>, n: nat, r: Record)
    requires Replaceable(row, n, r) && row.Some?
    ensures ValidRecord(r) && Extract(row.value, n).Some? && |r.data| == |Extract(row.value, n).value.data|
  {}

  lemma OnCell(nodes: map<Page, Node>, cursor: Cursor, i: nat)
    requires On(nodes, cursor) && i < |nodes[cursor.page].cells|
    ensures cursor.page in nodes && cursor.node.Valid() && cursor.node.Val() == nodes[cursor.page]
      && i < cursor.node.nbKeys
    ensures cursor.node.keyVals.Length > i && cursor.node.keyVals[i] == nodes[cursor.page].cells[i]
  {}

  lemma SetReady(db: Db, t: Table, p: Page, i: nat, value: seq<Byte>)
    requires db.Valid() && TableIs(db.nodes, t) && p in t.sh && p in db.nodes && db.nodes[p].kind == TableLeaf
    requires i < |db.nodes[p].cells| && |value| == |db.nodes[p].cells[i].value|
    ensures p in db.live && Fits(Revalued(db.nodes[p], i, value), Cap(p))
    ensures TableIs(db.nodes[p := Revalued(db.nodes[p], i, value)], t)
    ensures RowsOf(db.nodes[p := Revalued(db.nodes[p], i, value)], t)
      == SetRow(RowsOf(db.nodes, t), db.nodes[p].cells[i].key, value)
  {
    db.NodeOk(p);
    db.LiveBound(p);
    hide Db.Valid;
    RevaluedFits(db.nodes[p], i, value, Cap(p));
    SetKeepsTable(db.nodes, t, p, i, value);
  }

  method PutCell(node: MemNode, cell: nat, value: seq<Byte>, ghost n: Node)
    requires node.Valid() && node.Val() == n && cell < node.nbKeys
    modifies node.keyVals
    ensures node.Valid() && cell < |n.cells| && node.Val() == Revalued(n, cell, value)
  {
    node.keyVals[cell] := node.keyVals[cell].(value := value);
  }

  // ---------------------------------------------------------------- the catalogue and the pages

  /** The tables in use, by id. */
  type Tables = map<Key, Table>

  /** Every table is in order on its own pages. */
  ghost predicate Standing(V: map<Page, Node>, cat: Tables) {
    && TABLES in cat && cat[TABLES].root == 0
    && (forall id {:trigger cat[id]} :: id in cat ==> TableIs(V, cat[id]))
    && (forall i, j {:trigger cat[i], cat[j]} :: i in cat && j in cat && i != j ==> cat[i].sh.Keys !! cat[j].sh.Keys)
  }

  ghost function View(V: map<Page, Node>, cat: Tables): Books {
    map id | id in cat :: RowsOf(V, cat[id])
  }

  /** TABLES gives every table's root page. */
  ghost predicate Addressed(b: Books, cat: Tables) {
    TABLES in b && forall id {:trigger cat[id]} :: id in cat ==> HasRoot(Lookup(b[TABLES], id), cat[id].root)
  }

  predicate HasRoot(row: Option<seq<Byte>>, root: Page) {
    row.Some? && Extract(row.value, 1) == Some(FromLong(root))
  }

  ghost predicate Catalogued(V: map<Page, Node>, cat: Tables) {
    Standing(V, cat) && Addressed(View(V, cat), cat) && Balanced(View(V, cat))
  }

  ghost predicate Owned(cat: Tables, p: Page) {
    exists id {:trigger cat[id]} :: id in cat && p in cat[id].sh
  }

  /** Record n of the row under `id`, if there is such a row. */
  ghost function RecordAt(rows: seq<Cell>, id: Key, n: nat): Option<Record> {
    var row := Lookup(rows, id);
    if row.Some? then Extract(row.value, n) else None
  }

  ghost predicate HasRecord(rows: seq<Cell>, id: Key, n: nat) {
    var row := Lookup(rows, id);
    row.Some? ==> Extract(row.value, n).Some?
  }

  /** `record_get_long` on the record, as an unsigned word; all ones on failure. */
  ghost function Word(r: Option<Record>): int {
    if r.Some? && ValidRecord(r.value) && GetLong(r.value).Some? then Unsigned(GetLong(r.value).value) else NO_PAGE
  }

  /** A word by its bytes: a long's eight, little-endian; 0 and 1 for null and the constants; all ones for no record and
      for the kinds that are no number. */
  lemma WordExactly(r: Option<Record>)
    ensures r == None ==> Word(r) == 0xFFFF_FFFF_FFFF_FFFF
    ensures r.Some? && ValidRecord(r.value) && r.value.kind == 4 ==>
      |r.value.data| == 8 && Word(r) == Plain8(r.value.data)
    ensures r.Some? && ValidRecord(r.value) && (r.value.kind == 0 || r.value.kind == 6) ==> Word(r) == 0
    ensures r.Some? && ValidRecord(r.value) && r.value.kind == 7 ==> Word(r) == 1
    ensures r.Some? && ValidRecord(r.value) && r.value.kind !in {0, 4, 6, 7} ==> Word(r) == 0xFFFF_FFFF_FFFF_FFFF
  {
    if r.Some? && ValidRecord(r.value) {
      GetLongExactly(r.value);
      if r.value.kind == 4 { LongRange(r.value.data); }
    }
  }

  lemma LongRange(d: seq<Byte>)
    requires |d| == 8
    ensures Plain8(d) < 0x1_0000_0000_0000_0000 && (Plain8(d) >= 0x8000_0000_0000_0000 <==> d[7] >= 128)
  {
    TopBit(Plain4(d[..4]), Plain4(d[4..]), d);
    hide Plain4;
  }

  lemma WordIs(row: seq<Byte>, n: nat)
    requires Extract(row, n).Some?
    ensures WordAt(row, n) == Word(Extract(row, n)) && ValidRecord(Extract(row, n).value)
  {
    ExtractValid(row, n);
  }

  method GetTableAddr(db: Db, id: Key, ghost t: Table) returns (addr: int)
    requires db.Valid() && TableIs(db.nodes, t) && t.root == 0 && HasRecord(RowsOf(db.nodes, t), id, 1)
    modifies db`cache, db`cacheSize
    ensures db.Valid() && addr == Word(RecordAt(RowsOf(db.nodes, t), id, 1))
  {
    addr := TablesWord(db, id, 1, t);
  }

  /** A field of a TABLES row, as a word. */
  method TablesWord(db: Db, id: Key, n: nat, ghost t: Table) returns (word: int)
    requires db.Valid() && TableIs(db.nodes, t) && t.root == 0 && HasRecord(RowsOf(db.nodes, t), id, n)
    modifies db`cache, db`cacheSize
    ensures db.Valid() && word == Word(RecordAt(RowsOf(db.nodes, t), id, n))
  {
    hide *;
    RowReadable(db.nodes, t, id, n);
    TableTreeIs(db.nodes, t);
    var rec := GetNRecord(db, 0, id, n, t.sh);
    RecordIs(db.nodes, t, id, n, rec);
    word := 0xFFFF_FFFF_FFFF_FFFF;
    if rec.Some? {
      var v := GetLong(rec.value);
      if v.Some? { word := Unsigned(v.value); }
    }
    WordOf(rec, word);
  }

  lemma WordOf(rec: Option<Record>, word: int)
    requires rec.Some? ==> ValidRecord(rec.value)
    requires word == if rec.Some?
      && GetLong(rec.value).Some? then Unsigned(GetLong(rec.value).value) else 0xFFFF_FFFF_FFFF_FFFF
    ensures word == Word(rec)
  {}

  lemma RowReadable(V: map<Page, Node>, t: Table, id: Key, n: nat)
    requires TableIs(V, t) && HasRecord(RowsOf(V, t), id, n)
    ensures Readable(V, t.sh, id, n)
  {
    forall v | HasRow(V, t.sh, id, v) ensures Extract(v, n).Some? { LookupIsRow(V, t, id, v); }
  }

  lemma RecordIs(V: map<Page, Node>, t: Table, id: Key, n: nat, rec: Option<Record>)
    requires TableIs(V, t) && HasRecord(RowsOf(V, t), id, n)
    requires rec.Some? <==> AnyRow(V, t.sh, id)
    requires forall v {:trigger HasRow(V, t.sh, id, v)} :: HasRow(V, t.sh, id, v) ==> rec == Extract(v, n)
    ensures rec == RecordAt(RowsOf(V, t), id, n) && (rec.Some? ==> ValidRecord(rec.value))
  {
    hide TableIs, HasRow, Lookup, Extract;
    var row := Lookup(RowsOf(V, t), id);
    if row.Some? {
      LookupIsRow(V, t, id, row.value);
      ExtractValid(row.value, n);
    } else if rec.Some? {
      var v :| HasRow(V, t.sh, id, v);
      LookupIsRow(V, t, id, v);
    }
  }

  /** The counter record is a long, or something that is not a number at all. */
  ghost predicate CounterOk(r: Option<Record>) {
    r.Some? ==> r.value.kind !in {0, 6, 7}
  }

  /** The rows of TABLES after an id of `id` has been handed out. */
  ghost function Spent(rows: seq<Cell>, id: Key): seq<Cell> {
    var row := Lookup(rows, id);
    if row.Some? && LongAt(row.value, 2) then SetRow(rows, id, Bumped(row.value)) else rows
  }

  method GetNextId(db: Db, id: Key, ghost t: Table) returns (next: int)
    requires db.Valid() && TableIs(db.nodes, t) && t.root == 0
    requires HasRecord(RowsOf(db.nodes, t), id, 2) && CounterOk(RecordAt(RowsOf(db.nodes, t), id, 2))
    modifies db`cache, db`cacheSize, db`pages, db`nodes
    ensures db.Valid() && TableIs(db.nodes, t)
    ensures next == Word(old(RecordAt(RowsOf(db.nodes, t), id, 2)))
    ensures RowsOf(db.nodes, t) == Spent(old(RowsOf(db.nodes, t)), id)
    ensures SameSizes(old(db.nodes), db.nodes)
    ensures forall p {:trigger p in t.sh} :: p !in t.sh && p in db.nodes ==> db.nodes[p] == old(db.nodes)[p]
  {
    hide *;
    ghost var rows := RowsOf(db.nodes, t);
    next := 0xFFFF_FFFF_FFFF_FFFF;
    RowReadable(db.nodes, t, id, 2);
    TableTreeIs(db.nodes, t);
    var rec := GetNRecord(db, 0, id, 2, t.sh);
    RecordIs(db.nodes, t, id, 2, rec);
    if rec.Some? {
      var v := GetLong(rec.value);
      if v.Some? { next := Unsigned(v.value); }
    }
    WordOf(rec, next);
    SizesKept(db.nodes);
    NextFacts(rows, id, next);
    if rec == None || GetLong(rec.value) == None { return; }
    var r := FromLong((next + 1) % 0x1_0000_0000_0000_0000);
    SupplantsIs(rows, id, r);
    var ret := SetNRecord(db, 0, id, 2, r, t);
  }

  ghost predicate Supplants(rows: seq<Cell>, id: Key, r: Record) {
    && Lookup(rows, id).Some? && Replaceable(Lookup(rows, id), 2, r)
    && Spent(rows, id) == SetRow(rows, id, Replace(Lookup(rows, id).value, 2, r))
  }

  lemma SupplantsIs(rows: seq<Cell>, id: Key, r: Record)
    requires Supplants(rows, id, r)
    ensures Lookup(rows, id).Some? && Replaceable(Lookup(rows, id), 2, r)
    ensures Spent(rows, id) == SetRow(rows, id, Replace(Lookup(rows, id).value, 2, r))
  {}

  lemma NextFacts(rows: seq<Cell>, id: Key, next: int)
    requires HasRecord(rows, id, 2) && CounterOk(RecordAt(rows, id, 2)) && next == Word(RecordAt(rows, id, 2))
    ensures var rec := RecordAt(rows, id, 2);
      (rec.Some? ==> ValidRecord(rec.value))
      && (rec == None || GetLong(rec.value) == None ==> Spent(rows, id) == rows)
      && (rec.Some? && GetLong(rec.value).Some? ==>
           next >= 0 && Supplants(rows, id, FromLong((next + 1) % 0x1_0000_0000_0000_0000)))
  {
    hide Extract, Replace, Lookup, TypeSize, SetRow;
    var row := Lookup(rows, id);
    if row.Some? {
      WordIs(row.value, 2);
      if LongAt(row.value, 2) { WordRange(row.value, 2); }
    }
  }

  // ---------------------------------------------------------------- inserting a row

  lemma NoPageIsShared(cat: Tables, i: Key, j: Key, p: Page)
    requires i in cat && j in cat && i != j && cat[i].sh.Keys !! cat[j].sh.Keys && p in cat[i].sh
    ensures p !in cat[j].sh
  {}

  /** Setting a counter in TABLES leaves the other tables as they are. */
  lemma SpentStands(V: map<Page, Node>, W: map<Page, Node>, cat: Tables)
    requires Standing(V, cat) && TableIs(W, cat[TABLES]) && SameSizes(V, W)
    requires forall p {:trigger p in cat[TABLES].sh} :: p !in cat[TABLES].sh && p in W ==> W[p] == V[p]
    ensures Standing(W, cat) && View(W, cat) == View(V, cat)[TABLES := RowsOf(W, cat[TABLES])]
  {
    hide TableIs, RowsOf;
    forall id | id in cat && id != TABLES ensures TableIs(W, cat[id]) && RowsOf(W, cat[id]) == RowsOf(V, cat[id]) {
      forall p | p in cat[id].sh && p in V ensures W[p] == V[p] { NoPageIsShared(cat, id, TABLES, p); }
      OtherPages(V, W, cat[id]);
    }
  }

  /** Appending to one table leaves the others as they are, and keeps their pages apart. */
  lemma AppendStands(V: map<Page, Node>, live: set<Page>, W: map<Page, Node>, cat: Tables, id: Key, t: Table)
    requires Standing(V, cat) && id in cat && V.Keys <= live && Cascade.Framed(V, live, W, cat[id].sh, t.sh)
    requires TableIs(W, t) && t.root == cat[id].root && cat[id].sh.Keys <= t.sh.Keys
    ensures Standing(W, cat[id := t]) && View(W, cat[id := t]) == View(V, cat)[id := RowsOf(W, t)]
  {
    hide TableIs, RowsOf, Tree;
    forall j | j in cat && j != id
      ensures TableIs(W, cat[j]) && RowsOf(W, cat[j]) == RowsOf(V, cat[j]) && cat[j].sh.Keys !! t.sh.Keys
    {
      TableTreeIs(V, cat[j]);
      Cascade.SpansPages(Natural, V, cat[j].sh, cat[j].root);
      forall p | p in cat[j].sh ensures p in V && p !in t.sh && p in W && W[p] == V[p] {
        NoPageIsShared(cat, j, id, p);
        assert p in live;
      }
      OtherPages(V, W, cat[j]);
    }
  }

  /** What holds of the table that gets the row. */
  lemma ListedTable(V: map<Page, Node>, cat: Tables, id: Key)
    requires Catalogued(V, cat) && id in cat && cat[id].root < PAGE_LIMIT
    ensures var rows := View(V, cat)[TABLES];
      && Listed(View(V, cat), id) && HasRecord(rows, id, 1) && HasRecord(rows, id, 2)
      && CounterOk(RecordAt(rows, id, 2))
      && Word(RecordAt(rows, id, 1)) == cat[id].root && Word(RecordAt(rows, id, 2)) == Next(View(V, cat), id)
  {
    var b := View(V, cat);
    assert Entry(b, id) by { assert b[id] == b[id]; }
    assert HasRoot(Lookup(b[TABLES], id), cat[id].root);
    hide Standing, Entry, Extract, Lookup;
    var row := Lookup(b[TABLES], id).value;
    WordOfLong(row, 1, cat[id].root);
    WordIs(row, 1);
    WordIs(row, 2);
  }

  lemma SpentAbove(b: Books, id: Key)
    requires Balanced(b) && id in b && Listed(b, id)
    ensures TABLES in b && var c := b[TABLES := Spent(b[TABLES], id)];
      Above(c[id], Next(b, id)) && Inserted(b, id, []) == c[id := c[id] + [Cell(Next(b, id), [])]]
      && forall value {:trigger Inserted(b, id, value)} ::
           Inserted(b, id, value) == c[id := c[id] + [Cell(Next(b, id), value)]]
  {
    assert Entry(b, id) by { assert b[id] == b[id]; }
    hide Bumped, LongAt, Lookup, WordAt;
  }

  lemma AddressedAfter(b: Books, cat: Tables, id: Key, value: seq<Byte>, t: Table)
    requires Balanced(b) && Addressed(b, cat) && id in cat && id in b && Listed(b, id) && Next(b, id) + 1 < PAGE_LIMIT
    requires t.root == cat[id].root
    ensures Addressed(Inserted(b, id, value), cat[id := t]) && Balanced(Inserted(b, id, value))
  {
    InsertedStays(b, id, value);
    var c := Inserted(b, id, value);
    forall j | j in cat ensures HasRoot(Lookup(c[TABLES], j), cat[j].root) {
      assert HasRoot(Lookup(b[TABLES], j), cat[j].root);
      InsertedTables(b, id, value, j, 1);
    }
    hide Inserted, Balanced, HasRoot;
  }

  /** Premises of one insert: a listed table with ids left whose last leaf can take the row, or an id that TABLES does
      not have. */
  ghost predicate CanTake(V: map<Page, Node>, cat: Tables, id: Key, value: seq<Byte>)
    requires TABLES in cat
  {
    if id in cat then Listed(View(V, cat), id) && Next(View(V, cat), id) < KEY_LIMIT && LastTakes(V, cat[id], value)
    else Lookup(RowsOf(V, cat[TABLES]), id) == None
  }

  lemma CatalogueRoots(db: Db, cat: Tables)
    requires db.Valid() && Catalogued(db.nodes, cat)
    ensures TABLES in cat && cat[TABLES].root == 0 && TableIs(db.nodes, cat[TABLES])
      && View(db.nodes, cat)[TABLES] == RowsOf(db.nodes, cat[TABLES])
    ensures Standing(db.nodes, cat) && View(db.nodes, cat).Keys == cat.Keys && Balanced(View(db.nodes, cat))
      && Addressed(View(db.nodes, cat), cat)
    ensures forall id {:trigger cat[id]} :: id in cat ==> cat[id].root < PAGE_LIMIT
    ensures db.nodes.Keys <= db.live
  {
    hide Db.Valid, TableIs, RowsOf, Tree, Balanced, Addressed;
    forall id | id in cat ensures cat[id].root < PAGE_LIMIT {
      TableTreeIs(db.nodes, cat[id]);
      db.LiveBound(cat[id].root);
    }
    db.AllBelow();
  }

  lemma NotListed(b: Books, id: Key, rows: seq<Cell>)
    requires Lookup(rows, id) == None && TABLES in b && b[TABLES] == rows && id !in b
    ensures HasRecord(rows, id, 1) && HasRecord(rows, id, 2) && CounterOk(RecordAt(rows, id, 2))
      && Spent(rows, id) == rows
    ensures Word(RecordAt(rows, id, 1)) == Word(RecordAt(rows, id, 2)) == 0xFFFF_FFFF_FFFF_FFFF
    ensures forall value {:trigger Inserted(b, id, value)} :: Inserted(b, id, value) == b
  {}

  /** What `insert_row` may rely on when it asks for the table's root and the next id. */
  lemma Asked(V: map<Page, Node>, cat: Tables, id: Key, value: seq<Byte>)
    requires TABLES in cat && Catalogued(V, cat) && CanTake(V, cat, id, value)
      && (id in cat ==> cat[id].root < PAGE_LIMIT)
    ensures var rows := RowsOf(V, cat[TABLES]);
      && HasRecord(rows, id, 1) && HasRecord(rows, id, 2) && CounterOk(RecordAt(rows, id, 2))
      && NO_PAGE == 0xFFFF_FFFF_FFFF_FFFF && PAGE_LIMIT > NO_PAGE
      && (id in cat ==> Listed(View(V, cat), id) && Word(RecordAt(rows, id, 1)) == cat[id].root
                        && Word(RecordAt(rows, id, 2)) == Next(View(V, cat), id) < KEY_LIMIT == 0x1_0000_0000
                        && LastTakes(V, cat[id], value))
      && (id !in cat ==> Spent(rows, id) == rows && Word(RecordAt(rows, id, 2)) == NO_PAGE
                         && Inserted(View(V, cat), id, value) == View(V, cat))
  {
    hide Standing, Addressed, Balanced, TableIs, RowsOf, HasRecord, CounterOk, RecordAt, Word, Inserted, Spent, Listed,
      Lookup;
    if id in cat {
      ListedTable(V, cat, id);
    } else {
      NotListed(View(V, cat), id, RowsOf(V, cat[TABLES]));
    }
  }

  /** The counter has moved, the row is not in yet. */
  lemma Charged(V: map<Page, Node>, W: map<Page, Node>, cat: Tables, id: Key)
    requires Catalogued(V, cat) && id in cat && Listed(View(V, cat), id)
    requires TableIs(W, cat[TABLES]) && SameSizes(V, W) && RowsOf(W, cat[TABLES]) == Spent(RowsOf(V, cat[TABLES]), id)
    requires forall p {:trigger p in cat[TABLES].sh} :: p !in cat[TABLES].sh && p in W ==> W[p] == V[p]
    ensures var b := View(V, cat);
      && Standing(W, cat) && TableIs(W, cat[id]) && Above(RowsOf(W, cat[id]), Next(b, id))
      && View(W, cat) == b[TABLES := Spent(b[TABLES], id)] && W.Keys == V.Keys
  {
    SpentStands(V, W, cat);
    SpentAbove(View(V, cat), id);
    hide Spent, Balanced, TableIs, RowsOf, Above, Listed;
    assert View(W, cat)[id] == RowsOf(W, cat[id]);
  }

  /** A table only ever takes over pages that were not in use. */
  lemma OwnedBefore(live: set<Page>, W: map<Page, Node>, X: map<Page, Node>, cat: Tables, id: Key, t: Table)
    requires id in cat && Cascade.Framed(W, live, X, cat[id].sh, t.sh)
    ensures forall p {:trigger Owned(cat[id := t], p)} :: p in live && Owned(cat[id := t], p) ==> Owned(cat, p)
  {
    forall p | p in live && Owned(cat[id := t], p) ensures Owned(cat, p) {
      var j :| j in cat[id := t] && p in cat[id := t][j].sh;
      assert p in cat[j].sh;
    }
  }

  /** The row is in. */
  lemma Entered(V: map<Page, Node>, W: map<Page, Node>, live: set<Page>, X: map<Page, Node>, cat: Tables, id: Key,
                value: seq<Byte>, t: Table)
    requires Catalogued(V, cat) && id in cat && Listed(View(V, cat), id) && Next(View(V, cat), id) + 1 < PAGE_LIMIT
    requires Standing(W, cat) && View(W, cat) == View(V, cat)[TABLES := Spent(View(V, cat)[TABLES], id)]
    requires W.Keys == V.Keys <= live && Cascade.Framed(W, live, X, cat[id].sh, t.sh) && cat[id].sh.Keys <= t.sh.Keys
    requires forall p {:trigger p in cat[TABLES].sh} :: p !in cat[TABLES].sh && p in W ==> W[p] == V[p]
    requires TableIs(X, t) && t.root == cat[id].root
      && RowsOf(X, t) == RowsOf(W, cat[id]) + [Cell(Next(View(V, cat), id), value)]
    ensures Catalogued(X, cat[id := t]) && View(X, cat[id := t]) == Inserted(View(V, cat), id, value)
    ensures forall p {:trigger Owned(cat, p)} :: p in V && !Owned(cat, p) ==> p in X && X[p] == V[p]
    ensures forall p {:trigger Owned(cat[id := t], p)} :: p in live && Owned(cat[id := t], p) ==> Owned(cat, p)
  {
    OwnedBefore(live, W, X, cat, id, t);
    AppendStands(W, live, X, cat, id, t);
    SpentAbove(View(V, cat), id);
    var b := View(V, cat);
    assert View(W, cat)[id] == RowsOf(W, cat[id]);
    forall p | p in V && !Owned(cat, p) ensures p in X && X[p] == V[p] {
      assert p !in cat[id].sh && p !in cat[TABLES].sh;
      assert p in W;
    }
    assert Inserted(b, id, value) == Inserted(b, id, value);
    AddressedAfter(b, cat, id, value, t);
    hide Standing, Balanced, Listed, Inserted, Spent;
  }

  method InsertRow(db: Db, id: Key, records: seq<Record>, ghost cat: Tables) returns (rowId: int, ghost cat': Tables)
    requires db.Valid() && Catalogued(db.nodes, cat) && AllValid(records)
      && CanTake(db.nodes, cat, id, Compress(records))
    requires db.nbPages + 3 < NO_PAGE
    modifies db
    ensures db.Valid() && Catalogued(db.nodes, cat') && cat'.Keys == cat.Keys && old(db.live) <= db.live
    ensures forall j {:trigger cat'[j]} :: j in cat' ==> cat'[j].root == cat[j].root
    ensures View(db.nodes, cat') == Inserted(old(View(db.nodes, cat)), id, Compress(records))
    ensures rowId == if id in cat then Next(old(View(db.nodes, cat)), id) else NO_PAGE
    ensures forall p {:trigger Owned(cat, p)} :: p in old(db.nodes) && !Owned(cat, p) ==>
      p in db.nodes && db.nodes[p] == old(db.nodes)[p]
    ensures forall p {:trigger Owned(cat', p)} :: p in old(db.live) && Owned(cat', p) ==> Owned(cat, p)
    ensures db.nbPages <= old(db.nbPages) + 3
  {
    hide *;
    ghost var V, live, b := db.nodes, db.live, View(db.nodes, cat);
    CatalogueRoots(db, cat);
    ghost var t0 := cat[TABLES];
    Asked(V, cat, id, Compress(records));
    var rootPage := GetTableAddr(db, id, t0);
    rowId := GetNextId(db, id, t0);
    if rowId == 0xFFFF_FFFF_FFFF_FFFF {
      cat' := cat;
      Unchanged(V, db.nodes, cat);
      return;
    }
    Charged(V, db.nodes, cat, id);
    TakesAfter(V, db.nodes, cat[id], Compress(records));
    ghost var W := db.nodes;
    var value := CompressRecords(records);
    var ret; ghost var t;
    ret, t := Append(db, rootPage, rowId, value, cat[id]);
    Entered(V, W, live, db.nodes, cat, id, value, t);
    cat' := cat[id := t];
  }

  /** With no counter to move, nothing in TABLES changes. */
  lemma Unchanged(V: map<Page, Node>, W: map<Page, Node>, cat: Tables)
    requires Catalogued(V, cat) && TableIs(W, cat[TABLES]) && SameSizes(V, W)
      && RowsOf(W, cat[TABLES]) == RowsOf(V, cat[TABLES])
    requires forall p {:trigger p in cat[TABLES].sh} :: p !in cat[TABLES].sh && p in W ==> W[p] == V[p]
    ensures Catalogued(W, cat) && View(W, cat) == View(V, cat)
    ensures forall p {:trigger Owned(cat, p)} :: p in V && !Owned(cat, p) ==> p in W && W[p] == V[p]
  {
    hide TableIs, RowsOf, Balanced, Addressed;
    SpentStands(V, W, cat);
    assert View(V, cat)[TABLES := RowsOf(V, cat[TABLES])] == View(V, cat);
  }
}
