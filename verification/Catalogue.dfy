/** What the TABLES rows promise, apart from the pages they are kept on: every listed table has a next row
    id above all its rows, and inserting a row spends that id. Runs of inserts over any mix of tables. */
module Catalogue {
  import opened Options
  import opened Nodes
  import opened Codec
  import opened TableRows
  import opened TableChain
  import opened TableRun
  import opened TableChange
  import opened Records

  /** The id, and the root page, of the TABLES table. */
  const TABLES: Key := 0

  /** The rows of every table, by table id. */
  type Books = map<Key, seq<Cell>>

  // ---------------------------------------------------------------- one row

  function Lookup(rows: seq<Cell>, key: Key): Option<seq<Byte>> {
    if rows == [] then None
    else if rows[|rows| - 1].key == key then Some(rows[|rows| - 1].value)
    else Lookup(rows[..|rows| - 1], key)
  }

  lemma {:induction false} LookupFinds(rows: seq<Cell>, key: Key, value: seq<Byte>)
    requires Climbing(rows)
    ensures Lookup(rows, key) == Some(value) <==> Cell(key, value) in rows
  {
    if rows != [] {
      LookupFinds(rows[..|rows| - 1], key, value);
      assert rows == rows[..|rows| - 1] + [rows[|rows| - 1]];
    }
  }

  lemma {:induction false} LookupAbove(rows: seq<Cell>, key: Key)
    requires Above(rows, key)
    ensures Lookup(rows, key) == None
  {
    if rows != [] {
      var front := rows[..|rows| - 1];
      assert forall i {:trigger front[i]} :: 0 <= i < |front| ==> front[i] == rows[i];
      LookupAbove(front, key);
    }
  }

  lemma {:induction false} LookupSet(rows: seq<Cell>, key: Key, value: seq<Byte>, k: Key)
    ensures Lookup(SetRow(rows, key, value), k) ==
      if k == key && Lookup(rows, k).Some? then Some(value) else Lookup(rows, k)
  {
    if rows != [] {
      var n := |rows| - 1;
      LookupSet(rows[..n], key, value, k);
      assert SetRow(rows, key, value)[..n] == SetRow(rows[..n], key, value);
    }
  }

  lemma LookupPush(rows: seq<Cell>, c: Cell, k: Key)
    ensures Lookup(rows + [c], k) == if k == c.key then Some(c.value) else Lookup(rows, k)
  {
    assert (rows + [c])[..|rows|] == rows;
  }

  // ---------------------------------------------------------------- one entry of TABLES

  /** A long read back into an unsigned word. */
  function Unsigned(v: int): int {
    if v < 0 then v + PAGE_LIMIT else v
  }

  lemma {:induction false} ExtractValid(buffer: seq<Byte>, n: nat)
    requires Extract(buffer, n).Some?
    ensures ValidRecord(Extract(buffer, n).value)
  {
    hide TypeSize;
    if n > 0 { ExtractValid(buffer[1 + TypeSize(buffer[0])..], n - 1); }
  }

  /** Record n of the row as an id or a page number; all ones where `record_get_long` fails. */
  function WordAt(row: seq<Byte>, n: nat): int
    requires Extract(row, n).Some?
  {
    ExtractValid(row, n);
    var v := GetLong(Extract(row, n).value);
    if v.Some? then Unsigned(v.value) else NO_PAGE
  }

  predicate LongAt(row: seq<Byte>, n: nat) {
    Extract(row, n).Some? && Extract(row, n).value.kind == RECORD_TYPE_LONG
  }

  lemma WordOfLong(row: seq<Byte>, n: nat, v: nat)
    requires Extract(row, n) == Some(FromLong(v)) && v < PAGE_LIMIT
    ensures LongAt(row, n) && WordAt(row, n) == v
  {
    FieldSizes();
    IntRoundTrip(v, 8);
  }

  lemma {:induction false} FromLEBound(s: seq<Byte>)
    ensures FromLE(s) < Pow256(|s|)
  {
    if s != [] { FromLEBound(s[1..]); }
  }

  lemma WordRange(row: seq<Byte>, n: nat)
    requires LongAt(row, n)
    ensures 0 <= WordAt(row, n) < PAGE_LIMIT && |Extract(row, n).value.data| == 8
  {
    ExtractValid(row, n);
    var d := Extract(row, n).value.data;
    FieldSizes();
    FromLEBound(d);
  }

  /** The row after `get_next_id`: its record 2 counts one further. */
  function Bumped(row: seq<Byte>): (r: seq<Byte>)
    requires LongAt(row, 2)
  {
    WordRange(row, 2);
    Replace(row, 2, FromLong((WordAt(row, 2) + 1) % PAGE_LIMIT))
  }

  lemma BumpedFacts(row: seq<Byte>, m: nat)
    requires LongAt(row, 2) && WordAt(row, 2) + 1 < PAGE_LIMIT
    ensures LongAt(Bumped(row), 2) && WordAt(Bumped(row), 2) == WordAt(row, 2) + 1 && |Bumped(row)| == |row|
    ensures m != 2 ==> Extract(Bumped(row), m) == Extract(row, m)
  {
    hide *;
    var r := BumpedIs(row);
    ReplaceIsLocal(row, 2, r, 2);
    ReplaceIsLocal(row, 2, r, m);
    ReplaceKeepsSize(row, 2, r);
    WordOfLong(Bumped(row), 2, WordAt(row, 2) + 1);
  }

  lemma BumpedIs(row: seq<Byte>) returns (r: Record)
    requires LongAt(row, 2) && WordAt(row, 2) + 1 < PAGE_LIMIT
    ensures Extract(row, 2).Some? && 0 <= WordAt(row, 2) && ValidRecord(r) && |r.data| == |Extract(row, 2).value.data|
    ensures r == FromLong(WordAt(row, 2) + 1) && Bumped(row) == Replace(row, 2, r)
  {
    WordRange(row, 2);
    hide Extract, Replace, WordAt;
    r := FromLong(WordAt(row, 2) + 1);
  }

  // ---------------------------------------------------------------- the books

  /** TABLES lists the table with a next id above all its rows. */
  ghost predicate Entry(b: Books, id: Key)
    requires TABLES in b && id in b
  {
    Listed(b, id) && Above(b[id], Next(b, id))
  }

  ghost function Next(b: Books, id: Key): (n: nat)
    requires Listed(b, id)
  {
    WordRange(Lookup(b[TABLES], id).value, 2);
    WordAt(Lookup(b[TABLES], id).value, 2)
  }

  ghost predicate Balanced(b: Books) {
    TABLES in b && forall id {:trigger b[id]} :: id in b ==> Entry(b, id)
  }

  ghost predicate Listed(b: Books, id: Key) {
    && TABLES in b && id in b
    && Lookup(b[TABLES], id).Some? && LongAt(Lookup(b[TABLES], id).value, 2)
  }

  /** What `insert_row` does: it spends a listed table's next id on the row. */
  ghost function Inserted(b: Books, id: Key, value: seq<Byte>): Books {
    if !Listed(b, id) then b
    else
      var c := b[TABLES := SetRow(b[TABLES], id, Bumped(Lookup(b[TABLES], id).value))];
      c[id := c[id] + [Cell(Next(b, id), value)]]
  }

  lemma InsertedIs(b: Books, table: Key, row: seq<Byte>)
    requires Balanced(b) && table in b && Listed(b, table) && Next(b, table) + 1 < PAGE_LIMIT
    ensures TABLES in b && Lookup(b[TABLES], table).Some? && LongAt(Lookup(b[TABLES], table).value, 2)
    ensures WordAt(Lookup(b[TABLES], table).value, 2) == Next(b, table) && Above(b[table], Next(b, table))
    ensures var c := b[TABLES := SetRow(b[TABLES], table, Bumped(Lookup(b[TABLES], table).value))];
      Inserted(b, table, row) == c[table := c[table] + [Cell(Next(b, table), row)]]
  {
    assert Entry(b, table) by { assert b[table] == b[table]; }
    hide Bumped, LongAt, Lookup, WordAt, SetRow, Above;
  }

  lemma SetAbove(rows: seq<Cell>, key: Key, value: seq<Byte>, next: Key)
    ensures Above(rows, next) ==> Above(SetRow(rows, key, value), next)
  {}

  /** One insert hands out the next id, adds just its row, and moves only that table's counter. */
  lemma InsertedFacts(b: Books, id: Key, value: seq<Byte>, j: Key)
    requires Balanced(b) && id in b && Next(b, id) + 1 < PAGE_LIMIT && j in b
    ensures var c := Inserted(b, id, value);
      && c.Keys == b.Keys && Entry(c, j)
      && (j != TABLES ==> c[j] == if j == id then b[j] + [Cell(Next(b, id), value)] else b[j])
      && Next(c, j) == Next(b, j) + if j == id then 1 else 0
  {
    hide *;
    EntriesOf(b, id);
    InsertedIs(b, id, value);
    EntriesOf(b, j);
    var row := Lookup(b[TABLES], id).value;
    var rows := SetRow(b[TABLES], id, Bumped(row));
    BumpedFacts(row, 0);
    LookupSet(b[TABLES], id, Bumped(row), j);
    LookupAbove(b[TABLES], Next(b, TABLES));
    LookupPush(rows, Cell(Next(b, id), value), j);
    SetAbove(b[TABLES], id, Bumped(row), Next(b, TABLES));
    AboveOn(if j == TABLES then rows else b[j], Next(b, j), Cell(Next(b, j), value));
    EntryNow(Inserted(b, id, value), j, Next(b, j) + if j == id then 1 else 0);
  }

  lemma EntriesOf(b: Books, j: Key)
    requires Balanced(b) && j in b
    ensures TABLES in b && Listed(b, j) && Listed(b, TABLES) && Above(b[j], Next(b, j))
      && Above(b[TABLES], Next(b, TABLES))
    ensures Lookup(b[TABLES], j).Some? && LongAt(Lookup(b[TABLES], j).value, 2)
      && WordAt(Lookup(b[TABLES], j).value, 2) == Next(b, j)
  {
    assert Entry(b, j) && Entry(b, TABLES) by { assert b[j] == b[j] && b[TABLES] == b[TABLES]; }
    hide LongAt, Lookup, WordAt, Above;
  }

  lemma AboveOn(rows: seq<Cell>, next: Key, c: Cell)
    requires Above(rows, next) && c.key == next
    ensures Above(rows + [c], next + 1)
  {}

  lemma EntryNow(c: Books, j: Key, next: nat)
    requires TABLES in c && j in c && Lookup(c[TABLES], j).Some? && LongAt(Lookup(c[TABLES], j).value, 2)
    requires WordAt(Lookup(c[TABLES], j).value, 2) == next && Above(c[j], next)
    ensures Entry(c, j) && Next(c, j) == next
  {
    hide LongAt, Lookup, WordAt, Above;
  }

  /** Any row of TABLES keeps its bytes, but for the counter record of a table that got a row. */
  lemma InsertedTables(b: Books, id: Key, value: seq<Byte>, k: Key, m: nat)
    requires Balanced(b) && id in b && Next(b, id) + 1 < PAGE_LIMIT && Lookup(b[TABLES], k).Some?
    ensures var v := Lookup(Inserted(b, id, value)[TABLES], k);
      && v.Some? && |v.value| == |Lookup(b[TABLES], k).value|
      && (k != id ==> v == Lookup(b[TABLES], k))
      && (m != 2 ==> Extract(v.value, m) == Extract(Lookup(b[TABLES], k).value, m))
  {
    assert Entry(b, id) && Entry(b, TABLES);
    var row := Lookup(b[TABLES], id).value;
    BumpedFacts(row, m);
    LookupSet(b[TABLES], id, Bumped(row), k);
    if id == TABLES {
      LookupAbove(b[TABLES], Next(b, id));
      LookupPush(SetRow(b[TABLES], id, Bumped(row)), Cell(Next(b, id), value), k);
    }
    hide Replace, Extract, LongAt, WordAt, Bumped, Lookup;
  }

  /** A row given to TABLES itself is kept under its id, byte for byte. */
  lemma InsertedIsListed(b: Books, value: seq<Byte>)
    requires Balanced(b) && Next(b, TABLES) + 1 < PAGE_LIMIT
    ensures TABLES in b && var c := Inserted(b, TABLES, value);
      && TABLES in c && Lookup(c[TABLES], Next(b, TABLES)) == Some(value)
      && |c[TABLES]| == |b[TABLES]| + 1 && c[TABLES][|b[TABLES]|] == Cell(Next(b, TABLES), value)
  {
    EntriesOf(b, TABLES);
    InsertedIs(b, TABLES, value);
    var rows := SetRow(b[TABLES], TABLES, Bumped(Lookup(b[TABLES], TABLES).value));
    LookupPush(rows, Cell(Next(b, TABLES), value), Next(b, TABLES));
    hide Bumped, Lookup, Above, LongAt, WordAt;
  }

  lemma InsertedStays(b: Books, id: Key, value: seq<Byte>)
    requires Balanced(b) && id in b && Next(b, id) + 1 < PAGE_LIMIT
    ensures Balanced(Inserted(b, id, value))
  {
    var c := Inserted(b, id, value);
    forall j | j in c ensures Entry(c, j) { InsertedFacts(b, id, value, j); }
    InsertedFacts(b, id, value, TABLES);
  }

  // ---------------------------------------------------------------- runs

  datatype Request = Request(table: Key, row: seq<Byte>)

  /** The rows that a run gives to the table, in order. */
  function Given(run: seq<Request>, id: Key): (rows: seq<seq<Byte>>)
    ensures |rows| <= |run|
  {
    if run == [] then []
    else Given(run[..|run| - 1], id) + if run[|run| - 1].table == id then [run[|run| - 1].row] else []
  }

  function Numbered(rows: seq<seq<Byte>>, next: nat): seq<Cell> {
    seq(|rows|, i requires 0 <= i < |rows| => Cell(next + i, rows[i]))
  }

  /** Inserts into listed tables whose counters do not run out. */
  ghost predicate Requests(b: Books, run: seq<Request>)
    requires Balanced(b)
  {
    forall i {:trigger run[i]} :: 0 <= i < |run| ==>
      run[i].table in b && Entry(b, run[i].table) && Next(b, run[i].table) + |Given(run, run[i].table)| <= KEY_LIMIT
  }

  ghost function After(b: Books, run: seq<Request>): Books {
    if run == [] then b
    else Inserted(After(b, run[..|run| - 1]), run[|run| - 1].table, run[|run| - 1].row)
  }

  lemma StepAdds(c: Books, o: Request, id: Key, was: seq<Cell>, given: seq<seq<Byte>>, next: nat)
    requires Balanced(c) && o.table in c && Listed(c, o.table) && Next(c, o.table) + 1 < PAGE_LIMIT
    requires id in c && Listed(c, id) && Next(c, id) == next + |given|
      && (id != TABLES ==> c[id] == was + Numbered(given, next))
    ensures var d := Inserted(c, o.table, o.row);
      var given' := given + if o.table == id then [o.row] else [];
      && Balanced(d) && d.Keys == c.Keys && Entry(d, id) && Next(d, id) == next + |given'|
      && (id != TABLES ==> d[id] == was + Numbered(given', next))
  {
    hide *;
    InsertedStays(c, o.table, o.row);
    InsertedFacts(c, o.table, o.row, id);
    NumberedPush(given, o.row, next);
    if o.table == id {
      assert was + Numbered(given, next) + [Cell(Next(c, id), o.row)]
        == was + (Numbered(given, next) + [Cell(Next(c, id), o.row)]);
    } else {
      assert given + [] == given;
    }
  }

  /** Over a whole run: ids are consecutive from the table's counter, each table holds its old rows and then
      exactly those it was given, and nobody else's. */
  lemma {:induction false} RunAdds(b: Books, run: seq<Request>, id: Key)
    requires Balanced(b) && Requests(b, run) && id in b
    ensures var c := After(b, run);
      && Balanced(c) && c.Keys == b.Keys && Entry(b, id) && Entry(c, id)
      && Next(c, id) == Next(b, id) + |Given(run, id)|
      && (id != TABLES ==> c[id] == b[id] + Numbered(Given(run, id), Next(b, id)))
  {
    assert Entry(b, id);
    if run == [] {
      assert Numbered(Given(run, id), Next(b, id)) == [];
    } else {
      var n, o := run[..|run| - 1], run[|run| - 1];
      FrontRequests(b, run);
      RunAdds(b, n, id);
      RunAdds(b, n, o.table);
      RunSnoc(b, run, id);
      hide *;
      StepAdds(After(b, n), o, id, b[id], Given(n, id), Next(b, id));
    }
  }

  lemma RunSnoc(b: Books, run: seq<Request>, id: Key)
    requires run != []
    ensures var n, o := run[..|run| - 1], run[|run| - 1];
      && After(b, run) == Inserted(After(b, n), o.table, o.row)
      && Given(run, id) == Given(n, id) + if o.table == id then [o.row] else []
  {}

  lemma NumberedPush(rows: seq<seq<Byte>>, row: seq<Byte>, next: nat)
    ensures Numbered(rows + [row], next) == Numbered(rows, next) + [Cell(next + |rows|, row)]
  {}

  lemma FrontRequests(b: Books, run: seq<Request>)
    requires Balanced(b) && Requests(b, run) && run != []
    ensures Requests(b, run[..|run| - 1])
    ensures var n, o := run[..|run| - 1], run[|run| - 1];
      o.table in b && Entry(b, o.table) && Next(b, o.table) + |Given(n, o.table)| < KEY_LIMIT
  {
    var n := run[..|run| - 1];
    assert forall i {:trigger n[i]} :: 0 <= i < |n| ==> n[i] == run[i];
  }

  /** Over a whole run a TABLES row keeps its length and every record but its counter. */
  lemma {:induction false} RunKeepsTables(b: Books, run: seq<Request>, k: Key, m: nat)
    requires Balanced(b) && Requests(b, run) && Lookup(b[TABLES], k).Some?
    ensures TABLES in After(b, run)
    ensures var v := Lookup(After(b, run)[TABLES], k);
      && v.Some? && |v.value| == |Lookup(b[TABLES], k).value|
      && (Given(run, k) == [] ==> v == Lookup(b[TABLES], k))
      && (m != 2 ==> Extract(v.value, m) == Extract(Lookup(b[TABLES], k).value, m))
  {
    if run != [] {
      var n, o := run[..|run| - 1], run[|run| - 1];
      FrontRequests(b, run);
      RunKeepsTables(b, n, k, m);
      RunAdds(b, n, o.table);
      RunAdds(b, run, TABLES);
      InsertedTables(After(b, n), o.table, o.row, k, m);
      hide Inserted, Balanced, Entry, Requests;
    }
  }

  lemma {:induction false} NumberedAt(rows: seq<seq<Byte>>, next: nat, k: Key)
    ensures Lookup(Numbered(rows, next), k) == if next <= k < next + |rows| then Some(rows[k - next]) else None
  {
    if rows != [] {
      var n := |rows| - 1;
      NumberedAt(rows[..n], next, k);
      assert Numbered(rows, next)[..n] == Numbered(rows[..n], next);
    }
  }

  lemma {:induction false} LookupConcat(a: seq<Cell>, b: seq<Cell>, k: Key)
    ensures Lookup(a + b, k) == if Lookup(b, k).Some? then Lookup(b, k) else Lookup(a, k)
  {
    if b != [] {
      var n := |b| - 1;
      LookupConcat(a, b[..n], k);
      assert (a + b)[..|a| + n] == a + b[..n];
    } else {
      assert a + b == a;
    }
  }

  /** After any run, a lookup in a user table finds exactly the bytes stored under each id it was handed,
      and otherwise what was there before. */
  lemma RunIsRead(b: Books, run: seq<Request>, id: Key, k: Key)
    requires Balanced(b) && Requests(b, run) && id in b && id != TABLES
    ensures id in After(b, run) && Listed(b, id)
    ensures var next := Next(b, id);
      Lookup(After(b, run)[id], k) ==
        if next <= k < next + |Given(run, id)| then Some(Given(run, id)[k - next])
        else if k < next then Lookup(b[id], k) else None
  {
    hide *;
    RunAdds(b, run, id);
    EntriesOf(b, id);
    var next := Next(b, id);
    NumberedAt(Given(run, id), next, k);
    LookupConcat(b[id], Numbered(Given(run, id), next), k);
    if k >= next {
      HigherAbove(b[id], next, k);
      LookupAbove(b[id], k);
    }
  }

  lemma HigherAbove(rows: seq<Cell>, next: Key, k: Key)
    requires Above(rows, next) && next <= k
    ensures Above(rows, k)
  {}

  /** After any run the same holds of TABLES: each row it was given is found under its id, byte for byte. */
  lemma {:induction false} TablesRunIsRead(b: Books, run: seq<Request>, i: nat)
    requires Balanced(b) && Requests(b, run) && i < |Given(run, TABLES)|
    ensures TABLES in b && TABLES in After(b, run) && Listed(b, TABLES)
    ensures Lookup(After(b, run)[TABLES], Next(b, TABLES) + i) == Some(Given(run, TABLES)[i])
  {
    hide *;
    StartsListed(b);
    if run == [] {
      NothingGiven(TABLES);
    } else {
      var n, o := run[..|run| - 1], run[|run| - 1];
      FrontRequests(b, run);
      RunSnoc(b, run, TABLES);
      RunAdds(b, n, TABLES);
      RunAdds(b, n, o.table);
      EntryIs(After(b, n), o.table);
      EntryIs(After(b, n), TABLES);
      IdsAreBelow(b, o.table);
      RunAdds(b, run, TABLES);
      if i < |Given(n, TABLES)| {
        TablesRunIsRead(b, n, i);
        InsertedTables(After(b, n), o.table, o.row, Next(b, TABLES) + i, 0);
      } else {
        InsertedIsListed(After(b, n), o.row);
      }
    }
  }

  lemma NothingGiven(id: Key)
    ensures Given([], id) == []
  {}

  lemma StartsListed(b: Books)
    requires Balanced(b)
    ensures TABLES in b && Listed(b, TABLES)
  {
    EntriesOf(b, TABLES);
  }

  /** The ids of listed tables were handed out before. */
  lemma IdsAreBelow(b: Books, id: Key)
    requires Balanced(b) && id in b
    ensures Listed(b, TABLES) && id < Next(b, TABLES)
  {
    EntriesOf(b, id);
    hide Lookup, LongAt, WordAt, Balanced;
    if id >= Next(b, TABLES) {
      HigherAbove(b[TABLES], Next(b, TABLES), id);
      LookupAbove(b[TABLES], id);
    }
  }

  // ---------------------------------------------------------------- sizes

  /** Row by row, what a table holds after a run weighs what it held before and what it was given. */
  lemma {:induction false} RunLoads(b: Books, run: seq<Request>, id: Key)
    requires Balanced(b) && Requests(b, run) && id in b && Climbing(b[TABLES])
    ensures Listed(b, id) && id in After(b, run) && TABLES in After(b, run)
    ensures Climbing(After(b, run)[TABLES])
      && SameLoads(b[id] + Numbered(Given(run, id), Next(b, id)), After(b, run)[id])
  {
    hide *;
    RunStart(b, run, id);
    if run != [] {
      var n, o := run[..|run| - 1], run[|run| - 1];
      FrontRequests(b, run);
      RunLoads(b, n, id);
      RunAdds(b, n, id);
      RunAdds(b, n, o.table);
      RunSnoc(b, run, id);
      EntryIs(After(b, n), o.table);
      InsertedLoads(After(b, n), o.table, o.row, id);
      LoadsOn(b[id], Numbered(Given(n, id), Next(b, id)), After(b, n)[id], Next(b, id) + |Given(n, id)|, o, id,
        After(b, run)[id]);
      GivenOn(b, run, id);
    }
  }

  lemma RunStart(b: Books, run: seq<Request>, id: Key)
    requires Balanced(b) && id in b && Climbing(b[TABLES])
    ensures TABLES in b && Listed(b, id)
    ensures run == [] ==> After(b, run) == b && SameLoads(b[id] + Numbered(Given(run, id), Next(b, id)), b[id])
  {
    assert Entry(b, id) by { assert b[id] == b[id]; }
    if run == [] { assert b[id] + Numbered(Given(run, id), Next(b, id)) == b[id]; }
  }

  lemma EntryIs(b: Books, id: Key)
    requires TABLES in b && id in b && Entry(b, id)
    ensures Listed(b, id) && KEY_LIMIT < PAGE_LIMIT
  {}

  lemma GivenOn(b: Books, run: seq<Request>, id: Key)
    requires run != [] && Listed(b, id)
    ensures var n, o := run[..|run| - 1], run[|run| - 1];
      Numbered(Given(run, id), Next(b, id)) ==
        Numbered(Given(n, id), Next(b, id)) + if o.table == id then [Cell(Next(b, id) + |Given(n, id)|, o.row)] else []
  {
    NumberedPush(Given(run[..|run| - 1], id), run[|run| - 1].row, Next(b, id));
  }

  lemma LoadsOn(was: seq<Cell>, added: seq<Cell>, now: seq<Cell>, next: nat, o: Request, id: Key, then_: seq<Cell>)
    requires SameLoads(was + added, now)
    requires SameLoads(now + if o.table == id then [Cell(next, o.row)] else [], then_)
    ensures SameLoads(was + (added + if o.table == id then [Cell(next, o.row)] else []), then_)
  {
    assert was + (added + if o.table == id then [Cell(next, o.row)] else []) == was + added + if o.table
      == id then [Cell(next, o.row)] else [];
  }

  lemma InsertedLoads(b: Books, table: Key, row: seq<Byte>, id: Key)
    requires Balanced(b) && table in b && id in b && Listed(b, table) && Next(b, table) + 1 < PAGE_LIMIT
      && Climbing(b[TABLES])
    ensures var c := Inserted(b, table, row);
      && TABLES in c && id in c && Climbing(c[TABLES])
      && SameLoads(b[id] + if table == id then [Cell(Next(b, table), row)] else [], c[id])
  {
    hide *;
    InsertedIs(b, table, row);
    var old_ := Lookup(b[TABLES], table).value;
    var rows := SetRow(b[TABLES], table, Bumped(old_));
    BumpedFacts(old_, 0);
    SetLoads(b[TABLES], table, Bumped(old_));
    SetAbove(b[TABLES], table, Bumped(old_), Next(b, table));
    SelfLoads(b[id]);
    PushLoads(if id == TABLES then rows else b[id], b[id], Cell(Next(b, table), row));
    if table == TABLES { ClimbOn(rows, Cell(Next(b, table), row)); }
  }

  lemma SelfLoads(rows: seq<Cell>)
    ensures SameLoads(rows, rows) && SameLoads(rows + [], rows)
  {}

  lemma PushLoads(now: seq<Cell>, was: seq<Cell>, c: Cell)
    ensures SameLoads(was, now) ==> SameLoads(was + [], now) && SameLoads(was + [c], now + [c])
  {}

  lemma ClimbOn(rows: seq<Cell>, c: Cell)
    requires Climbing(rows) && Above(rows, c.key)
    ensures Climbing(rows + [c])
  {}

  lemma SetLoads(rows: seq<Cell>, key: Key, value: seq<Byte>)
    requires Climbing(rows) && Lookup(rows, key).Some? && |Lookup(rows, key).value| == |value|
    ensures SameLoads(rows, SetRow(rows, key, value)) && Climbing(SetRow(rows, key, value))
  {
    forall i | 0 <= i < |rows| ensures |SetRow(rows, key, value)[i].value| == |rows[i].value| {
      LookupFinds(rows, rows[i].key, rows[i].value);
      assert rows[i] == Cell(rows[i].key, rows[i].value);
    }
  }

  /** What a part of a run gives to a table comes first. */
  lemma {:induction false} GivenFirst(run: seq<Request>, id: Key, n: nat)
    requires n <= |run|
    ensures |Given(run[..n], id)| <= |Given(run, id)| && Given(run, id)[..|Given(run[..n], id)|] == Given(run[..n], id)
  {
    if n < |run| {
      var front := run[..|run| - 1];
      GivenFirst(front, id, n);
      assert front[..n] == run[..n];
      var k := |Given(run[..n], id)|;
      assert Given(run, id)[..k] == Given(front, id)[..k];
    } else {
      assert run[..n] == run;
      assert Given(run, id)[..|Given(run, id)|] == Given(run, id);
    }
  }
}
