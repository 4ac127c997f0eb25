# YACDB: a verified model

YACDB keeps tables in 512-byte pages of one file. Rows live in paged B+-trees, secondary indexes in
B-trees over row ids, all behind a page allocator, a page codec and a write-through LRU cache; a
catalogue table, TABLES, lists the tables and hands out their row ids. Beside this stack stand an
in-memory B+-tree and the parser of the query language. This project models all three in Dafny and proves
what they are for: what every step keeps, what whole runs do, and where the code's own shortcuts (stored
parent links that go stale, an insert that trusts them) are and are not safe.

## How it is built

- `Nodes`, `Codec`, `PageBytes`, `MemNodes`, `PageIO`: a node as a value, its byte layout, each byte in plain numbers,
  the node in memory with its fixed arrays, and the loops that write and parse a page.
- `Cache`, `Disk`, `DiskRuns`: the LRU list and its whole-run theorems; the file, the allocator, and reading and
  writing nodes through the cache; any interleaving of reads and writes.
- `SearchTree`, `Cascade`: page graphs that are search trees (a flat map of page to node, with a ghost map
  of page to key span, rank and real parent), and what splitting a page, re-homing a root and passing a
  separator upwards do to them. Both are parametric in the key order: a table orders keys by value, an
  index orders row ids by the rank of their record.
- `PageTree`, `LeafInsert`: node surgery and split bookkeeping shared by tables and indexes.
- `TableTree`, `TableInsert`, `TableRows`, `TableChain`, `TableRun`, `TableScan`, `TableAnyOrder`, `TableWitness`: the
  table B+-tree, one insert, lookups, the leaf chain, runs of ascending keys, scans; then keys in any order: when the
  stored parents stay right, when a scan still meets every row and a search still finds one, and short runs from an
  empty file in which they do not.
- `Records`, `TableChange`, `Catalogue`, `DbOps`, `DbRuns`: record bytes, one row's value replaced, the
  books that TABLES keeps, the catalogue operations, and any run of `insert_row` from an empty file on.
- `IndexTree`, `IndexInsert`, `IndexOrder`, `IndexScan`, `IndexResults`, `IndexRerank`, `IndexRuns`: the index B-tree,
  its in-order sequence, search, successor and find-all; a change of the ranks that its order is stated with, and
  insert after insert while the table grows.
- `NodeTree`, `NodeLookup`, `NodeRoute`, `NodeDescent`, `NodeOps`, `NodeRuns`: the in-memory B+-tree of `table_tree/`:
  heap nodes changed in place, what preemptive splits do to lookups, the way an insert takes and where it leaves the
  way of a search, and runs of inserts and deletes against a finite map.
- `Query`, `Parser`, `QueryText`, `QueryRoundTrip`, `QueryGrammar`, `QueryCount`: what each query parser takes from the
  text in front of it, the parsers themselves moving through shared text, statements in the documented syntax with any
  spacing, the round trip in both directions, which texts at all are read as which instruction, and what the count of
  a list is on any text.

A page number is a `nat`; the file's 64-bit words, 32-bit stored keys and 31-bit free-list links are
written out where they matter. `Db.nodes`, `live` and `free` are ghost: what was last written to each page,
which pages are in use, and the free list. Ghost parameters named `sh` say which pages form a tree; no
executable decision reads one. Memory that the C code leaves unset appears as a parameter called `junk`
and the contracts hold for every value of it.

## What the code needs

These are facts about the code that the contracts state rather than hide.

- Children moved to a new right sibling keep the stored parent of the old page. One insert keeps a
  well-parented tree well-parented exactly when the leaf's parent has room (`TableInsert.Insert`,
  `IndexInsert.Insert`), and a run does exactly when no insert overflows a full leaf into a full page
  (`TableAnyOrder.RunParents`). Ten ascending rows are enough to lose it (`TableWitness.ParentsGoStale`). The next full
  leaf with a wrong parent is cut there: afterwards a row is found if and only if it moved to the new leaf exactly when
  its search is diverted there (`TableAnyOrder.FoundExactly`), and `TableWitness.StaleCutLosesRow` shows one that is
  not found. Runs of ascending keys stay correct regardless, because only the rightmost leaf splits and its stored parent is
  always the root page (`TableRun.Ascending`).
- A free-list link is a 32-bit int: it survives below 2^31 (or with all upper bits set) and nowhere else
  (`Disk.LinkRoundTrip`), although page numbers are 64 bits wide.
- Stored keys have 32 bits: a node reads back unchanged if and only if its keys are below 2^32
  (`Codec.StoredExactly`).
- A string record holds at most 118 characters (`Records.StringLimit`).
- `split_leaf_node` gives the new leaf no right neighbour. A scan meets every row after an insert if and only if the
  leaf had room or was the last (`TableChain.MeetsAllExactly`); with the keys 10, 20, 30, 40, 50, 5, 6 it ends after
  four of seven rows (`TableWitness.ScanLosesRows`).
- `find_all` needs a match: without one the C code dereferences a null cursor.
- In the in-memory tree insert goes one child further right than search and delete exactly at a node that has the
  very key as a separator (`NodeRoute.WaysPart`), and a separator outlives its row. `yabinsert` therefore has four ways
  to end (`NodeRoute.Way`): at the leaf that search reaches; strayed, in a leaf that search does not reach; parked, in
  the empty node that a split hangs at the left half's end; or at a child pointer that was never set. A row is found
  after its insert if and only if no interior node on the search path has the key as a separator, counting the key
  that a full root is about to send up (`NodeRuns.InsertFinds`). `NodeRuns.Reinserted` inserts 1 to 5, deletes 2 and
  inserts it again, and search does not find it. A key that was never inserted before is always found
  (`NodeRuns.NewIsDirect`).
- A list in a query is counted in a signed char: a statement is read as what it states if and only if its list has
  at most 127 elements (`QueryRoundTrip.ReadExactlyUpTo127`). A negative count makes the parser ask for a negative
  amount of memory and store through the null pointer it gets: the instruction is then `Undefined` and nothing is said
  about what follows. That happens for 128 to 255 elements modulo 256 (`QueryRoundTrip.UndefinedExactly`) and for any
  stray character (`QueryRoundTrip.StrayCharacter`), which the code means to report as an error. The comma between
  pairs is optional, and a definition takes any name as a type. `client-side/query_format.md:65` announces a condition with `cond`; the code and the
  document's own examples say `where`, and so does the model.
- A leaf page holds its rows if header and rows together stay below 512 bytes, in page 0 within 456; a page filled to
  its last byte is written, but reading it back fails an assertion. An append asks for room for the row in the last
  leaf, or in its right half once it is cut (`TableRun.LastTakes`); a run asks that any three rows in a row fit a page
  (`TableRun.Snug`): 439 bytes together, 384 for the first three in page 0.

## Model

| member | source | states |
|---|---|---|
| `Codec.IntRoundTrip` | server-side/diskio/diskio.c:607-683 | a field of w bytes gives a number back if and only if it is below 256^w |
| `Codec.StoredExactly` | server-side/diskio/diskio.c:607-683 | a page keeps a node unchanged if and only if all its keys are below 2^32 |
| `Codec.CellAt` | server-side/diskio/diskio.c:607-683 | each cell's header and payload lie at its own offset of the page image, whatever the payload lengths |
| `Codec.InteriorFits` | server-side/diskio/diskio.c:685-743 | nodes other than table leaves fit every page, page 0 included |
| `PageIO.WritePage` | server-side/diskio/diskio.c:607-743 | writing a node fills the page buffer with exactly the node's image, for all four node kinds |
| `PageIO.ParseNode` | server-side/diskio/diskio.c:259-364 | parsing the page that holds a node gives back parent, kind, key count, keys, values and links |
| `PageBytes.LittleEndian` | server-side/diskio/diskio.c:607-743 | byte i of a field of any width is n / 256^i modulo 256 |
| `PageBytes.HeaderBytes` | server-side/diskio/diskio.c:607-743 | the bytes of a page header: eight of the parent, the code 13, 5, 10 or 2 of the node's kind at byte 8, the number of cells at byte 12, the right link from byte 16 on |
| `PageBytes.CellBytes` | server-side/diskio/diskio.c:607-743 | the bytes of a cell: four of the key, four of the size, eight zero bytes, then the value, or in other nodes the eight bytes of the child's page |
| `PageBytes.RestIsZero` | server-side/diskio/diskio.c:607-743 | every byte behind the last cell is zero |
| `PageBytes.LinkRead` | server-side/diskio/diskio.c:394-446 | a link read back is the number of its four bytes, with all upper bits set where its top bit is |
| `PageBytes.LinkBytes` | server-side/diskio/diskio.c:394-506 | the first four bytes of a free page are the low bytes of the next free page's number |
| `Cache.RunIsMostRecent` | server-side/diskio/diskio.c:921-1038 | after every run of add and get the list is duplicate-free, within the limit, and exactly the most recently used addresses, newest first, where a get is a use if and only if the list before it has an entry for the address |
| `Cache.RunIsFresh` | server-side/diskio/diskio.c:921-1038 | after every run each entry is the node last added for its address |
| `Cache.CachedExactly` | server-side/diskio/diskio.c:1004-1038 | an address is cached if and only if some entry of the list, wherever it stands, has it |
| `Disk.Db.AddToCache` | server-side/diskio/diskio.c:935-1002 | removes an older entry for the address, puts the new one first, and drops the last entry when the limit is passed |
| `Disk.Db.GetFromCache` | server-side/diskio/diskio.c:1004-1038 | a hit if and only if an entry anywhere in the list has the address; it moves to the front, the others keep their order; a miss changes nothing |
| `Disk.Db.ReadNode` | server-side/diskio/diskio.c:259-364 | returns the node last written to the page, whether it is cached or parsed, and null past the end of the file |
| `Disk.Db.WriteNode` | server-side/diskio/diskio.c:745-762 | the page and the cache both hold the new node afterwards; all other pages keep theirs |
| `Disk.LinkRoundTrip` | server-side/diskio/diskio.c:394-446 | a free-list link is read back if and only if it is below 2^31 or within 2^31 of 2^64 |
| `DiskRuns.Serve` | server-side/diskio/diskio.c:259-762 | in any interleaving of reads and writes every read gives the node last written to its page, whatever the cache kept or dropped in between |
| `Disk.Db.CreateAddr` | server-side/diskio/diskio.c:394-446 | never returns a live page: the head of the free list, or a new page at the end; live plus free stays all pages |
| `Disk.Db.FreePage` | server-side/diskio/diskio.c:481-506 | puts a live page other than the first at the head of the free list, keeping the list duplicate-free and apart from the live pages |
| `SearchTree.SplitKeepsTree` | server-side/schema/cursor.c:146-240 | cutting a saturated page and hooking its right half in beside it gives a search tree again, for any height and both key orders |
| `SearchTree.MoveKeepsTree` | server-side/schema/cursor.c:274-350 | moving the root's contents to a fresh page, with the old number left as a new root, gives a search tree again |
| `SearchTree.ReachUnique` | server-side/schema/cursor.c:56-91 | a page whose span has the key lies on the one descent for that key |
| `SearchTree.SplitKeepsKeys` | server-side/schema/cursor.c:146-240 | a split loses no key and makes none up |
| `Cascade.CutStep` | server-side/schema/cursor.c:355-415 | with an interior page cut, its stored parent is its real parent and is ready for the separator at the cut child's own position |
| `Cascade.ThroughCut` | server-side/schema/cursor.c:355-415 | what the cascade did from the parent up is what the whole cascade did: spans, cells and links below it are kept |
| `Cascade.RootGrown` | server-side/schema/cursor.c:274-350 | after a root split every old page below keeps its span and cells, and only the left half's children learn their new parent |
| `Cascade.StaleIsNotParented` | server-side/schema/cursor.c:169-179 | whenever an interior page was split, its last child's stored parent is wrong afterwards |
| `Cascade.CutKeepsParents` | server-side/schema/cursor.c:193-240 | whenever the parent had room, all stored parents are right afterwards |
| `PageTree.SplitOff` | server-side/schema/cursor.c:146-191 | the node keeps cells 0 and 1 and links 0 to 2, the new node gets cell 3 and links 3 and 4, and key 2 goes up |
| `PageTree.CreateRoot` | server-side/schema/cursor.c:274-350 | the root page keeps its number and lists the moved half; the half, its sibling and its children get their new parents |
| `TableTree.SplitLeafNode` | server-side/schema/cursor.c:193-240 | cells 2 and 3 move to a fresh page that becomes the right neighbour and itself has none |
| `TableTree.InsertInternal` | server-side/schema/cursor.c:355-415 | with the separator in place the cascade ends in a search tree with the same keys, the other trees' pages untouched, and terminates even when it re-enters the emptied root |
| `TableInsert.FindLeaf` | server-side/schema/cursor.c:56-91 | the cursor ends on the one leaf whose span has the key |
| `TableInsert.Insert` | server-side/schema/cursor.c:417-470 | one leaf gains the row, its halves are in order if it was full, every other leaf keeps its rows, and the stored parents stay right if and only if no interior page was split; a full leaf whose stored parent, right or wrong, has room is cut there and nowhere else |
| `TableRows.InsertAddsRow` | server-side/schema/cursor.c:417-470 | after an insert a row is in the tree if and only if it was before or is the new one |
| `TableRows.NewRowIsInsertable` | server-side/schema/cursor.c:417-470 | any fresh key can be inserted into any well-parented tree with legal fill whose pages have room |
| `TableRows.RowsAreUnique` | server-side/schema/db_ops.c:336-383 | a search tree has at most one row per key |
| `TableRows.GetRow` | server-side/schema/db_ops.c:336-383 | finds the bytes stored under the key if there are any, with the cursor on their cell, and nothing otherwise |
| `TableChain.CompleteExactly` | server-side/schema/cursor.c:193-240 | after any insert into a tree with a complete leaf chain the chain is complete if and only if the leaf had room or was the last |
| `TableChain.RowsAfter` | server-side/schema/cursor.c:417-470 | what a scan lists after an insert at any leaf: the rows before that leaf, the leaf with its new row, and, unless the leaf was cut, the rows behind it |
| `TableChain.MeetsAllExactly` | server-side/schema/cursor.c:93-117 | after such an insert a scan meets every row of the tree if and only if the leaf had room or was the last |
| `TableRun.AppendKeeps` | server-side/schema/cursor.c:417-470 | one insert above all keys keeps the right leaf's parent link, the leaf chain and the fill, and adds its row at the end |
| `TableRun.Append` | server-side/schema/cursor.c:417-470 | inserting a key above all others adds exactly that row after the others, whenever the last leaf can take it, and leaves every other tree's pages alone |
| `TableRun.AppendAll` | server-side/schema/cursor.c:417-470 | any run of strictly increasing keys, from an empty root or any table that such runs made, leaves a search tree with exactly the old rows and then the new ones |
| `TableRun.SnugTakes` | server-side/diskio/diskio.c:607-683 | if any three rows in a row fit a page, the last leaf can take the next row |
| `TableChain.LeafIsLinked` | server-side/schema/cursor.c:193-240 | a complete right-link chain misses no leaf of its tree |
| `TableChain.RowsAreTheRows` | server-side/schema/cursor.c:93-117 | the rows along the leaf chain are exactly the rows that lookups find |
| `TableScan.CreateAtStart` | server-side/schema/cursor.c:6-33 | the cursor is on the first leaf of the chain |
| `TableScan.CursorNext` | server-side/schema/cursor.c:93-117 | moves to the next row, across leaves, and says -1 exactly after the last one |
| `TableScan.ScanAll` | server-side/schema/cursor.c:93-117 | a scan returns every row of the chain once, in chain order, and then ends; a table without rows gives nothing |
| `TableAnyOrder.RunAdds` | server-side/schema/cursor.c:417-470 | in a run of inserts in any key order the rows are the old ones and those inserted |
| `TableAnyOrder.RunParents` | server-side/schema/cursor.c:146-240 | through a run the stored parents stay right if and only if no insert overflows a full leaf into a full page |
| `TableAnyOrder.FoundExactly` | server-side/schema/cursor.c:193-240 | after a full leaf was cut at the page it names as its parent, right or wrong, a row is found if and only if it moved to the new leaf exactly when its search is diverted there |
| `TableAnyOrder.RightParentFindsAll` | server-side/schema/cursor.c:193-240 | cut at the page that really lists it, a leaf loses no row |
| `TableAnyOrder.LeftSiblingLosesHalf` | server-side/schema/cursor.c:146-240 | cut at a page whose span ends before it, a leaf loses exactly the rows of its right half |
| `TableAnyOrder.PutAtParent` | server-side/schema/cursor.c:417-470 | one insert into a full leaf at whatever parent it names, and for every row whether a search finds it afterwards |
| `TableWitness.ScanLosesRows` | server-side/schema/cursor.c:193-240 | seven rows inserted into an empty file are all in the tree, and a scan of it ends after four |
| `TableWitness.ParentsGoStale` | server-side/schema/cursor.c:146-191 | ten ascending rows inserted into an empty file leave a stored parent that is not the page that lists its child |
| `TableWitness.StaleCutLosesRow` | server-side/schema/cursor.c:193-240 | in a tree with such stored parents one cut at a wrong parent leaves a row that no search finds |
| `TableChange.RowsClimb` | server-side/schema/cursor.c:93-117 | the rows of a scan are in strictly ascending key order |
| `Records.ExtractCompress` | server-side/schema/record.c:399-481 | record n of a compressed row is the nth record, for every list of valid records, and there is none beyond the last |
| `Records.BehindRecord` | server-side/schema/record.c:3-31 | with the widths 0, 1, 2, 4, 8, 4, 0, 0 for kinds 0 to 7 and k - 8 for kinds from 8 on: record 0 is the first record, and record n + 1 is record n of what follows it |
| `Records.NoRecord` | server-side/schema/record.c:443-481 | there is no record in a buffer that has ended, or whose first record is cut short |
| `Records.CompressBytes` | server-side/schema/record.c:399-441 | a record's bytes are its kind and then its data |
| `Records.StringLimit` | server-side/schema/record.c:362-397 | a string makes a readable record if and only if it has at most 118 characters |
| `Records.ReplaceIsLocal` | server-side/schema/record.c:483-551 | in any buffer a same-size replacement is seen at n and nowhere else |
| `Records.CompressRecords` | server-side/schema/record.c:399-441 | the buffer is the records' bytes one after the other |
| `Records.ExtractRecord` | server-side/schema/record.c:443-481 | walks to the nth record's offset and returns that record |
| `Records.ReplaceRecord` | server-side/schema/record.c:483-551 | replaces the nth record in place when the sizes agree |
| `Records.CompareOrder` | server-side/schema/record.c:553-597 | within strings, or integers of one kind, compare_r is a total preorder |
| `Records.CompareR` | server-side/schema/record.c:553-597 | 0 for strings if and only if they agree up to the first NUL, otherwise the sign of the difference at the first place that decides; for integers the sign of the difference of their values; 2 if and only if the kinds cannot be compared |
| `Records.DecidesOnce` | server-side/schema/record.c:553-597 | for any two NUL-terminated strings there is exactly one deciding place or they agree up to the first NUL |
| `Records.SignedBytes` | server-side/schema/record.c:553-597 | the value of an integer of 1, 2, 4 or 8 bytes is its two's complement, written out byte by byte |
| `Records.LongRoundTrip` | server-side/schema/record.c:110-135 | a long below 2^63 is read back as itself |
| `Records.GetLongExactly` | server-side/schema/record.c:110-135 | which records give an integer, and which integer, by their bytes |
| `TableChange.SetKeepsTable` | server-side/schema/db_ops.c:417-447 | giving a row another value of the same length keeps the tree, its chain and all other rows |
| `DbOps.GetNRecord` | server-side/schema/db_ops.c:388-412 | record n of the row under the key, or none when there is no such row |
| `DbOps.SetNRecord` | server-side/schema/db_ops.c:417-447 | the table keeps all rows, the addressed row with just record n replaced; -1 and no change when there is no such row |
| `DbOps.GetTableAddr` | server-side/schema/db_ops.c:452-473 | the root page that TABLES lists for the id, all ones when it lists none |
| `DbOps.WordExactly` | server-side/schema/db_ops.c:452-473 | the 64-bit word read from any record: eight bytes little-endian for a long, 0, 1 or all ones for the other kinds |
| `DbOps.GetNextId` | server-side/schema/db_ops.c:509-536 | the id that TABLES lists, with its counter record one higher afterwards and nothing else changed |
| `DbOps.InsertRow` | server-side/schema/db_ops.c:538-567 | spends the listed table's next id on the row: that table gains it, TABLES changes in that counter only, every other table and every page outside the catalogue is untouched, and an unlisted id changes nothing |
| `Catalogue.InsertedFacts` | server-side/schema/db_ops.c:538-567 | one insert hands out the next id, adds just its row, and moves only that table's counter |
| `Catalogue.RunAdds` | server-side/schema/db_ops.c:538-567 | over any run of inserts a table's ids are consecutive from its counter, and it holds its old rows and then exactly the rows it was given |
| `Catalogue.RunIsRead` | server-side/schema/db_ops.c:336-383 | after any run a lookup finds exactly the bytes given under each new id, the old row below the old counter, and nothing else |
| `Catalogue.RunKeepsTables` | server-side/schema/db_ops.c:509-536 | over any run a TABLES row keeps its length and every record but its counter, and changes not at all when its table got nothing |
| `Catalogue.TablesRunIsRead` | server-side/schema/db_ops.c:538-567 | after any run a lookup in TABLES finds each row it was given byte for byte under its id |
| `DbRuns.InitTables` | server-side/schema/db_ops.c:6-57 | a new file has one row in TABLES, given byte by byte: the name TABLES, root page 0, next id 1 |
| `DbRuns.AddTable` | server-side/schema/db_ops.c:733-817 | listing a table adds one empty table and disturbs no other, and the row found under its id has the name with its end, the root page and a zero counter, and no fourth record |
| `DbRuns.TableRowReads` | server-side/schema/db_ops.c:733-817 | the three records that are read back from a TABLES row, with their kinds, and none after them |
| `DbRuns.FirstRowBytes` | server-side/schema/db_ops.c:25-33 | the 26 bytes of the first row |
| `DbRuns.InsertRows` | server-side/schema/db_ops.c:538-567 | any run of inserts into listed tables leaves on the pages exactly what the books say, and returns each call's id |
| `DbRuns.RunIsFound` | server-side/schema/db_ops.c:336-383 | after any run get_row on a user table finds a row if and only if it was given under that id or was there before |
| `DbRuns.TablesAreFound` | server-side/schema/db_ops.c:509-536 | after any run each old TABLES row is found on its pages with every record but the counter unchanged |
| `DbRuns.NewTablesAreFound` | server-side/schema/db_ops.c:538-567 | after any run each row given to TABLES is found on its pages, byte for byte, under its id |
| `IndexTree.FindOffset` | server-side/schema/cursor_bt.c:373-405 | the first cell whose record is not below the key's record |
| `IndexTree.SamePlace` | server-side/schema/cursor_bt.c:410-433 | for distinct records that offset is the split child's own position |
| `IndexTree.InsertInternal` | server-side/schema/cursor_bt.c:410-467 | the cascade of an index split ends in an ordered index tree with the same row ids, at every level |
| `IndexInsert.FindLeaf` | server-side/schema/cursor_bt.c:79-135 | the cursor ends on the leaf where the row id belongs |
| `IndexInsert.Insert` | server-side/schema/cursor_bt.c:472-527 | the index stays in order and holds exactly one more row id, the table's pages are untouched, and the stored parents stay right if and only if no interior page was split |
| `IndexResults.WellParentedIsInsertable` | server-side/schema/cursor_bt.c:472-527 | any row whose record equals none in a well-parented index, in an order that ranks it, can be inserted |
| `IndexResults.InsertedInOrder` | server-side/schema/cursor_bt.c:472-527 | the in-order sequence after an insert is the old one with the new row id at its place |
| `IndexResults.InOrderCompares` | server-side/schema/cursor_bt.c:472-527 | the in-order sequence is strictly ascending under compare_r |
| `IndexResults.RanksExist` | server-side/schema/record.c:553-597 | records of one class can be ranked so that ranks agree with compare_r |
| `IndexRerank.RerankKeepsTree` | server-side/schema/cursor_bt.c:410-433 | if another ranking puts the keys in the same sequence, the same pages are a search tree in it with the same heights and parents, and with any root span that holds the keys |
| `IndexRerank.RerankKeepsOrder` | server-side/schema/cursor_bt.c:137-194 | and its in-order sequence is the same |
| `IndexRuns.NextRanks` | server-side/schema/cursor_bt.c:472-527 | whatever rows the table has gained, there are ranks in which the index is in order and every row has a place |
| `IndexRuns.InsertNext` | server-side/schema/cursor_bt.c:472-527 | the next row of a table that has grown goes behind all rows with smaller records, and the index is ready for another if and only if no interior page was split |
| `IndexRuns.RunSorts` | server-side/schema/cursor_bt.c:472-527 | after any run of inserts, between which the table may grow, the index lists its keys in the order that insertion sort by their records gives |
| `IndexOrder.InOrderLists` | server-side/schema/cursor_bt.c:137-194 | read in order, an index lists exactly the keys of the tree in the page's span |
| `IndexScan.FindBt` | server-side/schema/cursor_bt.c:6-77 | lands on the first match in order below the page, or says that none exists, duplicates included |
| `IndexScan.CursorNext` | server-side/schema/cursor_bt.c:137-194 | moves to the in-order successor, down through children or up through stored parents, and says 1 exactly at the end |
| `IndexScan.FindAll` | server-side/schema/cursor_bt.c:196-237 | when something matches, returns all keys whose record equals the probe and no others, by rank |
| `IndexResults.AllMatchesInOrder` | server-side/schema/cursor_bt.c:196-237 | what find_all returns is the in-order sequence filtered by the comparison |
| `NodeTree.CutKeepsTree` | table_tree/nodes.c:158-258 | cutting a full child, placeholder included, gives a search tree again at any height |
| `NodeLookup.CutLookup` | table_tree/nodes.c:158-258 | a split changes no lookup of any key |
| `NodeLookup.RootSplitKeeps` | table_tree/nodes.c:262-280 | a root split under a virtual parent gives a search tree again, with the root's node kept as the root |
| `NodeLookup.ManyKeys` | table_tree/nodes.c:158-258 | below a node whose descendants are filled there are at least as many distinct keys as a binary tree of its height has |
| `NodeDescent.SplitChild` | table_tree/nodes.c:158-258 | the child's second key goes up, its cells and children go to two fresh nodes, and the returned half is the one for the key |
| `NodeDescent.Search` | table_tree/nodes.c:102-153 | the lookup of the key in the tree, from any node whose span has it |
| `NodeOps.Insert` | table_tree/nodes.c:262-366 | for any key: the finite map gains it exactly when insert and search go the same way, stays as it is otherwise, and the call fails exactly at a child pointer that was never set |
| `NodeRoute.WaysPart` | table_tree/nodes.c:293-306 | insert and search take the same child of a node if and only if the key is none of its separators |
| `NodeRoute.DirectExactly` | table_tree/nodes.c:293-321 | the insert of a key that is not stored takes the way of a search if and only if no interior node on that way has the key as a separator |
| `NodeRuns.InsertFinds` | table_tree/nodes.c:262-366 | a key that is not stored is found after its insert if and only if no interior node on its search path has it as a separator, counting the key that a full root is about to send up |
| `NodeRuns.Reinserted` | table_tree/nodes.c:262-366 | insert 1 to 5, delete 2, insert 2 again: the call succeeds and a search for 2 finds nothing |
| `NodeRuns.NewIsDirect` | table_tree/nodes.c:262-321 | a key that was never inserted before goes straight to the leaf that search reaches |
| `NodeOps.Delete` | table_tree/nodes.c:370-429 | the finite map loses the key, and an absent key changes nothing |
| `NodeRuns.Run` | table_tree/nodes.c:262-429 | after any run of inserts and deletes that inserts no key twice the tree stores the finite map the run describes |
| `NodeOps.Find` | table_tree/nodes.c:102-153 | yabsearch finds exactly what the finite map has under the key |
| `NodeRuns.Tall` | table_tree/nodes.c:158-321 | after inserts alone all leaves are equally deep and a tree of h levels, h at least 2, has at least 2^h keys |
| `Query.Wrap8` | server-side/parser/parser.c:25-90 | the count of a list is kept in a signed char |
| `QueryText.CountOfItems` | server-side/parser/parser.c:25-90 | a list of pairs is counted as its number of elements modulo 256, past quoted commas and the rest of the statement |
| `QueryText.CountOfColumns` | server-side/parser/parser.c:25-90 | a list of names is counted up to the word after it, whatever follows |
| `QueryCount.CountOfAll` | server-side/parser/parser.c:25-90 | on any text with no place to stop the count is one more than the commas outside quotes, as a signed char |
| `QueryCount.CountUpTo` | server-side/parser/parser.c:25-90 | on any text the first place to stop decides: a word behind a gap without an equal sign ends the list with the commas so far, a second equal sign or a stray character makes the count -1 |
| `Parser.Input.CountCommaList` | server-side/parser/parser.c:25-90 | the loop computes the count that the other members reason about, on any text |
| `Parser.Input.ParseIdent` | server-side/parser/parser.c:167-192 | takes the longest run of letters and digits and the blanks after it; none, or more than 20, is a failure |
| `Parser.Input.ParseValue` | server-side/parser/parser.c:194-236 | takes a quoted string without its quotes, or a series of digits, and the blanks after it |
| `Parser.Input.ParseCommaList` | server-side/parser/parser.c:293-308 | takes as many names as were counted, with a comma between them, and says whether the count was not negative |
| `Parser.Input.ParsePairList` | server-side/parser/parser.c:310-363 | fills both arrays with as many pairs as were counted; commas are skipped but not demanded; says whether the count was not negative |
| `Parser.Input.ParseSelInstr` | server-side/parser/parser.c:365-391 | a selection if and only if the text is a list or a star, from, a table, and then nothing at all or where, a name, an equal sign and a value |
| `Parser.Input.ParseCrtInstr` | server-side/parser/parser.c:393-406 | a creation if and only if the text is a table, with, and a list of names and types |
| `Parser.Input.ParseAddInstr` | server-side/parser/parser.c:408-421 | a new row if and only if the text is a list of names and values, in, and a table |
| `Parser.ParseInstr` | server-side/parser/parser.c:423-450 | the instruction the text denotes: a selection, creation or new row if and only if the text has that verb and that statement's words in order; otherwise unknown, or undefined when a list's count is negative |
| `Parser.ParseUserInput` | server-side/parser/parser.c:452-473 | one instruction for each semicolon of the text and every semicolon an end of string, up to the first undefined instruction if there is one |
| `QueryGrammar.NameListExactly` | server-side/parser/parser.c:293-308 | which texts are lists of names, word by word |
| `QueryGrammar.PairListExactly` | server-side/parser/parser.c:310-363 | which texts are lists of pairs, word by word |
| `QueryGrammar.SelInstrExactly` | server-side/parser/parser.c:423-450 | a text is read as a selection if and only if it is blanks, sel and a space, and the words of that selection; so no text with another verb, no missing from, and no broken condition is read as one |
| `QueryGrammar.CrtInstrExactly` | server-side/parser/parser.c:423-450 | the same for crt |
| `QueryGrammar.AddInstrExactly` | server-side/parser/parser.c:423-450 | the same for add |
| `QueryGrammar.UndefinedExactly` | server-side/parser/parser.c:423-450 | any text makes the parser store through a null pointer if and only if the list at the place its verb says is counted below zero |
| `QueryText.PairsShown` | server-side/parser/parser.c:338-363 | any written list of pairs, with any spacing, is read back as its names and values |
| `QueryRoundTrip.ReadExactlyUpTo127` | server-side/parser/parser.c:423-450 | a statement in the documented syntax is read as what it states if and only if its list has at most 127 elements |
| `QueryRoundTrip.UndefinedExactly` | server-side/parser/parser.c:293-363 | a statement makes the parser store through a null pointer if and only if its list has 128 to 255 elements modulo 256 |
| `QueryRoundTrip.StrayCharacter` | server-side/parser/parser.c:25-90 | on any text a character without a use outside quotes makes the count negative, and so an add undefined instead of an error |
| `QueryRoundTrip.AcceptedIsProper` | server-side/parser/parser.c:423-450 | whatever the text, what is read has names of 1 to 20 letters and digits, and lists of equal lengths from 1 to 127 |
| `QueryRoundTrip.AcceptedIsReadBack` | server-side/parser/parser.c:423-450 | the instruction read from any text can be written down in the documented syntax and is read back as itself |
| `QueryRoundTrip.InputIsRead` | server-side/parser/parser.c:452-473 | a whole input is read as its statements if and only if no list is longer than 127, whatever unfinished text comes last, and has one instruction for each if and only if no count but perhaps the last is negative |
| `QueryRoundTrip.InputIsSplit` | server-side/parser/parser.c:452-473 | in any input the texts between the semicolons are read one by one, up to the first undefined one, and what follows the last semicolon is not read |

## Left out

- Overflow pages, and rows too long for their page: the spilling writer and the reader disagree about the page header, so rows are required to fit.
- The header page's own bytes: `nb_pages`, the free-list counters and `save_header` are fields, not bytes of page 0; page 0 is only shortened by the header's size.
- stdio, `malloc` failure branches, sockets, threads, console loops and client code.
- `get_table_id`, `advanced_insert_row`, `create_table` with columns, `get_column_offsets`, `select_*`: they combine the table and index operations modelled here.
- `Records.ReplaceRecord`: does not model a replacement of another size, because the C code moves bytes past the end of the buffer there and no caller needs it.
- `Records.CompareR`: does not model floats or NULL-typed records, because NaN and NULL have no place in an order.
- A cascade that starts at a stored parent which is wrong and full as well: it would cut a page that does not list the leaf. `TableInsert.Insert` covers every leaf with room, a full leaf whose stored parent is right or the root at the right edge, and a full leaf whose stored parent, right or wrong, has room.
- `TableAnyOrder.FoundExactly`: says what the first cut at a wrong parent does to every row; the graph after it is no search tree any more, and inserts into that are not modelled.
- `IndexRuns.RunSorts`: is stated for runs that keep the index well-parented; like a table, an index whose interior page was cut has wrong stored parents (`IndexInsert.Insert`).
- `TableChain.CompleteExactly`: starts from a complete chain; inserts into a tree whose chain is already broken keep a search tree, but their scans are not described.
- `IndexScan.FindAll`: is stated for probes with a match, because the C code dereferences a null cursor without one.
- In-memory trees: printing, `yabgetall` and the server glue around them (`table_tree/instructions_to_tree.c`, `index_tree/indexTree.c`).
- `NodeOps.Insert`: returns none where the C code follows a child pointer that was never set; what the program does then is not modelled.
- `DbOps.GetNextId`: does not model a counter record of kind NULL or of the two one-value kinds, because the C code then writes an eight-byte long over a record of no bytes.
- `IndexInsert.Insert`: does not model a record equal to one already in the index, because the order of equal keys then depends on which halves they fell into.
- `Parser.Input.CountCommaList`: does not model the messages on stderr.
- `Parser.ParseUserInput`: says nothing about the buffer or the instructions after the first undefined one, because the C program has written through a null pointer by then.
- `parse_datatype` (no caller), the parser's dump functions and frees.
