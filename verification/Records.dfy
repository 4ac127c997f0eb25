/** Records of a row: their byte layout, reading and replacing the nth one, and comparing two. */
module Records {
  import opened Options
  import opened Nodes
  import opened Codec

  const LAST_RECORD_TYPE: nat := 7
  const RECORD_TYPE_CHAR: nat := 1
  const RECORD_TYPE_SHORT: nat := 2
  const RECORD_TYPE_INT: nat := 3
  const RECORD_TYPE_LONG: nat := 4

  /** The type is stored in an unsigned char. */
  datatype Record = Record(kind: Byte, data: seq<Byte>)

  /** `record_type_size` takes a signed char: types from 128 up have no size. */
  function TypeSize(kind: Byte): int {
    if kind == 0 then 0
    else if kind == RECORD_TYPE_CHAR then 1
    else if kind == RECORD_TYPE_SHORT then 2
    else if kind == RECORD_TYPE_INT then 4
    else if kind == RECORD_TYPE_LONG then 8
    else if kind == 5 then 4
    else if kind <= LAST_RECORD_TYPE then 0
    else if kind >= 128 then -1
    else kind - LAST_RECORD_TYPE - 1
  }

  predicate ValidRecord(r: Record) {
    TypeSize(r.kind) == |r.data|
  }

  function FromString(s: seq<Byte>): Record {
    Record((LAST_RECORD_TYPE + |s| + 2) % 256, s + [0])
  }

  function FromLong(n: nat): Record {
    Record(RECORD_TYPE_LONG, LE(n, 8))
  }

  /** 118 characters are the most a string record can hold. */
  lemma StringLimit(s: seq<Byte>)
    ensures ValidRecord(FromString(s)) <==> |s| <= 118
  {}

  // ---------------------------------------------------------------- layout

  function RecordImage(r: Record): seq<Byte> {
    [r.kind] + r.data
  }

  function Compress(rs: seq<Record>): seq<Byte> {
    if rs == [] then [] else RecordImage(rs[0]) + Compress(rs[1..])
  }

  /** The buffer starts with a whole record. */
  predicate HasHead(buffer: seq<Byte>) {
    buffer != [] && 0 <= TypeSize(buffer[0]) < |buffer|
  }

  function Extract(buffer: seq<Byte>, n: nat): Option<Record> {
    if !HasHead(buffer) then None
    else var size := TypeSize(buffer[0]);
      if n == 0 then Some(Record(buffer[0], buffer[1..1 + size]))
      else Extract(buffer[1 + size..], n - 1)
  }

  /** The same buffer with the nth record replaced by one of the same size. */
  function Replace(buffer: seq<Byte>, n: nat, r: Record): seq<Byte>
    requires Extract(buffer, n).Some?
  {
    var size := TypeSize(buffer[0]);
    if n == 0 then RecordImage(r) + buffer[1 + size..]
    else buffer[..1 + size] + Replace(buffer[1 + size..], n - 1, r)
  }

  ghost predicate AllValid(rs: seq<Record>) {
    forall i :: 0 <= i < |rs| ==> ValidRecord(rs[i])
  }

  lemma HeadOf(rs: seq<Record>)
    requires rs != [] && ValidRecord(rs[0])
    ensures var b := Compress(rs);
      && HasHead(b) && b[0] == rs[0].kind && b[1..1 + TypeSize(b[0])] == rs[0].data
      && b[..1 + TypeSize(b[0])] == RecordImage(rs[0]) && b[1 + TypeSize(b[0])..] == Compress(rs[1..])
  {}

  /** The bytes of data behind each type byte: none for null, then char, short, int, long, float, and the constants 0
      and 1; from 8 up a string of that many less 8. Types from 128 up have no size. */
  predicate HasWidth(kind: Byte, size: nat) {
    if kind < 8 then size == [0, 1, 2, 4, 8, 4, 0, 0][kind] else kind < 128 && size == kind - 8
  }

  lemma WidthExactly(kind: Byte, size: nat)
    ensures HasWidth(kind, size) <==> TypeSize(kind) == size
  {}

  /** A record in front of other bytes: it is record 0, and the others count on from there. */
  lemma BehindRecord(kind: Byte, d: seq<Byte>, rest: seq<Byte>, n: nat)
    requires HasWidth(kind, |d|)
    ensures var b := [kind] + d + rest;
      && Extract(b, 0) == Some(Record(kind, d)) && Extract(b, n + 1) == Extract(rest, n)
  {
    WidthExactly(kind, |d|);
    var b := [kind] + d + rest;
    assert b[0] == kind && b[1..1 + |d|] == d && b[1 + |d|..] == rest;
    hide TypeSize;
  }

  /** And where no whole record is in front there is none at all. */
  lemma NoRecord(buffer: seq<Byte>, n: nat)
    requires buffer == [] || forall size: nat | HasWidth(buffer[0], size) :: |buffer| <= size
    ensures Extract(buffer, n) == None
  {
    if buffer != [] && TypeSize(buffer[0]) >= 0 { WidthExactly(buffer[0], TypeSize(buffer[0])); }
  }

  /** Reading back what was written: every record of every row, and no more than those. */
  lemma {:induction false} ExtractCompress(rs: seq<Record>, n: nat)
    requires AllValid(rs)
    ensures Extract(Compress(rs), n) == if n < |rs| then Some(rs[n]) else None
  {
    if rs != [] {
      HeadOf(rs);
      if n > 0 { ExtractCompress(rs[1..], n - 1); }
    }
  }

  /** The bytes of a row are its records' types and data, one after the other. */
  lemma CompressBytes(r: Record, rs: seq<Record>)
    ensures Compress([]) == [] && Compress([r] + rs) == [r.kind] + r.data + Compress(rs)
  {
    assert ([r] + rs)[1..] == rs;
  }

  /** A replacement of the same size changes its record and no other. */
  lemma {:induction false} ReplaceCompress(rs: seq<Record>, n: nat, r: Record)
    requires AllValid(rs) && n < |rs| && ValidRecord(r) && |r.data| == |rs[n].data|
    ensures Extract(Compress(rs), n).Some? && Replace(Compress(rs), n, r) == Compress(rs[n := r])
    ensures |Compress(rs[n := r])| == |Compress(rs)|
  {
    ExtractCompress(rs, n);
    HeadOf(rs);
    if n == 0 {
      assert rs[0 := r][1..] == rs[1..];
    } else {
      ReplaceCompress(rs[1..], n - 1, r);
      assert rs[n := r][1..] == rs[1..][n - 1 := r];
    }
  }

  // ---------------------------------------------------------------- the loops

  lemma {:induction false} CompressSnoc(rs: seq<Record>, r: Record)
    ensures Compress(rs + [r]) == Compress(rs) + RecordImage(r)
  {
    hide RecordImage;
    if rs == [] {
      CompressFirst(r, []);
      assert rs + [r] == [r] + [];
      assert Compress(rs) + RecordImage(r) == RecordImage(r) + Compress([]);
    } else {
      CompressSnoc(rs[1..], r);
      CompressFirst(rs[0], rs[1..]);
      CompressFirst(rs[0], rs[1..] + [r]);
      hide *;
      assert rs + [r] == [rs[0]] + (rs[1..] + [r]) && rs == [rs[0]] + rs[1..];
      assert RecordImage(rs[0]) + (Compress(rs[1..]) + RecordImage(r))
        == RecordImage(rs[0]) + Compress(rs[1..]) + RecordImage(r);
    }
  }

  lemma CompressFirst(r: Record, rs: seq<Record>)
    ensures Compress([r] + rs) == RecordImage(r) + Compress(rs)
  {
    assert ([r] + rs)[1..] == rs;
  }

  method CompressRecords(records: seq<Record>) returns (buffer: seq<Byte>)
    requires AllValid(records)
    ensures buffer == Compress(records)
  {
    buffer := [];
    for i := 0 to |records|
      invariant buffer == Compress(records[..i])
    {
      var record := records[i];
      CompressSnoc(records[..i], record);
      assert records[..i + 1] == records[..i] + [record];
      buffer := buffer + [record.kind] + record.data[..TypeSize(record.kind)];
      assert Compress(records[..i]) + [record.kind] + record.data == Compress(records[..i]) + RecordImage(record);
    }
    assert records[..|records|] == records;
  }

  /** The offset of the nth record. */
  function Offset(buffer: seq<Byte>, n: nat): (offs: nat)
    requires Extract(buffer, n).Some?
  {
    if n == 0 then 0 else 1 + TypeSize(buffer[0]) + Offset(buffer[1 + TypeSize(buffer[0])..], n - 1)
  }

  /** What lies at the nth offset. */
  lemma Step(buffer: seq<Byte>, n: nat)
    requires Extract(buffer, n).Some? && n > 0
    ensures HasHead(buffer) && 0 <= TypeSize(buffer[0]) < |buffer|
    ensures var h := 1 + TypeSize(buffer[0]); h <= |buffer| && var rest := buffer[h..];
      Extract(rest, n - 1) == Extract(buffer, n) && Offset(buffer, n) == h + Offset(rest, n - 1)
  {}

  /** The record at an offset. */
  ghost predicate RecordIsAt(buffer: seq<Byte>, offs: nat, r: Record) {
    && offs < |buffer| && 0 <= TypeSize(buffer[offs]) && offs + 1 + TypeSize(buffer[offs]) <= |buffer|
    && r == Record(buffer[offs], buffer[offs + 1..offs + 1 + TypeSize(buffer[offs])])
  }

  lemma RecordFurther(buffer: seq<Byte>, h: nat, o: nat, r: Record)
    requires h <= |buffer| && RecordIsAt(buffer[h..], o, r)
    ensures RecordIsAt(buffer, h + o, r)
  {
    hide TypeSize;
    assert buffer[h + o] == buffer[h..][o];
    SliceSlice(buffer, h, o + 1, TypeSize(buffer[h + o]));
  }

  lemma {:induction false} RecordAtOffset(buffer: seq<Byte>, n: nat)
    requires Extract(buffer, n).Some?
    ensures RecordIsAt(buffer, Offset(buffer, n), Extract(buffer, n).value)
  {
    hide *;
    if n == 0 {
      RecordAtFirst(buffer);
    } else {
      Step(buffer, n);
      var h := 1 + TypeSize(buffer[0]);
      RecordAtOffset(buffer[h..], n - 1);
      RecordFurther(buffer, h, Offset(buffer[h..], n - 1), Extract(buffer, n).value);
    }
  }

  lemma RecordAtFirst(buffer: seq<Byte>)
    requires Extract(buffer, 0).Some?
    ensures RecordIsAt(buffer, Offset(buffer, 0), Extract(buffer, 0).value)
  {
    hide TypeSize;
  }

  /** What lies at the nth offset. */
  lemma AtOffset(buffer: seq<Byte>, n: nat)
    requires Extract(buffer, n).Some?
    ensures var offs := Offset(buffer, n);
      && offs < |buffer| && 0 <= TypeSize(buffer[offs]) && offs + 1 + TypeSize(buffer[offs]) <= |buffer|
      && Extract(buffer, n) == Some(Record(buffer[offs], buffer[offs + 1..offs + 1 + TypeSize(buffer[offs])]))
  {
    RecordAtOffset(buffer, n);
    hide Extract, Offset, TypeSize;
  }

  lemma SliceSlice(buffer: seq<Byte>, h: nat, o: nat, w: nat)
    requires h + o + w <= |buffer|
    ensures buffer[h..][o..o + w] == buffer[h + o..h + o + w]
  {}

  /** The buffer with the record at an offset replaced by one of the same size. */
  ghost predicate ReplacedAt(buffer: seq<Byte>, offs: nat, r: Record, out: seq<Byte>) {
    offs + 1 + |r.data| <= |buffer| && out == buffer[..offs] + RecordImage(r) + buffer[offs + 1 + |r.data|..]
  }

  lemma ReplacedFurther(buffer: seq<Byte>, h: nat, o: nat, r: Record, out: seq<Byte>)
    requires h <= |buffer| && ReplacedAt(buffer[h..], o, r, out)
    ensures ReplacedAt(buffer, h + o, r, buffer[..h] + out)
  {
    Splice(buffer, h, o, RecordImage(r), 1 + |r.data|);
  }

  lemma {:induction false} ReplaceAt(buffer: seq<Byte>, n: nat, r: Record)
    requires Extract(buffer, n).Some? && |r.data| == |Extract(buffer, n).value.data|
    ensures ReplacedAt(buffer, Offset(buffer, n), r, Replace(buffer, n, r))
  {
    if n > 0 {
      Step(buffer, n);
      ReplaceStep(buffer, n, r);
      hide *;
      var h := 1 + TypeSize(buffer[0]);
      var rest := buffer[h..];
      ReplaceAt(rest, n - 1, r);
      ReplacedFurther(buffer, h, Offset(rest, n - 1), r, Replace(rest, n - 1, r));
    } else {
      hide TypeSize;
      assert buffer[..0] == [];
    }
  }

  lemma ReplaceStep(buffer: seq<Byte>, n: nat, r: Record)
    requires Extract(buffer, n).Some? && n > 0
    ensures HasHead(buffer) && 0 <= TypeSize(buffer[0]) < |buffer|
    ensures var h := 1 + TypeSize(buffer[0]);
      && h <= |buffer| && Extract(buffer[h..], n - 1).Some?
      && Replace(buffer, n, r) == buffer[..h] + Replace(buffer[h..], n - 1, r)
  {}

  lemma Splice(buffer: seq<Byte>, h: nat, o: nat, r: seq<Byte>, w: nat)
    requires h + o + w <= |buffer|
    ensures buffer[..h] + (buffer[h..][..o] + r + buffer[h..][o + w..]) == buffer[..h + o] + r + buffer[h + o + w..]
  {
    assert buffer[..h] + buffer[h..][..o] == buffer[..h + o];
    assert buffer[h..][o + w..] == buffer[h + o + w..];
  }

  lemma {:induction false} NextOffset(buffer: seq<Byte>, n: nat, i: nat)
    requires Extract(buffer, n).Some? && i <= n
    ensures Extract(buffer, i).Some? && Offset(buffer, i) < |buffer|
    ensures i < n ==>
      Extract(buffer, i + 1).Some?
        && Offset(buffer, i + 1) == Offset(buffer, i) + 1 + TypeSize(buffer[Offset(buffer, i)])
  {
    if i > 0 {
      NextOffset(buffer[1 + TypeSize(buffer[0])..], n - 1, i - 1);
      AtOffset(buffer, i);
    } else if i < n {
      NextOffset(buffer[1 + TypeSize(buffer[0])..], n - 1, 0);
    }
  }

  method FindRecord(buffer: seq<Byte>, n: nat) returns (offs: nat)
    requires Extract(buffer, n).Some?
    ensures offs == Offset(buffer, n)
  {
    offs := 0;
    for i := 0 to n
      invariant Extract(buffer, i).Some? && offs == Offset(buffer, i)
    {
      NextOffset(buffer, n, i);
      AtOffset(buffer, i);
      offs := offs + TypeSize(buffer[offs]);
      offs := offs + 1;
    }
  }

  method ExtractRecord(buffer: seq<Byte>, n: nat) returns (record: Record)
    requires Extract(buffer, n).Some?
    ensures Some(record) == Extract(buffer, n)
  {
    var offs := FindRecord(buffer, n);
    AtOffset(buffer, n);
    record := Record(buffer[offs], buffer[offs + 1..offs + 1 + TypeSize(buffer[offs])]);
  }

  method ReplaceRecord(buffer: seq<Byte>, n: nat, record: Record) returns (result: seq<Byte>)
    requires Extract(buffer, n).Some? && ValidRecord(record) && |record.data| == |Extract(buffer, n).value.data|
    ensures result == Replace(buffer, n, record) && |result| == |buffer|
  {
    var offs := FindRecord(buffer, n);
    AtOffset(buffer, n);
    ReplaceAt(buffer, n, record);
    result := buffer[..offs] + [record.kind] + record.data + buffer[offs + 1 + |record.data|..];
  }

  /** A buffer that starts with one whole record. */
  lemma UnderHead(r: Record, rest: seq<Byte>, m: nat)
    requires ValidRecord(r)
    ensures Extract(RecordImage(r) + rest, m) == if m == 0 then Some(r) else Extract(rest, m - 1)
  {
    hide TypeSize;
    var b := RecordImage(r) + rest;
    assert b[0] == r.kind && b[1..1 + |r.data|] == r.data && b[1 + |r.data|..] == rest;
  }

  lemma Cut(b: seq<Byte>, h: nat)
    requires 1 <= h <= |b|
    ensures b[..h] == [b[0]] + b[1..h] && b == b[..h] + b[h..]
  {}

  lemma FirstRecord(buffer: seq<Byte>)
    requires HasHead(buffer)
    ensures var h := 1 + TypeSize(buffer[0]);
      && 1 <= h <= |buffer| && Extract(buffer, 0) == Some(Record(buffer[0], buffer[1..h]))
      && |buffer[1..h]| == TypeSize(buffer[0])
  {}

  lemma HeadRecord(buffer: seq<Byte>)
    requires HasHead(buffer)
    ensures var h := 1 + TypeSize(buffer[0]);
      && 1 <= h <= |buffer| && ValidRecord(Record(buffer[0], buffer[1..h]))
      && buffer[..h] == RecordImage(Record(buffer[0], buffer[1..h])) && buffer == buffer[..h] + buffer[h..]
      && Extract(buffer, 0) == Some(Record(buffer[0], buffer[1..h]))
  {
    FirstRecord(buffer);
    hide TypeSize, Extract, HasHead;
    Cut(buffer, 1 + TypeSize(buffer[0]));
  }

  lemma ReplaceHead(buffer: seq<Byte>, r: Record)
    requires Extract(buffer, 0).Some?
    ensures HasHead(buffer) && 1 + TypeSize(buffer[0]) <= |buffer|
    ensures Replace(buffer, 0, r) == RecordImage(r) + buffer[1 + TypeSize(buffer[0])..]
  {}

  lemma ExtractHead(buffer: seq<Byte>, n: nat)
    requires Extract(buffer, n).Some?
    ensures HasHead(buffer) && Extract(buffer, 0).Some?
  {}

  /** In any buffer, a same-size replacement is seen at `n` and nowhere else. */
  lemma {:induction false} ReplaceIsLocal(buffer: seq<Byte>, n: nat, r: Record, m: nat)
    requires Extract(buffer, n).Some? && ValidRecord(r) && |r.data| == |Extract(buffer, n).value.data|
    ensures Extract(Replace(buffer, n, r), m) == if m == n then Some(r) else Extract(buffer, m)
  {
    hide *;
    ExtractHead(buffer, n);
    HeadRecord(buffer);
    if n == 0 {
      ReplaceHead(buffer, r);
    } else {
      ReplaceStep(buffer, n, r);
      Step(buffer, n);
    }
    var h := 1 + TypeSize(buffer[0]);
    var head, rest := Record(buffer[0], buffer[1..h]), buffer[h..];
    UnderHead(head, rest, m);
    if n == 0 {
      UnderHead(r, rest, m);
    } else {
      UnderHead(head, Replace(rest, n - 1, r), m);
      if m > 0 { ReplaceIsLocal(rest, n - 1, r, m - 1); }
    }
  }

  lemma {:induction false} ReplaceKeepsSize(buffer: seq<Byte>, n: nat, r: Record)
    requires Extract(buffer, n).Some? && |r.data| == |Extract(buffer, n).value.data|
    ensures |Replace(buffer, n, r)| == |buffer|
  {
    hide TypeSize;
    if n > 0 { ReplaceKeepsSize(buffer[1 + TypeSize(buffer[0])..], n - 1, r); }
  }

  // ---------------------------------------------------------------- reading a long

  function Signed(data: seq<Byte>): int {
    var u := FromLE(data);
    if 2 * u < Pow256(|data|) then u else u - Pow256(|data|)
  }

  /** `record_get_long`: the integer kinds that have one, by value. */
  function GetLong(r: Record): Option<int>
    requires ValidRecord(r)
  {
    if r.kind == 0 || r.kind == 6 then Some(0)
    else if r.kind == RECORD_TYPE_LONG then Some(Signed(r.data))
    else if r.kind == LAST_RECORD_TYPE then Some(1)
    else None
  }

  lemma LongRoundTrip(n: nat)
    requires n < 0x8000_0000_0000_0000
    ensures ValidRecord(FromLong(n)) && GetLong(FromLong(n)) == Some(n)
  {
    FieldSizes();
    IntRoundTrip(n, 8);
  }

  /** `record_get_long` on each kind: a long by its two's-complement value, null and the constants by theirs, and no
      other. */
  lemma GetLongExactly(r: Record)
    requires ValidRecord(r)
    ensures r.kind == 4 ==>
      |r.data| == 8 && GetLong(r) == Some(Plain8(r.data) - if r.data[7] >= 128 then 0x1_0000_0000_0000_0000 else 0)
    ensures r.kind == 0 || r.kind == 6 ==> GetLong(r) == Some(0)
    ensures r.kind == 7 ==> GetLong(r) == Some(1)
    ensures r.kind !in {0, 4, 6, 7} ==> GetLong(r) == None
  {
    if r.kind == 4 { SignedBytes(r.data); }
  }

  function Plain4(d: seq<Byte>): nat
    requires |d| == 4
  {
    d[0] as int + 0x100 * d[1] as int + 0x1_0000 * d[2] as int + 0x100_0000 * d[3] as int
  }

  function Plain8(d: seq<Byte>): nat
    requires |d| == 8
  {
    Plain4(d[..4]) + 0x1_0000_0000 * Plain4(d[4..])
  }

  /** The two's-complement value of one, two, four and eight bytes, written out. */
  lemma SignedBytes(d: seq<Byte>)
    ensures |d| == 1 ==> Signed(d) == d[0] as int - if d[0] >= 128 then 0x100 else 0
    ensures |d| == 2 ==> Signed(d) == d[0] as int + 0x100 * d[1] as int - if d[1] >= 128 then 0x1_0000 else 0
    ensures |d| == 4 ==> Signed(d) == Plain4(d) - if d[3] >= 128 then 0x1_0000_0000 else 0
    ensures |d| == 8 ==> Signed(d) == Plain8(d) - if d[7] >= 128 then 0x1_0000_0000_0000_0000 else 0
  {
    FieldSizes();
    if |d| == 1 || |d| == 2 {
      ShortPlain(d);
    } else if |d| == 4 {
      FourPlain(d);
      hide FromLE, Pow256;
    } else if |d| == 8 {
      EightPlain(d);
      TopBit(Plain4(d[..4]), Plain4(d[4..]), d);
      hide FromLE, Pow256, Plain4;
    }
  }

  lemma ShortPlain(d: seq<Byte>)
    ensures |d| == 1 ==> FromLE(d) == d[0] && Pow256(1) == 256
    ensures |d| == 2 ==> FromLE(d) == d[0] as int + 0x100 * d[1] as int
  {
    if |d| == 1 { FirstByte(d); }
    if |d| == 2 {
      FirstByte(d);
      FirstByte(d[1..]);
    }
  }

  lemma FirstByte(d: seq<Byte>)
    requires d != []
    ensures FromLE(d) == d[0] + 256 * FromLE(d[1..]) && FromLE([]) == 0 && (|d| == 1 ==> d[1..] == [])
  {}

  lemma FourPlain(d: seq<Byte>)
    requires |d| == 4
    ensures FromLE(d) == Plain4(d)
  {
    FirstByte(d);
    FirstByte(d[1..]);
    FirstByte(d[2..]);
    FirstByte(d[3..]);
    assert d[1..][1..] == d[2..] && d[2..][1..] == d[3..];
    hide FromLE;
  }

  lemma {:induction false} FromLEConcat(a: seq<Byte>, b: seq<Byte>)
    ensures FromLE(a + b) == FromLE(a) + Pow256(|a|) * FromLE(b)
  {
    if a == [] {
      assert a + b == b;
    } else {
      assert (a + b)[1..] == a[1..] + b;
      FromLEConcat(a[1..], b);
      FirstByte(a);
      FirstByte(a + b);
      assert Pow256(|a|) == 256 * Pow256(|a| - 1);
      hide FromLE, Pow256;
      Distribute(FromLE(a[1..]), Pow256(|a| - 1), FromLE(b));
    }
  }

  lemma Distribute(y: nat, p: nat, x: nat)
    ensures 256 * (y + p * x) == 256 * y + 256 * p * x
  {}

  lemma EightPlain(d: seq<Byte>)
    requires |d| == 8
    ensures FromLE(d) == Plain8(d)
  {
    assert d == d[..4] + d[4..];
    FromLEConcat(d[..4], d[4..]);
    FourPlain(d[..4]);
    FourPlain(d[4..]);
    FieldSizes();
    hide FromLE, Pow256, Plain4;
  }

  lemma TopBit(lo: nat, hi: nat, d: seq<Byte>)
    requires |d| == 8 && lo == Plain4(d[..4]) && hi == Plain4(d[4..])
    ensures lo < 0x1_0000_0000 && hi < 0x1_0000_0000 && (hi >= 0x8000_0000 <==> d[7] >= 128)
  {
    assert d[4..][3] == d[7];
  }

  // ---------------------------------------------------------------- comparing

  predicate IsString(r: Record) {
    r.kind > LAST_RECORD_TYPE
  }

  predicate IsInteger(r: Record) {
    RECORD_TYPE_CHAR <= r.kind <= RECORD_TYPE_LONG
  }

  /** What `compare_r` can be asked about: integers, and strings that end with a NUL. */
  predicate Comparable(r: Record) {
    ValidRecord(r) && (IsInteger(r) || (IsString(r) && 0 in r.data))
  }

  lemma ComparableExactly(r: Record)
    ensures Comparable(r) <==> HasWidth(r.kind, |r.data|) && (r.kind in {1, 2, 3, 4} || (r.kind >= 8 && 0 in r.data))
  {
    WidthExactly(r.kind, |r.data|);
  }

  function Sign(x: int, y: int): int {
    if x > y then 1 else if x < y then -1 else 0
  }

  /** The sign of `strcmp` on two NUL-terminated strings. */
  function StrCmp(a: seq<Byte>, b: seq<Byte>): int
    requires 0 in a && 0 in b
    decreases a
  {
    if a[0] != b[0] then Sign(a[0], b[0])
    else if a[0] == 0 then 0
    else StrCmp(a[1..], b[1..])
  }

  /** The sign of `compare_r`; 2 when the kinds differ. */
  function Compare(r1: Record, r2: Record): int
    requires Comparable(r1) && Comparable(r2)
  {
    if r1.kind != r2.kind && !(IsString(r1) && IsString(r2)) then 2
    else if IsString(r1) then StrCmp(r1.data, r2.data)
    else Sign(Signed(r1.data), Signed(r2.data))
  }

  /** The place that decides between two strings: equal up to it, no end before it, and there they differ or both
      end. */
  ghost predicate Decides(a: seq<Byte>, b: seq<Byte>, i: nat) {
    i < |a| && i < |b| && a[..i] == b[..i] && 0 !in a[..i] && (a[i] != b[i] || a[i] == 0)
  }

  lemma EqualBefore(a: seq<Byte>, b: seq<Byte>, j: nat)
    requires Decides(a, b, j)
    ensures j > 0 ==> a[0] == b[0] && a[0] != 0
  {
    if j > 0 { assert a[..j][0] == b[..j][0] && a[..j][0] in a[..j]; }
  }

  /** There is one such place, and only one. */
  lemma {:induction false} DecidesOnce(a: seq<Byte>, b: seq<Byte>) returns (i: nat)
    requires 0 in a && 0 in b
    ensures Decides(a, b, i) && StrCmp(a, b) == Sign(a[i], b[i])
    ensures forall j: nat {:trigger Decides(a, b, j)} :: Decides(a, b, j) ==> j == i
    decreases a
  {
    if a[0] != b[0] || a[0] == 0 {
      i := 0;
      forall j: nat | Decides(a, b, j) ensures j == 0 {
        EqualBefore(a, b, j);
      }
    } else {
      var c, d := a[1..], b[1..];
      assert a == [a[0]] + c && b == [b[0]] + d;
      var k := DecidesOnce(c, d);
      i := k + 1;
      assert a[..i] == [a[0]] + c[..k] && b[..i] == [b[0]] + d[..k];
      forall j: nat | Decides(a, b, j) ensures j == i {
        assert j > 0;
        assert c[..j - 1] == a[..j][1..] && d[..j - 1] == b[..j][1..];
        assert forall x :: x in c[..j - 1] ==> x in a[..j];
        assert Decides(c, d, j - 1);
      }
    }
  }

  /** The sign of the difference at the deciding place. */
  lemma StringsCompared(a: seq<Byte>, b: seq<Byte>, i: nat)
    requires 0 in a && 0 in b && Decides(a, b, i)
    ensures StrCmp(a, b) == if a[i] < b[i] then -1 else if a[i] > b[i] then 1 else 0
  {
    var j := DecidesOnce(a, b);
  }

  lemma StringsDecided(a: seq<Byte>, b: seq<Byte>)
    ensures 0 in a && 0 in b ==>
      && (exists i: nat :: Decides(a, b, i))
      && -1 <= StrCmp(a, b) <= 1
      && forall i: nat {:trigger Decides(a, b, i)} :: Decides(a, b, i) ==>
           StrCmp(a, b) == if a[i] < b[i] then -1 else if a[i] > b[i] then 1 else 0
  {
    if 0 in a && 0 in b { var i := DecidesOnce(a, b); }
  }

  /** 2 for records that cannot be compared; for two strings, zero if and only if they have the same bytes up to the
      first NUL, and otherwise the sign of the difference at the first place where they differ; for two integers of one
      kind, the sign of the difference of their values. */
  method CompareR(r1: Record, r2: Record) returns (cmp: int)
    requires Comparable(r1) && Comparable(r2)
    ensures cmp == Compare(r1, r2)
    ensures cmp == 2 <==> r1.kind != r2.kind && (r1.kind < 8 || r2.kind < 8)
    ensures r1.kind >= 8 && r2.kind >= 8 ==>
      forall i: nat {:trigger Decides(r1.data, r2.data, i)} :: Decides(r1.data, r2.data, i) ==>
        cmp == if r1.data[i] < r2.data[i] then -1 else if r1.data[i] > r2.data[i] then 1 else 0
    ensures r1.kind >= 8 && r2.kind >= 8 ==> exists i: nat :: Decides(r1.data, r2.data, i)
    ensures r1.kind < 8 && r1.kind == r2.kind ==>
      cmp == if Signed(r1.data) < Signed(r2.data) then -1 else if Signed(r1.data) > Signed(r2.data) then 1 else 0
  {
    StringsDecided(r1.data, r2.data);
    hide StrCmp, Decides;
    if r1.kind != r2.kind && !(r1.kind > LAST_RECORD_TYPE && r2.kind > LAST_RECORD_TYPE) {
      return 2;
    }
    if r1.kind <= LAST_RECORD_TYPE {
      var i1, i2 := Signed(r1.data), Signed(r2.data);
      return (if i1 > i2 then 1 else 0) - (if i1 < i2 then 1 else 0);
    }
    cmp := StringCompare(r1.data, r2.data);
  }

  method StringCompare(a: seq<Byte>, b: seq<Byte>) returns (cmp: int)
    requires 0 in a && 0 in b
    ensures cmp == StrCmp(a, b)
  {
    var i := 0;
    while a[i] == b[i] && a[i] != 0
      invariant i < |a| && i < |b| && 0 in a[i..] && 0 in b[i..]
      invariant StrCmp(a[i..], b[i..]) == StrCmp(a, b)
      decreases |a| - i
    {
      assert a[i..] == [a[i]] + a[i + 1..] && b[i..] == [b[i]] + b[i + 1..];
      i := i + 1;
    }
    cmp := (if a[i] > b[i] then 1 else 0) - (if a[i] < b[i] then 1 else 0);
  }

  /** Both are strings, or both are integers of one kind. */
  predicate SameClass(r1: Record, r2: Record) {
    Comparable(r1) && Comparable(r2) && (r1.kind == r2.kind || (IsString(r1) && IsString(r2)))
  }

  lemma {:induction false} StrCmpOrder(a: seq<Byte>, b: seq<Byte>, c: seq<Byte>)
    requires 0 in a && 0 in b && 0 in c
    ensures StrCmp(a, b) == -StrCmp(b, a)
    ensures StrCmp(a, b) <= 0 && StrCmp(b, c) <= 0 ==> StrCmp(a, c) <= 0
    ensures StrCmp(a, b) <= 0 && StrCmp(b, c) <= 0 && (StrCmp(a, b) < 0 || StrCmp(b, c) < 0) ==> StrCmp(a, c) < 0
    decreases a
  {
    if a[0] == b[0] && a[0] != 0 {
      assert a == [a[0]] + a[1..] && b == [b[0]] + b[1..] && c == [c[0]] + c[1..];
      if c[0] == b[0] {
        StrCmpOrder(a[1..], b[1..], c[1..]);
      } else {
        StrCmpOrder(a[1..], b[1..], b[1..]);
      }
    }
  }

  /** Within a class `compare_r` is a total preorder. */
  lemma CompareOrder(a: Record, b: Record, c: Record)
    requires SameClass(a, b) && SameClass(b, c)
    ensures SameClass(a, c) && -1 <= Compare(a, b) <= 1 && Compare(a, b) == -Compare(b, a)
    ensures Compare(a, b) <= 0 && Compare(b, c) <= 0 ==> Compare(a, c) <= 0
    ensures Compare(a, b) <= 0 && Compare(b, c) <= 0 && (Compare(a, b) < 0 || Compare(b, c) < 0) ==> Compare(a, c) < 0
  {
    if IsString(a) {
      StrCmpOrder(a.data, b.data, c.data);
      StrCmpRange(a.data, b.data);
    }
  }

  lemma {:induction false} StrCmpRange(a: seq<Byte>, b: seq<Byte>)
    requires 0 in a && 0 in b
    ensures -1 <= StrCmp(a, b) <= 1
    decreases a
  {
    if a[0] == b[0] && a[0] != 0 {
      assert a == [a[0]] + a[1..] && b == [b[0]] + b[1..];
      StrCmpRange(a[1..], b[1..]);
    }
  }
}
