/** Parsing what was written gives back what was meant, exactly up to 127 list elements; and whatever text is accepted,
    its instruction can be written down again and is read back as itself. */
module QueryRoundTrip {
  import opened Options
  import opened Query
  import opened QueryText

  /** As much as a signed char can count. */
  const LIST_MAX: nat := 127

  // ---------------------------------------------------------------- statements

  lemma NameListShown(columns: seq<Column>, b: string)
    requires columns != [] && AreColumns(columns) && columns[|columns| - 1].name.gap > 0 && |columns| <= LIST_MAX
    requires Solid(b) && b != "" && IsAlphanum(b[0])
    ensures NameList(ShowColumnList(columns) + b) == Parsed(Some(ColumnNames(columns)), b)
  {
    hide *;
    var c, rest := columns[0], columns[1..];
    CountOfColumns(columns, b);
    FirstColumn(columns, b);
    NameStep(columns, b);
    NamesShown(rest, [c.name.text], b);
    NameListIs(ShowColumnList(columns) + b, |columns|, c.name.text, ShowColumns(rest) + b, ColumnNames(columns), b);
  }

  lemma FirstColumn(columns: seq<Column>, b: string)
    requires columns != [] && AreColumns(columns)
    ensures ShowColumnList(columns) + b == ShowWord(columns[0].name) + (ShowColumns(columns[1..]) + b)
    ensures AreColumns(columns[1..]) && [columns[0].name.text] + ColumnNames(columns[1..]) == ColumnNames(columns)
  {}

  lemma NameListIs(s: string, n: nat, name: string, b1: string, all: seq<string>, b: string)
    requires 1 <= n <= LIST_MAX && Count(s) == Wrap8(n) && Ident(s) == Parsed(Some(name), b1)
    requires Names(b1, n - 1, [name]) == Parsed(Some(all), b)
    ensures NameList(s) == Parsed(Some(all), b)
  {
    hide Count, Ident, Names;
  }

  lemma PairListShown(items: seq<Item>, literal: bool, b: string)
    requires items != [] && AreItems(items, literal) && |items| <= LIST_MAX && AfterItems(items, literal, b)
    requires forall i {:trigger b[i]} :: 0 <= i < |b| ==> IsAlphanum(b[i]) || b[i] == ' '
    ensures PairList(ShowItemList(items) + b, literal) == Parsed(Some(Columns(ItemNames(items), ItemValues(items))), b)
  {
    hide *;
    var none := Columns([], []);
    var s, b1, g := ShowItemList(items) + b, ShowItems(items[1..]) + b,
      Grown(none, items[0].name.text, items[0].value.text);
    CountOfItems(items, literal, b);
    FirstPair(items, literal, b);
    OtherPairs(items, literal, b, g);
    ReadNext(none, items);
    ReadAll(items);
    PairListIs(s, |items|, literal, g, b1, Read(g, items[1..]), b);
  }

  lemma FirstPair(items: seq<Item>, literal: bool, b: string)
    requires items != [] && AreItems(items, literal) && AfterItems(items, literal, b)
    ensures Pair(ShowItemList(items) + b, literal, Columns([], [])) ==
      Parsed(Some(Grown(Columns([], []), items[0].name.text, items[0].value.text)), ShowItems(items[1..]) + b)
  {
    var i, b1 := items[0], ShowItems(items[1..]) + b;
    assert items[1..] == [] ==> b1 == b;
    assert items[1..] != [] ==> b1[0] == ',';
    assert ShowItemList(items) + b == ShowItem(i) + b1;
    hide Pair, ShowItem, IsItem;
    PairShown(i, literal, Columns([], []), b1);
  }

  lemma OtherPairs(items: seq<Item>, literal: bool, b: string, got: Columns)
    requires items != [] && AreItems(items, literal) && AfterItems(items, literal, b)
    ensures Pairs(ShowItems(items[1..]) + b, |items| - 1, literal, got) == Parsed(Some(Read(got, items[1..])), b)
  {
    hide Pairs, ShowItems, IsItem, Read;
    PairsShown(items[1..], literal, got, b);
  }

  lemma ReadAll(items: seq<Item>)
    ensures Read(Columns([], []), items) == Columns(ItemNames(items), ItemValues(items))
  {}

  lemma PairListIs(s: string, n: nat, literal: bool, g: Columns, b1: string, all: Columns, b: string)
    requires 1 <= n <= LIST_MAX && Count(s) == Wrap8(n) && Pair(s, literal, Columns([], [])) == Parsed(Some(g), b1)
    requires Pairs(b1, n - 1, literal, g) == Parsed(Some(all), b)
    ensures PairList(s, literal) == Parsed(Some(all), b)
  {
    hide Count, Pair, Pairs;
  }

  lemma ConditionShown(c: Where)
    requires IsName(c.col.text) && IsLiteral(c.val)
    ensures ConditionOf(ShowWord(c.col) + ("=" + (Spaces(c.equal) + ShowLiteral(c.val))))
      == Parsed(Some(Condition(c.col.text, c.val.text)), "")
  {
    var v := ShowLiteral(c.val);
    IdentShown(c.col, "=" + (Spaces(c.equal) + v));
    assert v[0] == if c.val.quoted then QUOTE else c.val.text[0];
    ExactlyShown("=", c.equal, v);
    assert v + "" == v;
    ValueShown(c.val, "");
  }

  lemma SelShown(s: Stmt)
    requires s.SelStmt? && IsStmt(s) && Size(s) <= LIST_MAX
    ensures SelOf(ShowBody(s)) == Meaning(s)
  {
    hide *;
    BodyOf(s);
    var w := ShowWhere(s.cond);
    var t := ShowWord(s.table) + w;
    var f := "from" + (Spaces(s.fromGap) + t);
    TableShown(s);
    SelectedShown(s, f);
    WhereShown(s);
    SelIs(s, ShowBody(s), f, t, w);
  }

  lemma BodyOf(s: Stmt)
    requires s.SelStmt?
    ensures ShowBody(s) == ShowSelected(s) + ("from" + (Spaces(s.fromGap) + (ShowWord(s.table) + ShowWhere(s.cond))))
  {}

  lemma SelectedShown(s: Stmt, f: string)
    requires s.SelStmt? && IsStmt(s) && Size(s) <= LIST_MAX && Solid(f) && f != "" && IsAlphanum(f[0])
    ensures SelColumns(ShowSelected(s) + f) == Parsed(Some(ColumnNames(s.columns)), f)
  {
    if s.columns == [] {
      assert ShowSelected(s) + f == "*" + (Spaces(s.star) + f);
      assert ("*" + (Spaces(s.star) + f))[1..] == Spaces(s.star) + f;
      SkipsSpaces(s.star, f);
      assert ColumnNames(s.columns) == [];
    } else {
      NameListShown(s.columns, f);
      assert (ShowColumnList(s.columns) + f)[0] == s.columns[0].name.text[0];
    }
  }

  lemma TableShown(s: Stmt)
    requires s.SelStmt? && IsStmt(s)
    ensures var t := ShowWord(s.table) + ShowWhere(s.cond);
      && (var f := "from" + (Spaces(s.fromGap) + t);
           Exactly(f, "from") == Parsed(Some("from"), t) && Solid(f) && f != "" && IsAlphanum(f[0]))
      && Ident(t) == Parsed(Some(s.table.text), ShowWhere(s.cond))
  {
    var t := ShowWord(s.table) + ShowWhere(s.cond);
    assert t[0] == s.table.text[0];
    ExactlyShown("from", s.fromGap, t);
    IdentShown(s.table, ShowWhere(s.cond));
  }

  predicate IsCondition(c: Option<Where>, w: string) {
    if c.None? then w == ""
    else
      && w != "" && Exactly(w, "where").value.Some?
      && ConditionOf(Exactly(w, "where").rest) == Parsed(Some(Condition(c.value.col.text, c.value.val.text)), "")
  }

  lemma WhereShown(s: Stmt)
    requires s.SelStmt? && IsStmt(s)
    ensures var w := ShowWhere(s.cond);
      IsCondition(s.cond, w)
  {
    if s.cond.Some? {
      var c := s.cond.value;
      var r := ShowWord(c.col) + ("=" + (Spaces(c.equal) + ShowLiteral(c.val)));
      assert r[0] == c.col.text[0];
      ExactlyShown("where", c.gap, r);
      ConditionShown(c);
    }
  }

  lemma SelIs(s: Stmt, body: string, f: string, t: string, w: string)
    requires s.SelStmt? && SelColumns(body) == Parsed(Some(ColumnNames(s.columns)), f)
      && Exactly(f, "from") == Parsed(Some("from"), t)
    requires Ident(t) == Parsed(Some(s.table.text), w)
    requires IsCondition(s.cond, w)
    ensures SelOf(body) == Meaning(s)
  {
    ColumnsCounted(body);
    hide SelColumns, Exactly, Ident, ConditionOf, Count;
  }

  lemma ColumnsCounted(s: string)
    ensures SelColumns(s).value.Some? ==> "*" <= s || Count(s) > 0
  {
    hide Count, Ident, Names;
  }

  lemma CrtShown(s: Stmt)
    requires s.CrtStmt? && IsStmt(s) && Size(s) <= LIST_MAX
    ensures CrtOf(ShowBody(s)) == Meaning(s)
  {
    var l := ShowItemList(s.items);
    IdentShown(s.table, "with" + (Spaces(s.withGap) + l));
    assert l[0] == s.items[0].name.text[0];
    ExactlyShown("with", s.withGap, l);
    assert l + "" == l;
    PairListShown(s.items, false, "");
  }

  lemma AddShown(s: Stmt)
    requires s.AddStmt? && IsStmt(s) && Size(s) <= LIST_MAX
    ensures AddOf(ShowBody(s)) == Meaning(s)
  {
    var t := ShowWord(s.table);
    var b := "in" + (Spaces(s.inGap) + t);
    assert forall i {:trigger b[i]} :: 0 <= i < |b| ==> IsAlphanum(b[i]) || b[i] == ' ';
    PairListShown(s.items, true, b);
    assert t[0] == s.table.text[0];
    ExactlyShown("in", s.inGap, t);
    assert t + "" == t;
    IdentShown(s.table, "");
  }

  lemma VerbShown(i: nat, gap: nat, b: string)
    requires i in {0, 3, 4} && Solid(b)
    ensures VerbFrom(VERBS[i] + " " + (Spaces(gap) + b), 0) == Parsed(Some(i), b)
  {
    var s := VERBS[i] + " " + (Spaces(gap) + b);
    assert s[3..] == Spaces(gap + 1) + b;
    SkipsSpaces(gap + 1, b);
    assert s[0] == VERBS[i][0];
    if i == 0 {
      assert "sel" <= s;
    } else {
      assert s[0] != 's' && s[0] != 'd' && s[0] != 'u';
      if i == 4 { assert s[0] != 'a'; }
    }
  }

  lemma BodyStarts(s: Stmt)
    requires IsStmt(s)
    ensures ShowBody(s) != "" && Solid(ShowBody(s))
  {
    match s
    case SelStmt(_, columns, _, _, _, _) => if columns != [] { assert ShowBody(s)[0] == columns[0].name.text[0]; }
    case CrtStmt(_, table, _, _) => assert ShowBody(s)[0] == table.text[0];
    case AddStmt(_, items, _, _) => assert ShowBody(s)[0] == items[0].name.text[0];
  }

  /** A statement in the documented syntax is read as what it states, if no list in it has more than 127 elements. */
  lemma StmtShown(lead: string, s: Stmt)
    requires All(IsBlank, lead) && IsStmt(s) && Size(s) <= LIST_MAX
    ensures InstrOf(lead + ShowStmt(s)) == Meaning(s)
  {
    hide *;
    StmtStarts(s);
    SkipsBlanks(lead, ShowStmt(s));
    BodyStarts(s);
    VerbShown(Verb(s), s.gap, ShowBody(s));
    BodyShown(s);
    InstrIs(lead, s);
  }

  lemma StmtStarts(s: Stmt)
    requires IsStmt(s)
    ensures (s.SelStmt? || s.items != []) && Solid(ShowStmt(s))
      && ShowStmt(s) == VERBS[Verb(s)] + " " + (Spaces(s.gap) + ShowBody(s))
  {
    assert ShowStmt(s)[0] == VERBS[Verb(s)][0];
  }

  lemma BodyShown(s: Stmt)
    requires IsStmt(s) && Size(s) <= LIST_MAX
    ensures Meaning(s) == if s.SelStmt? then SelOf(ShowBody(s)) else if s.CrtStmt? then CrtOf(ShowBody(s))
      else AddOf(ShowBody(s))
  {
    hide *;
    match s
    case SelStmt(_, _, _, _, _, _) => SelShown(s);
    case CrtStmt(_, _, _, _) => CrtShown(s);
    case AddStmt(_, _, _, _) => AddShown(s);
  }

  lemma InstrIs(lead: string, s: Stmt)
    requires IsStmt(s) && SkipBlanks(lead + ShowStmt(s)) == ShowStmt(s)
      && VerbFrom(ShowStmt(s), 0) == Parsed(Some(Verb(s)), ShowBody(s))
    ensures InstrOf(lead + ShowStmt(s)) ==
      if s.SelStmt? then SelOf(ShowBody(s)) else if s.CrtStmt? then CrtOf(ShowBody(s)) else AddOf(ShowBody(s))
  {
    hide SkipBlanks, ShowStmt, VerbFrom, ShowBody, SelOf, CrtOf, AddOf, IsStmt;
  }

  // ---------------------------------------------------------------- what is accepted

  lemma {:induction false} CountRange(st: Counting, s: string)
    requires -128 <= Result(st) <= LIST_MAX
    ensures -128 <= Result(FeedAll(st, s)) <= LIST_MAX
    decreases |s|
  {
    if s != "" { CountRange(Feed(st, s[0]), s[1..]); }
  }

  lemma CountMax(s: string)
    ensures Count(s) <= LIST_MAX
  {
    CountRange(START, s);
  }

  predicate NoEnd(s: string) { ';' !in s }

  predicate AreNames(names: seq<string>) { forall i {:trigger names[i]} :: 0 <= i < |names| ==> IsName(names[i]) }

  predicate AreValues(values: seq<string>, literal: bool) {
    forall i {:trigger values[i]} :: 0 <= i < |values| ==> if literal then IsText(values[i]) else IsName(values[i])
  }

  lemma IdentAccepts(s: string)
    requires NoEnd(s)
    ensures NoEnd(Ident(s).rest) && (Ident(s).value.Some? ==> IsName(Ident(s).value.value))
  {}

  lemma ValueAccepts(s: string)
    requires NoEnd(s)
    ensures NoEnd(Value(s).rest) && (Value(s).value.Some? ==> IsText(Value(s).value.value))
  {}

  lemma ExactlyAccepts(s: string, word: string)
    requires NoEnd(s)
    ensures NoEnd(Exactly(s, word).rest)
  {}

  lemma {:induction false} NamesAccept(s: string, n: nat, got: seq<string>)
    requires NoEnd(s) && AreNames(got)
    ensures var p := Names(s, n, got);
      NoEnd(p.rest) && (p.value.Some? ==> AreNames(p.value.value) && |p.value.value| == |got| + n)
    decreases n
  {
    if n > 0 {
      var comma := Exactly(s, ",");
      ExactlyAccepts(s, ",");
      IdentAccepts(comma.rest);
      var name := Ident(comma.rest);
      if comma.value.Some? && name.value.Some? { NamesAccept(name.rest, n - 1, got + [name.value.value]); }
    }
  }

  lemma NameListAccepts(s: string)
    requires NoEnd(s)
    ensures var p := NameList(s);
      NoEnd(p.rest) && (p.value.Some? ==> AreNames(p.value.value) && 1 <= |p.value.value| <= LIST_MAX)
  {
    CountRange(START, s);
    IdentAccepts(s);
    var n, name := Count(s), Ident(s);
    if n > 0 && name.value.Some? { NamesAccept(name.rest, n - 1, [name.value.value]); }
  }

  predicate AreColumnsRead(got: Columns, n: int, literal: bool) {
    |got.names| == |got.values| == n && AreNames(got.names) && AreValues(got.values, literal)
  }

  lemma PairAccepts(s: string, literal: bool, got: Columns)
    requires NoEnd(s) && AreColumnsRead(got, |got.names|, literal)
    ensures var p := Pair(s, literal, got);
      NoEnd(p.rest) && (p.value.Some? ==>
        |p.value.value.names| == |got.names| + 1 && AreColumnsRead(p.value.value, |got.names| + 1, literal))
  {
    var name := Ident(s);
    IdentAccepts(s);
    var equal := Exactly(name.rest, "=");
    ExactlyAccepts(name.rest, "=");
    ValueAccepts(equal.rest);
    IdentAccepts(equal.rest);
  }

  lemma {:induction false} PairsAccept(s: string, n: nat, literal: bool, got: Columns)
    requires NoEnd(s) && AreColumnsRead(got, |got.names|, literal)
    ensures var p := Pairs(s, n, literal, got);
      NoEnd(p.rest) && (p.value.Some? ==>
        |p.value.value.names| == |got.names| + n && AreColumnsRead(p.value.value, |got.names| + n, literal))
    decreases n
  {
    hide Pair, Exactly, NoEnd, AreColumnsRead;
    if n > 0 {
      ExactlyAccepts(s, ",");
      var pair := Pair(Exactly(s, ",").rest, literal, got);
      PairAccepts(Exactly(s, ",").rest, literal, got);
      if pair.value.Some? { PairsAccept(pair.rest, n - 1, literal, pair.value.value); }
    }
  }

  lemma NothingRead(literal: bool)
    ensures AreColumnsRead(Columns([], []), 0, literal)
  {}

  lemma PairListAccepts(s: string, literal: bool)
    requires NoEnd(s)
    ensures var p := PairList(s, literal); 
      NoEnd(p.rest) && (p.value.Some? ==>
        1 <= |p.value.value.names| <= LIST_MAX && AreColumnsRead(p.value.value, |p.value.value.names|, literal))
  {
    hide Pair, Pairs, Count, NoEnd, AreColumnsRead, AreNames, AreValues;
    var n, pair := Count(s), Pair(s, literal, Columns([], []));
    CountMax(s);
    NothingRead(literal);
    PairAccepts(s, literal, Columns([], []));
    if n > 0 && pair.value.Some? { PairsAccept(pair.rest, n - 1, literal, pair.value.value); }
  }

  /** What an instruction read from a text without semicolons is like. */
  predicate Proper(i: Instr) {
    match i
    case Unknown => true
    case Undefined => true
    case Sel(columns, table, cond) =>
      && |columns| <= LIST_MAX && AreNames(columns) && IsName(table)
      && (cond.Some? ==> IsName(cond.value.col) && IsText(cond.value.val))
    case Crt(table, columns, types) =>
      1 <= |columns| <= LIST_MAX && AreColumnsRead(Columns(columns, types), |columns|, false) && IsName(table)
    case Add(table, columns, values) =>
      1 <= |columns| <= LIST_MAX && AreColumnsRead(Columns(columns, values), |columns|, true) && IsName(table)
  }

  lemma SelAccepts(s: string)
    requires NoEnd(s)
    ensures Proper(SelOf(s))
  {
    NameListAccepts(s);
    var columns := SelColumns(s);
    assert NoEnd(columns.rest);
    ExactlyAccepts(columns.rest, "from");
    var table := Ident(Exactly(columns.rest, "from").rest);
    IdentAccepts(Exactly(columns.rest, "from").rest);
    ExactlyAccepts(table.rest, "where");
    var w := Exactly(table.rest, "where").rest;
    IdentAccepts(w);
    ExactlyAccepts(Ident(w).rest, "=");
    ValueAccepts(Exactly(Ident(w).rest, "=").rest);
  }

  lemma CrtAccepts(s: string)
    requires NoEnd(s)
    ensures Proper(CrtOf(s))
  {
    IdentAccepts(s);
    ExactlyAccepts(Ident(s).rest, "with");
    PairListAccepts(Exactly(Ident(s).rest, "with").rest, false);
  }

  lemma AddAccepts(s: string)
    requires NoEnd(s)
    ensures Proper(AddOf(s))
  {
    PairListAccepts(s, true);
    var l := PairList(s, true);
    ExactlyAccepts(l.rest, "in");
    IdentAccepts(Exactly(l.rest, "in").rest);
  }

  lemma {:induction false} VerbAccepts(s: string, i: nat)
    requires NoEnd(s) && i <= |VERBS|
    ensures NoEnd(VerbFrom(s, i).rest)
    decreases |VERBS| - i
  {
    if i < |VERBS| && !(VERBS[i] <= s) { VerbAccepts(s, i + 1); }
  }

  lemma UnknownIsProper()
    ensures Proper(Unknown) && Proper(Undefined)
  {}

  /** Whatever the text, the instruction read from it has proper names, and lists of equal lengths from 1 to 127. */
  lemma AcceptedIsProper(s: string)
    requires NoEnd(s)
    ensures Proper(InstrOf(s))
  {
    hide SelOf, CrtOf, AddOf, VerbFrom, SkipBlanks, Proper;
    assert NoEnd(SkipBlanks(s));
    VerbAccepts(SkipBlanks(s), 0);
    UnknownIsProper();
    var rest := VerbFrom(SkipBlanks(s), 0).rest;
    SelAccepts(rest);
    CrtAccepts(rest);
    AddAccepts(rest);
  }

  /** The exact limit: a statement is read as what it states if and only if its list has at most 127 elements. */
  lemma ReadExactlyUpTo127(lead: string, s: Stmt)
    requires All(IsBlank, lead) && IsStmt(s)
    ensures InstrOf(lead + ShowStmt(s)) == Meaning(s) <==> Size(s) <= LIST_MAX
  {
    StmtNoEnd(s);
    BothNoEnd(lead, ShowStmt(s));
    hide ShowStmt, InstrOf, IsStmt;
    if Size(s) <= LIST_MAX {
      StmtShown(lead, s);
    } else {
      AcceptedIsProper(lead + ShowStmt(s));
    }
  }

  // ---------------------------------------------------------------- a negative count

  /** When the parser writes through a null pointer: its list's length, as a signed char holds it, is negative. */
  lemma UndefinedExactly(lead: string, s: Stmt)
    requires All(IsBlank, lead) && IsStmt(s)
    ensures InstrOf(lead + ShowStmt(s)).Undefined? <==> Size(s) % 256 >= 128
  {
    hide *;
    StmtStarts(s);
    SkipsBlanks(lead, ShowStmt(s));
    BodyStarts(s);
    VerbShown(Verb(s), s.gap, ShowBody(s));
    InstrIs(lead, s);
    match s
    case SelStmt(_, _, _, _, _, _) => SelUndefined(s);
    case CrtStmt(_, _, _, _) => CrtUndefined(s);
    case AddStmt(_, _, _, _) => AddUndefined(s);
  }

  /** On any text: a character that the syntax has no use for, outside quotes and before the count has stopped, makes
      the count negative, and so `add` undefined, not a failure. */
  lemma StrayCharacter(a: string, c: char, b: string)
    requires FeedAll(START, a).Counting? && !FeedAll(START, a).inQuote
    requires !IsAlphanum(c) && c != QUOTE && c != '=' && c != ' ' && c != ','
    ensures Count(a + ([c] + b)) == -1 && AddOf(a + ([c] + b)).Undefined?
  {
    var st := FeedAll(START, a);
    FeedBoth(START, a, [c] + b);
    FeedBoth(st, [c], b);
    FeedOne(st, c);
    FeedStopped(-1, b);
    hide FeedAll, PairList, Exactly, Ident;
  }

  lemma NegativeCount(n: nat)
    ensures Wrap8(n) < 0 <==> n % 256 >= 128
  {}

  lemma SelUndefined(s: Stmt)
    requires s.SelStmt? && IsStmt(s)
    ensures SelOf(ShowBody(s)).Undefined? <==> Size(s) % 256 >= 128
  {
    hide *;
    BodyOf(s);
    TableShown(s);
    var f := "from" + (Spaces(s.fromGap) + (ShowWord(s.table) + ShowWhere(s.cond)));
    SelCounted(s, f);
    NegativeCount(|s.columns|);
    SelUndefinedIs(ShowBody(s));
    SizeIs(s);
  }

  lemma SelUndefinedIs(b: string)
    ensures SelOf(b).Undefined? <==> !("*" <= b) && Count(b) < 0
  {
    hide SelColumns, Exactly, Ident, ConditionOf, Count;
  }

  lemma SizeIs(s: Stmt)
    ensures Size(s) == if s.SelStmt? then |s.columns| else |s.items|
  {}

  lemma SelCounted(s: Stmt, f: string)
    requires s.SelStmt? && IsStmt(s) && f != "" && IsAlphanum(f[0])
    ensures if s.columns == [] then "*" <= ShowSelected(s) + f
      else !("*" <= ShowSelected(s) + f) && Count(ShowSelected(s) + f) == Wrap8(|s.columns|)
  {
    if s.columns == [] {
    } else {
      CountOfColumns(s.columns, f);
      assert (ShowColumnList(s.columns) + f)[0] == s.columns[0].name.text[0];
      hide Count, ShowColumns;
    }
  }

  lemma CrtUndefined(s: Stmt)
    requires s.CrtStmt? && IsStmt(s)
    ensures CrtOf(ShowBody(s)).Undefined? <==> Size(s) % 256 >= 128
  {
    var l := ShowItemList(s.items);
    IdentShown(s.table, "with" + (Spaces(s.withGap) + l));
    assert l[0] == s.items[0].name.text[0];
    ExactlyShown("with", s.withGap, l);
    assert l + "" == l;
    CountOfItems(s.items, false, "");
    NegativeCount(|s.items|);
    hide Count, Ident, Exactly, PairList, ShowItemList, ShowWord, Spaces;
  }

  lemma AddUndefined(s: Stmt)
    requires s.AddStmt? && IsStmt(s)
    ensures AddOf(ShowBody(s)).Undefined? <==> Size(s) % 256 >= 128
  {
    var b := "in" + (Spaces(s.inGap) + ShowWord(s.table));
    assert forall i {:trigger b[i]} :: 0 <= i < |b| ==> IsAlphanum(b[i]) || b[i] == ' ';
    CountOfItems(s.items, true, b);
    NegativeCount(|s.items|);
    hide Count, Ident, Exactly, PairList, ShowItemList, ShowWord, Spaces;
  }

  // ---------------------------------------------------------------- writing an instruction down

  function WriteItem(name: string, value: string, literal: bool): Item {
    Item(1, Word(name, 0), 0, Literal(value, literal, 0))
  }

  function WriteItems(names: seq<string>, values: seq<string>, literal: bool): seq<Item>
    requires |names| == |values|
  {
    seq(|names|, i requires 0 <= i < |names| => WriteItem(names[i], values[i], literal))
  }

  /** An instruction in the documented syntax, with every value quoted. */
  function Write(i: Instr): Stmt
    requires Proper(i) && !i.Unknown? && !i.Undefined?
  {
    match i
    case Sel(columns, table, cond) =>
      SelStmt(0, seq(|columns|, k requires 0 <= k < |columns| => Column(1, Word(columns[k], 1))), 1, 1, Word(table, 1),
        if cond.None? then None else Some(Where(1, Word(cond.value.col, 0), 0, Literal(cond.value.val, true, 0))))
    case Crt(table, columns, types) => CrtStmt(0, Word(table, 1), 1, WriteItems(columns, types, false))
    case Add(table, columns, values) => AddStmt(0, WriteItems(columns, values, true), 1, Word(table, 0))
  }

  lemma WrittenMeans(i: Instr)
    requires Proper(i) && !i.Unknown? && !i.Undefined?
    ensures IsStmt(Write(i)) && Size(Write(i)) <= LIST_MAX && Meaning(Write(i)) == i
  {
    match i
    case Sel(columns, _, _) => assert ColumnNames(Write(i).columns) == columns;
    case Crt(_, columns, types) => assert ItemNames(Write(i).items) == columns && ItemValues(Write(i).items) == types;
    case Add(_, columns, values) => assert ItemNames(Write(i).items) == columns && ItemValues(Write(i).items) == values;
  }

  /** Any text at all: the instruction read from it, written down in the documented syntax, is read back as itself. */
  lemma AcceptedIsReadBack(s: string)
    requires NoEnd(s) && !InstrOf(s).Unknown? && !InstrOf(s).Undefined?
    ensures Proper(InstrOf(s)) && IsStmt(Write(InstrOf(s))) && InstrOf(ShowStmt(Write(InstrOf(s)))) == InstrOf(s)
  {
    AcceptedIsProper(s);
    WrittenMeans(InstrOf(s));
    StmtShown("", Write(InstrOf(s)));
    assert "" + ShowStmt(Write(InstrOf(s))) == ShowStmt(Write(InstrOf(s)));
  }

  // ---------------------------------------------------------------- several statements

  datatype Entry = Entry(lead: string, stmt: Stmt)

  predicate IsEntry(e: Entry) { All(IsBlank, e.lead) && IsStmt(e.stmt) }

  predicate AreEntries(es: seq<Entry>) { forall i {:trigger es[i]} :: 0 <= i < |es| ==> IsEntry(es[i]) }

  /** Each statement with blanks before it and a semicolon after it. */
  function ShowEntries(es: seq<Entry>): string
    requires AreEntries(es)
  {
    if es == [] then "" else (es[0].lead + ShowStmt(es[0].stmt)) + (";" + ShowEntries(es[1..]))
  }

  function Meanings(es: seq<Entry>): seq<Instr> {
    if es == [] then [] else [Meaning(es[0].stmt)] + Meanings(es[1..])
  }

  lemma {:induction false} ItemsNoEnd(items: seq<Item>, literal: bool)
    requires AreItems(items, literal)
    ensures NoEnd(ShowItems(items))
  {
    if items != [] {
      ItemNoEnd(items[0], literal);
      ItemsNoEnd(items[1..], literal);
    }
  }

  lemma ItemNoEnd(i: Item, literal: bool)
    requires IsItem(i, literal)
    ensures NoEnd(ShowItem(i))
  {
    assert NoEnd(ShowWord(i.name)) && NoEnd(ShowLiteral(i.value));
  }

  lemma {:induction false} ColumnsNoEnd(columns: seq<Column>)
    requires AreColumns(columns)
    ensures NoEnd(ShowColumns(columns))
  {
    if columns != [] {
      assert NoEnd(ShowWord(columns[0].name));
      ColumnsNoEnd(columns[1..]);
    }
  }

  lemma StmtNoEnd(s: Stmt)
    requires IsStmt(s)
    ensures NoEnd(ShowStmt(s))
  {
    BodyNoEnd(s);
    hide ShowBody, IsStmt;
    assert NoEnd(VERBS[Verb(s)] + " ");
  }

  lemma BodyNoEnd(s: Stmt)
    requires IsStmt(s)
    ensures NoEnd(ShowBody(s))
  {
    WordNoEnd(s.table);
    match s
    case SelStmt(_, _, _, _, _, cond) =>
      SelectedNoEnd(s);
      WhereNoEnd(cond);
    case CrtStmt(_, _, _, items) => ListNoEnd(items, false);
    case AddStmt(_, items, _, _) => ListNoEnd(items, true);
    hide ShowSelected, ShowWhere, ShowWord, ShowItemList, IsStmt;
  }

  lemma WordNoEnd(w: Word)
    requires IsName(w.text)
    ensures NoEnd(ShowWord(w))
  {}

  lemma SelectedNoEnd(s: Stmt)
    requires s.SelStmt? && IsStmt(s)
    ensures NoEnd(ShowSelected(s))
  {
    if s.columns != [] {
      assert NoEnd(ShowWord(s.columns[0].name));
      ColumnsNoEnd(s.columns[1..]);
    }
  }

  lemma WhereNoEnd(c: Option<Where>)
    requires c.Some? ==> IsName(c.value.col.text) && IsLiteral(c.value.val)
    ensures NoEnd(ShowWhere(c))
  {
    if c.Some? {
      assert NoEnd(ShowWord(c.value.col)) && NoEnd(ShowLiteral(c.value.val));
      hide ShowWord, ShowLiteral;
    }
  }

  lemma ListNoEnd(items: seq<Item>, literal: bool)
    requires items != [] && AreItems(items, literal)
    ensures NoEnd(ShowItemList(items))
  {
    ItemNoEnd(items[0], literal);
    ItemsNoEnd(items[1..], literal);
  }

  /** A whole input of statements in the documented syntax: the instructions are those meant if and only if
      no list has more than 127 elements, whatever unfinished text follows the last semicolon. There is one for each
      statement if and only if no count but perhaps the last is negative. */
  lemma {:induction false} InputIsRead(es: seq<Entry>, tail: string)
    requires AreEntries(es) && NoEnd(tail)
    ensures Instructions(ShowEntries(es) + tail) == Meanings(es) <==> Small(es)
    ensures |Instructions(ShowEntries(es) + tail)| == |es| <==> Countable(es)
    ensures |Instructions(ShowEntries(es) + tail)| <= |es|
  {
    hide *;
    if es == [] {
      NoEntries(es, tail);
      NothingToRead(tail);
    } else {
      EntriesUnfold(es, tail);
      var a, rest := es[0].lead + ShowStmt(es[0].stmt), ShowEntries(es[1..]) + tail;
      StmtNoEnd(es[0].stmt);
      BothNoEnd(es[0].lead, ShowStmt(es[0].stmt));
      ReadExactlyUpTo127(es[0].lead, es[0].stmt);
      UndefinedExactly(es[0].lead, es[0].stmt);
      InputIsRead(es[1..], tail);
      FirstRead(a, rest);
      MeaningIsDefined(es[0].stmt);
      HeadTail(InstrOf(a), if InstrOf(a).Undefined? then [] else Instructions(rest), Meaning(es[0].stmt),
        Meanings(es[1..]));
      SmallSplit(es);
      CountableSplit(es);
    }
  }

  lemma MeaningIsDefined(s: Stmt)
    ensures !Meaning(s).Undefined?
  {}

  /** No statement but perhaps the last has a list of which the count is negative. */
  predicate Countable(es: seq<Entry>) {
    forall i {:trigger es[i]} :: 0 <= i < |es| - 1 ==> Size(es[i].stmt) % 256 < 128
  }

  lemma CountableSplit(es: seq<Entry>)
    requires es != []
    ensures Countable(es) <==> (es[1..] == [] || Size(es[0].stmt) % 256 < 128) && Countable(es[1..])
  {
    assert Countable(es[1..]) ==> forall i {:trigger es[i]} :: 1 <= i < |es| ==> es[i] == es[1..][i - 1];
  }

  lemma NoEntries(es: seq<Entry>, tail: string)
    requires es == []
    ensures ShowEntries(es) + tail == tail && Meanings(es) == [] && Small(es) && Countable(es)
  {}

  lemma EntriesUnfold(es: seq<Entry>, tail: string)
    requires es != [] && AreEntries(es)
    ensures IsEntry(es[0]) && AreEntries(es[1..]) && IsStmt(es[0].stmt) && All(IsBlank, es[0].lead)
      && (es[0].stmt.SelStmt? || es[0].stmt.items != [])
    ensures ShowEntries(es) + tail == (es[0].lead + ShowStmt(es[0].stmt)) + (";" + (ShowEntries(es[1..]) + tail))
    ensures Meanings(es) == [Meaning(es[0].stmt)] + Meanings(es[1..])
  {
    assert IsEntry(es[0]);
    hide ShowStmt, IsStmt, Meaning;
    Assoc(es[0].lead + ShowStmt(es[0].stmt), ";" + ShowEntries(es[1..]), tail);
    Assoc(";", ShowEntries(es[1..]), tail);
  }

  predicate Small(es: seq<Entry>) { forall i {:trigger es[i]} :: 0 <= i < |es| ==> Size(es[i].stmt) <= LIST_MAX }

  lemma SmallSplit(es: seq<Entry>)
    requires es != []
    ensures Small(es) <==> Size(es[0].stmt) <= LIST_MAX && Small(es[1..])
  {
    assert Small(es[1..]) ==> forall i {:trigger es[i]} :: 1 <= i < |es| ==> es[i] == es[1..][i - 1];
  }

  lemma BothNoEnd(lead: string, t: string)
    requires All(IsBlank, lead) && NoEnd(t)
    ensures NoEnd(lead + t)
  {}

  lemma NothingToRead(tail: string)
    requires NoEnd(tail)
    ensures Instructions(tail) == []
  {
    assert All(NotEnd, tail) && tail + "" == tail;
    PrefixIs(NotEnd, tail, "");
  }

  lemma FirstRead(a: string, rest: string)
    requires NoEnd(a)
    ensures Instructions(a + (";" + rest)) == [InstrOf(a)] + if InstrOf(a).Undefined? then [] else Instructions(rest)
  {
    var s := a + (";" + rest);
    assert All(NotEnd, a);
    PrefixIs(NotEnd, a, ";" + rest);
    assert s[..|a|] == a && s[|a| + 1..] == rest;
  }

  /** Texts with a semicolon after each. */
  function Ended(texts: seq<string>): string {
    if texts == [] then "" else texts[0] + (";" + Ended(texts[1..]))
  }

  /** Any input at all: the texts before its semicolons are read one by one, up to the first undefined one, and what
      follows the last semicolon is not read. */
  lemma {:induction false} InputIsSplit(texts: seq<string>, tail: string)
    requires (forall i {:trigger texts[i]} :: 0 <= i < |texts| ==> NoEnd(texts[i])) && NoEnd(tail)
    ensures var read := Instructions(Ended(texts) + tail);
      && |read| <= |texts| && (|read| < |texts| ==> read != [] && read[|read| - 1] == Undefined)
      && forall i {:trigger read[i]} :: 0 <= i < |read| ==>
           read[i] == InstrOf(texts[i]) && (read[i] == Undefined ==> i == |read| - 1)
  {
    hide Instructions, InstrOf;
    if texts == [] {
      assert "" + tail == tail;
      NothingToRead(tail);
    } else {
      Assoc(texts[0], ";" + Ended(texts[1..]), tail);
      Assoc(";", Ended(texts[1..]), tail);
      FirstRead(texts[0], Ended(texts[1..]) + tail);
      InputIsSplit(texts[1..], tail);
    }
  }

  /** And every input is one of those. */
  lemma {:induction false} InputIsEnded(s: string) returns (texts: seq<string>, tail: string)
    ensures (forall i {:trigger texts[i]} :: 0 <= i < |texts| ==> NoEnd(texts[i])) && NoEnd(tail)
    ensures s == Ended(texts) + tail
    decreases |s|
  {
    var n := Prefix(NotEnd, s);
    var first := s[..n];
    assert forall i {:trigger first[i]} :: 0 <= i < n ==> NotEnd(s[i]) && first[i] == s[i];
    if n == |s| {
      texts, tail := [], s;
      assert "" + s == s;
    } else {
      var more;
      more, tail := InputIsEnded(s[n + 1..]);
      texts := [first] + more;
      assert texts[1..] == more && s == first + (";" + s[n + 1..]);
      Assoc(first, ";" + Ended(more), tail);
      Assoc(";", Ended(more), tail);
    }
  }

  lemma HeadTail(a: Instr, s: seq<Instr>, b: Instr, t: seq<Instr>)
    ensures [a] + s == [b] + t <==> a == b && s == t
  {
    if [a] + s == [b] + t {
      assert ([a] + s)[0] == ([b] + t)[0] && ([a] + s)[1..] == ([b] + t)[1..];
    }
  }
}
