/** Instructions in the documented syntax, with any number of spaces between words, and what parsing makes of them. */
module QueryText {
  import opened Options
  import opened Query

  /** A name and the spaces after it. */
  datatype Word = Word(text: string, gap: nat)
  datatype Literal = Literal(text: string, quoted: bool, gap: nat)
  /** An element of a list; `lead` is the number of spaces after the comma before it. */
  datatype Column = Column(lead: nat, name: Word)
  datatype Item = Item(lead: nat, name: Word, equal: nat, value: Literal)
  datatype Where = Where(gap: nat, col: Word, equal: nat, val: Literal)

  datatype Stmt =
    | SelStmt(gap: nat, columns: seq<Column>, star: nat, fromGap: nat, table: Word, cond: Option<Where>)
    | CrtStmt(gap: nat, table: Word, withGap: nat, items: seq<Item>)
    | AddStmt(gap: nat, items: seq<Item>, inGap: nat, table: Word)

  // ---------------------------------------------------------------- the text of a statement

  function Spaces(n: nat): (s: string)
    ensures |s| == n && forall i {:trigger s[i]} :: 0 <= i < n ==> s[i] == ' '
  {
    seq(n, i => ' ')
  }

  function ShowWord(w: Word): string { w.text + Spaces(w.gap) }

  function ShowLiteral(v: Literal): string {
    (if v.quoted then [QUOTE] + v.text + [QUOTE] else v.text) + Spaces(v.gap)
  }

  function ShowItem(i: Item): string { ShowWord(i.name) + ("=" + (Spaces(i.equal) + ShowLiteral(i.value))) }

  function ShowItems(items: seq<Item>): string {
    if items == [] then "" else "," + (Spaces(items[0].lead) + (ShowItem(items[0]) + ShowItems(items[1..])))
  }

  function ShowColumns(columns: seq<Column>): string {
    if columns == [] then ""
    else "," + (Spaces(columns[0].lead) + (ShowWord(columns[0].name) + ShowColumns(columns[1..])))
  }

  function ShowWhere(c: Option<Where>): string {
    if c.None? then "" else
    "where" + (Spaces(c.value.gap)
      + (ShowWord(c.value.col) + ("=" + (Spaces(c.value.equal) + ShowLiteral(c.value.val)))))
  }

  /** A list: its first element, then the others with a comma before each. */
  function ShowItemList(items: seq<Item>): string
    requires items != []
  {
    ShowItem(items[0]) + ShowItems(items[1..])
  }

  function ShowColumnList(columns: seq<Column>): string
    requires columns != []
  {
    ShowWord(columns[0].name) + ShowColumns(columns[1..])
  }

  function ShowSelected(s: Stmt): string
    requires s.SelStmt?
  {
    if s.columns == [] then "*" + Spaces(s.star) else ShowColumnList(s.columns)
  }

  /** The text of a statement after its verb. */
  function ShowBody(s: Stmt): string
    requires s.SelStmt? || s.items != []
  {
    match s
    case SelStmt(_, _, _, fromGap, table, cond) =>
      ShowSelected(s) + ("from" + (Spaces(fromGap) + (ShowWord(table) + ShowWhere(cond))))
    case CrtStmt(_, table, withGap, items) => ShowWord(table) + ("with" + (Spaces(withGap) + ShowItemList(items)))
    case AddStmt(_, items, inGap, table) => ShowItemList(items) + ("in" + (Spaces(inGap) + ShowWord(table)))
  }

  function Verb(s: Stmt): (i: nat)
    ensures i in {0, 3, 4}
  {
    if s.SelStmt? then 0 else if s.CrtStmt? then 4 else 3
  }

  function ShowStmt(s: Stmt): string
    requires s.SelStmt? || s.items != []
  {
    VERBS[Verb(s)] + " " + (Spaces(s.gap) + ShowBody(s))
  }

  // ---------------------------------------------------------------- what the syntax allows

  /** An identifier: 1 to 20 letters and digits. */
  predicate IsName(s: string) { 1 <= |s| <= IDENT_MAX_LENGTH && All(IsAlphanum, s) }

  predicate IsText(s: string) { All(NotQuote, s) && All(NotEnd, s) }

  /** A quoted string without quotes and semicolons in it, or a series of digits. */
  predicate IsLiteral(v: Literal) { if v.quoted then IsText(v.text) else v.text != "" && All(IsInt, v.text) }

  /** A type in a definition is a bare word. */
  predicate IsItem(i: Item, literal: bool) {
    IsName(i.name.text) && if literal then IsLiteral(i.value) else !i.value.quoted && IsName(i.value.text)
  }

  predicate AreItems(items: seq<Item>, literal: bool) { forall i {:trigger items[i]} :: 0 <= i < |items| ==>
    IsItem(items[i], literal) }

  predicate AreColumns(columns: seq<Column>) { forall i {:trigger columns[i]} :: 0 <= i < |columns| ==>
    IsName(columns[i].name.text) }

  /** Words that would run together are kept apart by a space at least. */
  predicate IsStmt(s: Stmt) {
    match s
    case SelStmt(_, columns, _, _, table, cond) =>
      && AreColumns(columns) && (columns != [] ==> columns[|columns| - 1].name.gap > 0) && IsName(table.text)
      && (cond.Some? ==> table.gap > 0 && IsName(cond.value.col.text) && IsLiteral(cond.value.val))
    case CrtStmt(_, table, _, items) => IsName(table.text) && table.gap > 0 && items != [] && AreItems(items, false)
    case AddStmt(_, items, _, table) => items != [] && AreItems(items, true) && IsName(table.text)
  }

  function Size(s: Stmt): nat { if s.SelStmt? then |s.columns| else |s.items| }

  function ItemNames(items: seq<Item>): seq<string> { seq(|items|, i requires 0 <= i < |items| => items[i].name.text) }

  function ItemValues(items: seq<Item>): seq<string> { seq(|items|, i requires 0 <= i < |items| =>
    items[i].value.text) }

  function ColumnNames(columns: seq<Column>): seq<string> { seq(|columns|, i requires 0 <= i < |columns| =>
    columns[i].name.text) }

  /** The instruction that a statement states. */
  function Meaning(s: Stmt): Instr {
    match s
    case SelStmt(_, columns, _, _, table, cond) =>
      Sel(ColumnNames(columns), table.text,
        if cond.None? then None else Some(Condition(cond.value.col.text, cond.value.val.text)))
    case CrtStmt(_, table, _, items) => Crt(table.text, ItemNames(items), ItemValues(items))
    case AddStmt(_, items, _, table) => Add(table.text, ItemNames(items), ItemValues(items))
  }

  // ---------------------------------------------------------------- words

  lemma Assoc(a: string, b: string, c: string)
    ensures (a + b) + c == a + (b + c)
  {}

  lemma Assoc4(a: string, b: string, c: string, d: string, e: string)
    ensures (a + (b + (c + d))) + e == a + (b + (c + (d + e)))
  {
    Assoc(a, b + (c + d), e);
    Assoc(b, c + d, e);
    Assoc(c, d, e);
  }

  /** The text goes on with something else than a blank. */
  predicate Solid(s: string) { s == "" || !IsBlank(s[0]) }

  lemma {:induction false} SkipsBlanks(a: string, b: string)
    requires All(IsBlank, a) && Solid(b)
    ensures SkipBlanks(a + b) == b
  {
    if a == "" {
      assert a + b == b;
    } else {
      assert (a + b)[0] == a[0] && (a + b)[1..] == a[1..] + b;
      assert All(IsBlank, a[1..]);
      SkipsBlanks(a[1..], b);
    }
  }

  lemma SkipsSpaces(n: nat, b: string)
    requires Solid(b)
    ensures SkipBlanks(Spaces(n) + b) == b
  {
    SkipsBlanks(Spaces(n), b);
  }

  /** A word followed by spaces or by something that is no part of it. */
  predicate Apart(p: char -> bool, gap: nat, b: string) { Solid(b) && (gap > 0 || b == "" || !p(b[0])) }

  lemma PrefixOfWord(p: char -> bool, a: string, gap: nat, b: string)
    requires All(p, a) && Apart(p, gap, b) && !p(' ')
    ensures var s := a + (Spaces(gap) + b); Prefix(p, s) == |a| && s[..|a|] == a && SkipBlanks(s[|a|..]) == b
  {
    var s := a + (Spaces(gap) + b);
    PrefixIs(p, a, Spaces(gap) + b);
    assert s[..|a|] == a && s[|a|..] == Spaces(gap) + b;
    SkipsSpaces(gap, b);
  }

  lemma IdentShown(w: Word, b: string)
    requires IsName(w.text) && Apart(IsAlphanum, w.gap, b)
    ensures Ident(ShowWord(w) + b) == Parsed(Some(w.text), b)
  {
    assert ShowWord(w) + b == w.text + (Spaces(w.gap) + b);
    PrefixOfWord(IsAlphanum, w.text, w.gap, b);
  }

  lemma ValueShown(v: Literal, b: string)
    requires IsLiteral(v) && (if v.quoted then Solid(b) else Apart(IsInt, v.gap, b))
    ensures Value(ShowLiteral(v) + b) == Parsed(Some(v.text), b)
  {
    var t, q := Spaces(v.gap), [QUOTE];
    if v.quoted {
      QuotedShown(v.text, v.gap, b);
      hide Value, Spaces;
      Assoc(q, v.text, q);
      Assoc(q + v.text + q, t, b);
      Assoc(q, v.text + q, t + b);
      Assoc(v.text, q, t + b);
    } else {
      DigitsShown(v.text, v.gap, b);
      hide Value, Spaces;
      Assoc(v.text, t, b);
    }
  }

  lemma DigitsShown(a: string, gap: nat, b: string)
    requires a != "" && All(IsInt, a) && Apart(IsInt, gap, b)
    ensures Value(a + (Spaces(gap) + b)) == Parsed(Some(a), b)
  {
    PrefixOfWord(IsInt, a, gap, b);
    hide Prefix, SkipBlanks, Spaces;
  }

  lemma QuotedShown(a: string, gap: nat, b: string)
    requires All(NotQuote, a) && Solid(b)
    ensures Value([QUOTE] + (a + ([QUOTE] + (Spaces(gap) + b)))) == Parsed(Some(a), b)
  {
    var t := Spaces(gap) + b;
    var s := [QUOTE] + (a + ([QUOTE] + t));
    PrefixIs(NotQuote, a, [QUOTE] + t);
    SkipsSpaces(gap, b);
    hide Prefix, SkipBlanks, Spaces;
    assert s[1..] == a + ([QUOTE] + t) && s[1..|a| + 1] == a && s[|a| + 2..] == t;
  }

  lemma ExactlyShown(word: string, gap: nat, b: string)
    requires Solid(b)
    ensures Exactly(word + (Spaces(gap) + b), word) == Parsed(Some(word), b)
  {
    var s := word + (Spaces(gap) + b);
    assert s[..|word|] == word && s[|word|..] == Spaces(gap) + b;
    SkipsSpaces(gap, b);
  }

  // ---------------------------------------------------------------- lists

  /** What may follow a list's element. */
  predicate AfterItem(v: Literal, literal: bool, b: string) {
    if v.quoted then Solid(b) else Apart(if literal then IsInt else IsAlphanum, v.gap, b)
  }

  lemma PairShown(i: Item, literal: bool, got: Columns, b: string)
    requires IsItem(i, literal) && AfterItem(i.value, literal, b)
    ensures Pair(ShowItem(i) + b, literal, got) == Parsed(Some(Grown(got, i.name.text, i.value.text)), b)
  {
    var v := ShowLiteral(i.value) + b;
    var e := "=" + (Spaces(i.equal) + v);
    assert ShowItem(i) + b == ShowWord(i.name) + e;
    IdentShown(i.name, e);
    assert v[0] == if i.value.quoted then QUOTE else i.value.text[0];
    ExactlyShown("=", i.equal, v);
    if literal {
      ValueShown(i.value, b);
    } else {
      assert v == ShowWord(Word(i.value.text, i.value.gap)) + b;
      IdentShown(Word(i.value.text, i.value.gap), b);
    }
  }

  predicate AfterItems(items: seq<Item>, literal: bool, b: string) {
    items != [] ==> AfterItem(items[|items| - 1].value, literal, b)
  }

  function Read(got: Columns, items: seq<Item>): Columns {
    Columns(got.names + ItemNames(items), got.values + ItemValues(items))
  }

  lemma {:induction false} PairsShown(items: seq<Item>, literal: bool, got: Columns, b: string)
    requires AreItems(items, literal) && AfterItems(items, literal, b)
    ensures Pairs(ShowItems(items) + b, |items|, literal, got) == Parsed(Some(Read(got, items)), b)
  {
    if items == [] {
      assert ShowItems(items) + b == b && Read(got, items) == got;
    } else {
      var i, rest := items[0], items[1..];
      var b1 := ShowItems(rest) + b;
      ItemsUnfold(items, b);
      var got' := Grown(got, i.name.text, i.value.text);
      PairStep(items, literal, got, b);
      PairsShown(rest, literal, got', b);
      ReadNext(got, items);
    }
  }

  lemma ItemsUnfold(items: seq<Item>, b: string)
    requires items != []
    ensures ShowItems(items) + b == "," + (Spaces(items[0].lead) + (ShowItem(items[0]) + (ShowItems(items[1..]) + b)))
  {
    hide Spaces, ShowItem;
    Assoc4(",", Spaces(items[0].lead), ShowItem(items[0]), ShowItems(items[1..]), b);
  }

  lemma ReadNext(got: Columns, items: seq<Item>)
    requires items != []
    ensures Read(Grown(got, items[0].name.text, items[0].value.text), items[1..]) == Read(got, items)
  {}

  lemma PairStep(items: seq<Item>, literal: bool, got: Columns, b: string)
    requires items != [] && AreItems(items, literal) && AfterItems(items, literal, b)
    ensures var i, b1 := items[0], ShowItems(items[1..]) + b;
      Pair(Exactly("," + (Spaces(i.lead) + (ShowItem(i) + b1)), ",").rest, literal, got)
        == Parsed(Some(Grown(got, i.name.text, i.value.text)), b1)
  {
    var i, b1 := items[0], ShowItems(items[1..]) + b;
    assert items[1..] == [] ==> b1 == b;
    assert items[1..] != [] ==> b1[0] == ',';
    ItemStarts(i, b1, literal);
    ExactlyShown(",", i.lead, ShowItem(i) + b1);
    hide Exactly, Pair, ShowItem, IsItem;
    assert IsItem(i, literal);
    PairShown(i, literal, got, b1);
  }

  lemma ItemStarts(i: Item, b: string, literal: bool)
    requires IsItem(i, literal)
    ensures Solid(ShowItem(i) + b)
  {
    assert (ShowItem(i) + b)[0] == i.name.text[0];
  }

  lemma {:induction false} NamesShown(columns: seq<Column>, got: seq<string>, b: string)
    requires AreColumns(columns) && Solid(b) && (columns != [] ==> columns[|columns| - 1].name.gap > 0)
    ensures Names(ShowColumns(columns) + b, |columns|, got) == Parsed(Some(got + ColumnNames(columns)), b)
  {
    hide *;
    if columns == [] {
      NoNames(b, got);
    } else {
      var c, rest := columns[0], columns[1..];
      ColumnsUnfold(columns, got, b);
      NameStep(columns, b);
      NamesShown(rest, got + [c.name.text], b);
      NamesIs("," + (Spaces(c.lead) + (ShowWord(c.name) + (ShowColumns(rest) + b))), |columns|, got,
        ShowWord(c.name) + (ShowColumns(rest) + b),
        c.name.text, ShowColumns(rest) + b);
    }
  }

  lemma NoNames(b: string, got: seq<string>)
    ensures Names(ShowColumns([]) + b, 0, got) == Parsed(Some(got + ColumnNames([])), b)
  {
    assert ShowColumns([]) + b == b && got + ColumnNames([]) == got;
  }

  lemma ColumnsUnfold(columns: seq<Column>, got: seq<string>, b: string)
    requires columns != [] && AreColumns(columns)
    ensures ShowColumns(columns) + b
      == "," + (Spaces(columns[0].lead) + (ShowWord(columns[0].name) + (ShowColumns(columns[1..]) + b)))
    ensures AreColumns(columns[1..])
      && got + [columns[0].name.text] + ColumnNames(columns[1..]) == got + ColumnNames(columns)
  {
    hide Spaces, ShowWord;
    Assoc4(",", Spaces(columns[0].lead), ShowWord(columns[0].name), ShowColumns(columns[1..]), b);
    FirstName(columns, got);
  }

  lemma FirstName(columns: seq<Column>, got: seq<string>)
    requires columns != []
    ensures got + [columns[0].name.text] + ColumnNames(columns[1..]) == got + ColumnNames(columns)
  {
    assert ColumnNames(columns) == [columns[0].name.text] + ColumnNames(columns[1..]);
  }

  lemma NamesIs(s: string, n: nat, got: seq<string>, s1: string, name: string, s2: string)
    requires n > 0 && Exactly(s, ",") == Parsed(Some(","), s1) && Ident(s1) == Parsed(Some(name), s2)
    ensures Names(s, n, got) == Names(s2, n - 1, got + [name])
  {
    hide Exactly, Ident;
  }

  lemma NameStep(columns: seq<Column>, b: string)
    requires columns != [] && AreColumns(columns) && Solid(b) && columns[|columns| - 1].name.gap > 0
    ensures var c, b1 := columns[0], ShowColumns(columns[1..]) + b;
      && Exactly("," + (Spaces(c.lead) + (ShowWord(c.name) + b1)), ",") == Parsed(Some(","), ShowWord(c.name) + b1)
      && Ident(ShowWord(c.name) + b1) == Parsed(Some(c.name.text), b1)
  {
    var c, b1 := columns[0], ShowColumns(columns[1..]) + b;
    assert columns[1..] == [] ==> b1 == b;
    assert columns[1..] != [] ==> b1[0] == ',';
    assert (ShowWord(c.name) + b1)[0] == c.name.text[0];
    ExactlyShown(",", c.lead, ShowWord(c.name) + b1);
    IdentShown(c.name, b1);
  }

  // ---------------------------------------------------------------- what is counted

  lemma {:induction false} FeedBoth(st: Counting, a: string, b: string)
    ensures FeedAll(st, a + b) == FeedAll(FeedAll(st, a), b)
    decreases |a|
  {
    if a == "" {
      assert a + b == b;
    } else {
      assert (a + b)[0] == a[0] && (a + b)[1..] == a[1..] + b;
      FeedBoth(Feed(st, a[0]), a[1..], b);
    }
  }

  lemma FeedOne(st: Counting, c: char)
    ensures FeedAll(st, [c]) == Feed(st, c)
  {
    assert [c][1..] == "";
  }

  /** Inside a list, outside quotes, with a word allowed next. */
  predicate Open(st: Counting) { st.Counting? && !st.inQuote && (st.last == ' ' ==> st.equal) }

  lemma {:induction false} FeedLetters(st: Counting, a: string)
    requires Open(st) && All(IsAlphanum, a) && a != ""
    ensures FeedAll(st, a) == st.(last := 'a')
    decreases |a|
  {
    assert Feed(st, a[0]) == st.(last := 'a');
    if |a| > 1 {
      assert All(IsAlphanum, a[1..]);
      FeedLetters(st.(last := 'a'), a[1..]);
    }
  }

  lemma {:induction false} FeedSpaces(st: Counting, n: nat)
    requires st.Counting? && !st.inQuote
    ensures FeedAll(st, Spaces(n)) == st.(last := if n > 0 && st.last == 'a' then ' ' else st.last)
    decreases n
  {
    if n > 0 {
      assert Spaces(n)[1..] == Spaces(n - 1);
      FeedSpaces(Feed(st, ' '), n - 1);
    }
  }

  lemma {:induction false} FeedQuoted(st: Counting, a: string)
    requires st.Counting? && st.inQuote && All(NotQuote, a)
    ensures FeedAll(st, a + [QUOTE]) == st.(last := 'a', inQuote := false)
    decreases |a|
  {
    if a == "" {
      assert a + [QUOTE] == [QUOTE];
    } else {
      assert (a + [QUOTE])[0] == a[0] && (a + [QUOTE])[1..] == a[1..] + [QUOTE];
      assert All(NotQuote, a[1..]);
      FeedQuoted(st, a[1..]);
    }
  }

  lemma FeedWord(st: Counting, w: Word)
    requires Open(st) && IsName(w.text)
    ensures FeedAll(st, ShowWord(w)) == st.(last := if w.gap > 0 then ' ' else 'a')
  {
    FeedBoth(st, w.text, Spaces(w.gap));
    FeedLetters(st, w.text);
    FeedSpaces(st.(last := 'a'), w.gap);
  }

  lemma FeedLiteral(st: Counting, v: Literal)
    requires Open(st) && (IsLiteral(v) || (!v.quoted && IsName(v.text)))
    ensures FeedAll(st, ShowLiteral(v)) == st.(last := if v.gap > 0 then ' ' else 'a')
  {
    var a := if v.quoted then [QUOTE] + v.text + [QUOTE] else v.text;
    FeedBoth(st, a, Spaces(v.gap));
    if v.quoted {
      assert a[0] == QUOTE && a[1..] == v.text + [QUOTE];
      FeedQuoted(st.(inQuote := true), v.text);
    } else {
      FeedLetters(st, v.text);
    }
    FeedSpaces(st.(last := 'a'), v.gap);
  }

  /** Where the count stands after an element of a list of pairs. */
  predicate AfterPair(st: Counting, n: int) {
    st.Counting? && st.count == n && st.equal && !st.inQuote
  }

  lemma FeedItem(st: Counting, i: Item, literal: bool)
    requires Open(st) && !st.equal && IsItem(i, literal)
    ensures AfterPair(FeedAll(st, ShowItem(i)), st.count)
  {
    var v := Spaces(i.equal) + ShowLiteral(i.value);
    FeedBoth(st, ShowWord(i.name), "=" + v);
    FeedWord(st, i.name);
    var s1 := st.(last := if i.name.gap > 0 then ' ' else 'a');
    FeedBoth(s1, "=", v);
    var s2 := s1.(equal := true);
    FeedOne(s1, '=');
    FeedBoth(s2, Spaces(i.equal), ShowLiteral(i.value));
    FeedSpaces(s2, i.equal);
    FeedLiteral(FeedAll(s2, Spaces(i.equal)), i.value);
  }

  lemma FeedComma(st: Counting, lead: nat, b: string)
    requires st.Counting? && !st.inQuote
    ensures FeedAll(st, "," + (Spaces(lead) + b)) == FeedAll(Counting(Wrap8(st.count + 1), ',', false, false), b)
  {
    hide FeedAll;
    var s1 := Counting(Wrap8(st.count + 1), ',', false, false);
    FeedBoth(st, ",", Spaces(lead) + b);
    FeedOne(st, ',');
    FeedBoth(s1, Spaces(lead), b);
    FeedSpaces(s1, lead);
  }

  lemma {:induction false} FeedItems(st: Counting, items: seq<Item>, literal: bool, n: int)
    requires AfterPair(st, Wrap8(n)) && AreItems(items, literal)
    ensures AfterPair(FeedAll(st, ShowItems(items)), Wrap8(n + |items|))
    decreases |items|
  {
    if items != [] {
      var i, rest := items[0], items[1..];
      FeedComma(st, i.lead, ShowItem(i) + ShowItems(rest));
      var s1 := Counting(Wrap8(n + 1), ',', false, false);
      assert Wrap8(Wrap8(n) + 1) == Wrap8(n + 1);
      FeedBoth(s1, ShowItem(i), ShowItems(rest));
      FeedItem(s1, i, literal);
      FeedItems(FeedAll(s1, ShowItem(i)), rest, literal, n + 1);
    }
  }

  /** After a list of pairs, keywords and names are passed over. */
  lemma {:induction false} FeedRest(st: Counting, b: string, n: int)
    requires AfterPair(st, n) && forall i {:trigger b[i]} :: 0 <= i < |b| ==> IsAlphanum(b[i]) || b[i] == ' '
    ensures AfterPair(FeedAll(st, b), n)
    decreases |b|
  {
    if b != "" { FeedRest(Feed(st, b[0]), b[1..], n); }
  }

  /** `count_comma_list` on a list of pairs: the number of elements, as a signed char holds it. */
  lemma CountOfItems(items: seq<Item>, literal: bool, b: string)
    requires items != [] && AreItems(items, literal) && forall i {:trigger b[i]} :: 0 <= i < |b| ==>
      IsAlphanum(b[i]) || b[i] == ' '
    ensures Count(ShowItemList(items) + b) == Wrap8(|items|)
  {
    var a := ShowItemList(items);
    FeedBoth(START, a, b);
    FeedBoth(START, ShowItem(items[0]), ShowItems(items[1..]));
    FeedItem(START, items[0], literal);
    FeedItems(FeedAll(START, ShowItem(items[0])), items[1..], literal, 1);
    FeedRest(FeedAll(START, a), b, Wrap8(|items|));
  }

  lemma {:induction false} FeedColumns(st: Counting, columns: seq<Column>, n: int)
    requires st.Counting? && !st.inQuote && !st.equal && st.count == Wrap8(n) && AreColumns(columns)
    ensures FeedAll(st, ShowColumns(columns)) ==
      if columns == [] then st else Counting(Wrap8(n + |columns|), if columns[|columns| - 1].name.gap > 0 then ' '
        else 'a', false, false)
    decreases |columns|
  {
    if columns != [] {
      var c, rest := columns[0], columns[1..];
      FeedComma(st, c.lead, ShowWord(c.name) + ShowColumns(rest));
      var s1 := Counting(Wrap8(n + 1), ',', false, false);
      assert Wrap8(Wrap8(n) + 1) == Wrap8(n + 1);
      FeedBoth(s1, ShowWord(c.name), ShowColumns(rest));
      FeedWord(s1, c.name);
      FeedColumns(FeedAll(s1, ShowWord(c.name)), rest, n + 1);
    }
  }

  /** On a list of names the count stops at the word after the list, whatever comes later. */
  lemma CountOfColumns(columns: seq<Column>, b: string)
    requires columns != [] && AreColumns(columns) && columns[|columns| - 1].name.gap > 0 && b != "" && IsAlphanum(b[0])
    ensures Count(ShowColumnList(columns) + b) == Wrap8(|columns|)
  {
    var a := ShowColumnList(columns);
    FeedBoth(START, a, b);
    FeedBoth(START, ShowWord(columns[0].name), ShowColumns(columns[1..]));
    FeedWord(START, columns[0].name);
    FeedColumns(FeedAll(START, ShowWord(columns[0].name)), columns[1..], 1);
    FeedStopped(Wrap8(|columns|), b[1..]);
  }
}
