/** The query language: what each parser takes from the text in front of it, as functions on the rest of the text. */
module Query {
  import opened Options

  datatype Condition = Condition(col: string, val: string)
  /** A selection without columns means all of them. Undefined stands for what the parser does when a list's count is
      negative: it asks for a negative number of pointers, gets none, and stores the first name through a null
      pointer. */
  datatype Instr =
    | Sel(columns: seq<string>, table: string, cond: Option<Condition>)
    | Crt(table: string, columns: seq<string>, types: seq<string>)
    | Add(table: string, columns: seq<string>, values: seq<string>)
    | Unknown
    | Undefined

  const IDENT_MAX_LENGTH: nat := 20
  const QUOTE: char := '\"'

  predicate IsInt(c: char) { '0' <= c <= '9' }
  predicate IsAlphanum(c: char) { 'a' <= c <= 'z' || 'A' <= c <= 'Z' || '0' <= c <= '9' }
  predicate IsBlank(c: char) { c == ' ' || c == '\t' || c == '\n' }
  predicate NotQuote(c: char) { c != QUOTE }
  predicate NotEnd(c: char) { c != ';' }

  /** What a parser returns, none for a failure, and the text it leaves. */
  datatype Parsed<T> = Parsed(value: Option<T>, rest: string)

  /** The length of the longest prefix whose characters satisfy `p`. */
  function Prefix(p: char -> bool, s: string): (n: nat)
    ensures n <= |s| && (n < |s| ==> !p(s[n]))
    ensures forall i {:trigger s[i]} :: 0 <= i < n ==> p(s[i])
  {
    if s != "" && p(s[0]) then 1 + Prefix(p, s[1..]) else 0
  }

  predicate All(p: char -> bool, s: string) { forall i {:trigger s[i]} :: 0 <= i < |s| ==> p(s[i]) }

  lemma {:induction false} PrefixIs(p: char -> bool, a: string, b: string)
    requires All(p, a) && (b == "" || !p(b[0]))
    ensures Prefix(p, a + b) == |a|
  {
    if a == "" {
      assert a + b == b;
    } else {
      assert (a + b)[0] == a[0] && (a + b)[1..] == a[1..] + b;
      assert All(p, a[1..]);
      PrefixIs(p, a[1..], b);
    }
  }

  function SkipBlanks(s: string): (r: string)
    ensures r == "" || !IsBlank(r[0])
    ensures forall c {:trigger c in r} :: c in r ==> c in s
  {
    if s != "" && IsBlank(s[0]) then SkipBlanks(s[1..]) else s
  }

  function Ident(s: string): Parsed<string> {
    var n := Prefix(IsAlphanum, s);
    if n == 0 then Parsed(None, s)
    else Parsed(if n > IDENT_MAX_LENGTH then None else Some(s[..n]), SkipBlanks(s[n..]))
  }

  function Value(s: string): Parsed<string> {
    if s != "" && s[0] == QUOTE then
      var n := Prefix(NotQuote, s[1..]);
      if n == |s| - 1 then Parsed(None, s) else Parsed(Some(s[1..n + 1]), SkipBlanks(s[n + 2..]))
    else
      var n := Prefix(IsInt, s);
      if n == 0 then Parsed(None, s) else Parsed(Some(s[..n]), SkipBlanks(s[n..]))
  }

  /** A given piece of text: a comma, an equal sign, a keyword. */
  function Exactly(s: string, word: string): Parsed<string> {
    if word <= s then Parsed(Some(word), SkipBlanks(s[|word|..])) else Parsed(None, s)
  }

  // ---------------------------------------------------------------- counting a list

  /** A signed char. */
  function Wrap8(n: int): (r: int)
    ensures -128 <= r < 128 && (r - n) % 256 == 0
  {
    (n + 128) % 256 - 128
  }

  /** The flags of `count_comma_list`, or its early result. */
  datatype Counting = Counting(count: int, last: char, equal: bool, inQuote: bool) | Stopped(result: int)

  function Feed(st: Counting, c: char): Counting {
    match st
    case Stopped(_) => st
    case Counting(count, last, equal, inQuote) =>
      if inQuote then (if c != QUOTE then st else Counting(count, 'a', equal, false))
      else if c == QUOTE then Counting(count, last, equal, true)
      else if IsAlphanum(c) then (if last == ' ' && !equal then Stopped(count) else Counting(count, 'a', equal, false))
      else if c == '=' then (if equal then Stopped(-1) else Counting(count, last, true, false))
      else if c == ' ' then Counting(count, if last == 'a' then ' ' else last, equal, false)
      else if c == ',' then Counting(Wrap8(count + 1), ',', false, false)
      else Stopped(-1)
  }

  function FeedAll(st: Counting, s: string): Counting
    decreases |s|
  {
    if s == "" then st else FeedAll(Feed(st, s[0]), s[1..])
  }

  function Result(st: Counting): int {
    if st.Stopped? then st.result else st.count
  }

  /** Once the count has stopped, nothing after it matters. */
  lemma {:induction false} FeedStopped(r: int, b: string)
    ensures FeedAll(Stopped(r), b) == Stopped(r)
    decreases |b|
  {
    if b != "" { FeedStopped(r, b[1..]); }
  }

  const START: Counting := Counting(1, '\0', false, false)

  function Count(s: string): int {
    Result(FeedAll(START, s))
  }

  // ---------------------------------------------------------------- lists

  /** `n` more names, a comma before each. */
  function Names(s: string, n: nat, got: seq<string>): Parsed<seq<string>>
    decreases n
  {
    if n == 0 then Parsed(Some(got), s) else
    var comma := Exactly(s, ",");
    if comma.value.None? then Parsed(None, comma.rest) else
    var name := Ident(comma.rest);
    if name.value.None? then Parsed(None, name.rest) else Names(name.rest, n - 1, got + [name.value.value])
  }

  /** As many names as were counted; a count of zero is a failure, and for a negative one see Undefined. */
  function NameList(s: string): Parsed<seq<string>> {
    var n := Count(s);
    if n <= 0 then Parsed(None, s) else
    var name := Ident(s);
    if name.value.None? then Parsed(None, name.rest) else Names(name.rest, n - 1, [name.value.value])
  }

  /** The two arrays of a list of pairs. */
  datatype Columns = Columns(names: seq<string>, values: seq<string>)

  function Grown(got: Columns, name: string, value: string): Columns {
    Columns(got.names + [name], got.values + [value])
  }

  /** A name, an equal sign, and a value, or in a definition another name. */
  function Pair(s: string, literal: bool, got: Columns): Parsed<Columns> {
    var name := Ident(s);
    if name.value.None? then Parsed(None, name.rest) else
    var equal := Exactly(name.rest, "=");
    if equal.value.None? then Parsed(None, equal.rest) else
    var value := if literal then Value(equal.rest) else Ident(equal.rest);
    if value.value.None? then Parsed(None, value.rest)
      else Parsed(Some(Grown(got, name.value.value, value.value.value)), value.rest)
  }

  /** `n` more pairs; a comma before one is skipped but not demanded. */
  function Pairs(s: string, n: nat, literal: bool, got: Columns): Parsed<Columns>
    decreases n
  {
    if n == 0 then Parsed(Some(got), s) else
    var pair := Pair(Exactly(s, ",").rest, literal, got);
    if pair.value.None? then pair else Pairs(pair.rest, n - 1, literal, pair.value.value)
  }

  function PairList(s: string, literal: bool): Parsed<Columns> {
    var n := Count(s);
    if n <= 0 then Parsed(None, s) else
    var pair := Pair(s, literal, Columns([], []));
    if pair.value.None? then pair else Pairs(pair.rest, n - 1, literal, pair.value.value)
  }

  // ---------------------------------------------------------------- instructions

  function ConditionOf(s: string): Parsed<Condition> {
    var col := Ident(s);
    var equal := Exactly(col.rest, "=");
    var val := Value(equal.rest);
    Parsed(if col.value.None? || equal.value.None?
      || val.value.None? then None else Some(Condition(col.value.value, val.value.value)), val.rest)
  }

  function SelColumns(s: string): Parsed<seq<string>> {
    if "*" <= s then Parsed(Some([]), SkipBlanks(s[1..])) else NameList(s)
  }

  function SelOf(s: string): Instr {
    var columns := SelColumns(s);
    var from_ := Exactly(columns.rest, "from");
    var table := Ident(from_.rest);
    var where_ := Exactly(table.rest, "where");
    var cond := ConditionOf(where_.rest);
    if !("*" <= s) && Count(s) < 0 then Undefined
    else if columns.value.None? || from_.value.None? || table.value.None? then Unknown
    else if table.rest == "" then Sel(columns.value.value, table.value.value, None)
    else if where_.value.None? || cond.value.None? then Unknown
    else Sel(columns.value.value, table.value.value, Some(cond.value.value))
  }

  function CrtOf(s: string): Instr {
    var table := Ident(s);
    var with_ := Exactly(table.rest, "with");
    var list := PairList(with_.rest, false);
    if Count(with_.rest) < 0 then Undefined
    else if table.value.None? || with_.value.None? || list.value.None? then Unknown
    else Crt(table.value.value, list.value.value.names, list.value.value.values)
  }

  function AddOf(s: string): Instr {
    var list := PairList(s, true);
    var in_ := Exactly(list.rest, "in");
    var table := Ident(in_.rest);
    if Count(s) < 0 then Undefined
    else if list.value.None? || in_.value.None? || table.value.None? then Unknown
    else Add(table.value.value, list.value.value.names, list.value.value.values)
  }

  const VERBS: seq<string> := ["sel", "del", "upd", "add", "crt", "drop"]

  /** The first word of the table that the text starts with, if a space follows it. */
  function VerbFrom(s: string, i: nat): Parsed<nat>
    requires i <= |VERBS|
    decreases |VERBS| - i
  {
    if i == |VERBS| then Parsed(None, s)
    else if VERBS[i] <= s then
      if VERBS[i] + " " <= s then Parsed(Some(i), SkipBlanks(s[|VERBS[i]|..])) else Parsed(None, s)
    else VerbFrom(s, i + 1)
  }

  function InstrOf(s: string): Instr {
    var verb := VerbFrom(SkipBlanks(s), 0);
    match verb.value
    case Some(0) => SelOf(verb.rest)
    case Some(3) => AddOf(verb.rest)
    case Some(4) => CrtOf(verb.rest)
    case _ => Unknown
  }

  /** One instruction for each semicolon, up to the first undefined one; what follows the last semicolon is dropped. */
  function Instructions(s: string): seq<Instr> {
    var n := Prefix(NotEnd, s);
    if n == |s| then [] else [InstrOf(s[..n])] + if InstrOf(s[..n]).Undefined? then [] else Instructions(s[n + 1..])
  }
}
