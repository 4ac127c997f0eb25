/** The parsers themselves, which move on through the text they share. */
module Parser {
  import opened Options
  import opened Query
  import opened QueryGrammar

  /** `char **data`: the text that is left. */
  class Input {
    var data: string

    constructor (s: string)
      ensures data == s
    {
      data := s;
    }

    method RemoveSpaces()
      modifies this
      ensures data == SkipBlanks(old(data))
    {
      while data != "" && IsBlank(data[0])
        invariant SkipBlanks(data) == SkipBlanks(old(data))
        decreases |data|
      {
        data := data[1..];
      }
    }

    /** Moves past the longest prefix whose characters satisfy `p`. */
    method PassOver(p: char -> bool) returns (size: nat)
      modifies this
      ensures size == Prefix(p, old(data)) && data == old(data)[size..]
    {
      ghost var was := data;
      size := 0;
      while data != "" && p(data[0])
        invariant size <= |was| && data == was[size..] && size + Prefix(p, data) == Prefix(p, was)
        decreases |data|
      {
        assert was[size..][1..] == was[size + 1..];
        data := data[1..];
        size := size + 1;
      }
    }

    method ParseIdent() returns (ident: Option<string>)
      modifies this
      ensures Parsed(ident, data) == Ident(old(data))
    {
      var start := data;
      var size := PassOver(IsAlphanum);
      if size == 0 { return None; }
      ident := Some(start[..size]);
      RemoveSpaces();
      if size > IDENT_MAX_LENGTH { return None; }
    }

    method ParseValue() returns (value: Option<string>)
      modifies this
      ensures Parsed(value, data) == Value(old(data))
    {
      var start := data;
      if data != "" && data[0] == QUOTE {
        data := data[1..];
        var size := PassOver(NotQuote);
        if data == "" {
          data := start;
          return None;
        }
        data := data[1..];
        assert start[1..][size..][1..] == start[size + 2..] && start[1..][..size] == start[1..size + 1];
        value := Some(start[1..size + 1]);
      } else {
        var size := PassOver(IsInt);
        if size == 0 { return None; }
        value := Some(start[..size]);
      }
      RemoveSpaces();
    }

    /** `parse_comma`, `parse_equalsign` and `parse_expected_keyword`: the given text, and the blanks after it. */
    method ParseExpected(word: string) returns (ok: bool)
      modifies this
      ensures Parsed(if ok then Some(word) else None, data) == Exactly(old(data), word)
    {
      ok := word <= data;
      if ok {
        data := data[|word|..];
        RemoveSpaces();
      }
    }

    /** `count_comma_list`: the flags and the count as the loop keeps them, the count in a signed char. */
    method CountCommaList() returns (count: int)
      ensures count == Count(data)
    {
      var last, equal, inQuote := '\0', false, false;
      count := 1;
      for p := 0 to |data|
        invariant FeedAll(START, data) == FeedAll(Counting(count, last, equal, inQuote), data[p..])
      {
        var c := data[p];
        assert data[p..][0] == c && data[p..][1..] == data[p + 1..];
        ghost var st := Counting(count, last, equal, inQuote);
        if inQuote {
          if c == QUOTE {
            inQuote := false;
            last := 'a';
          }
        } else if c == QUOTE {
          inQuote := true;
        } else if IsAlphanum(c) {
          if last == ' ' && !equal {
            FeedStopped(count, data[p + 1..]);
            return count;
          }
          last := 'a';
        } else if c == '=' {
          if equal {
            FeedStopped(-1, data[p + 1..]);
            return -1;
          }
          equal := true;
        } else if c == ' ' {
          if last == 'a' { last := ' '; }
        } else if c == ',' {
          count := Wrap8(count + 1);
          equal := false;
          last := ',';
        } else {
          FeedStopped(-1, data[p + 1..]);
          return -1;
        }
        assert Feed(st, c) == Counting(count, last, equal, inQuote);
      }
    }

    method ParseCommaList() returns (list: Option<seq<string>>, defined: bool)
      modifies this
      ensures Parsed(list, data) == NameList(old(data)) && defined == (Count(old(data)) >= 0)
    {
      hide Exactly, Ident, Count;
      var size := CountCommaList();
      defined := size >= 0;
      if size <= 0 { return None, defined; }
      var arr := new string[size];
      var ident := ParseIdent();
      if ident.None? { return None, true; }
      arr[0] := ident.value;
      assert arr[..1] == [ident.value];
      for i := 1 to size
        invariant Names(data, size - i, arr[..i]) == NameList(old(data))
      {
        ghost var got := arr[..i];
        var comma := ParseExpected(",");
        if !comma { return None, true; }
        ident := ParseIdent();
        if ident.None? { return None, true; }
        arr[i] := ident.value;
        assert arr[..i + 1] == got + [ident.value];
      }
      assert arr[..size] == arr[..];
      return Some(arr[..]), true;
    }

    /** One pair, put at place `i` of the two arrays. */
    method ParsePair(literal: bool, names: array<string>, values: array<string>, i: nat) returns (ok: bool)
      requires i < names.Length && i < values.Length && names != values
      modifies this, names, values
      ensures var pair := Pair(old(data), literal, Columns(old(names[..i]), old(values[..i])));
        pair.rest == data && pair.value == if ok then Some(Columns(names[..i + 1], values[..i + 1])) else None
    {
      ghost var got := Columns(names[..i], values[..i]);
      var name := ParseIdent();
      if name.None? { return false; }
      names[i] := name.value;
      var equal := ParseExpected("=");
      if !equal { return false; }
      var value;
      if literal { value := ParseValue(); } else { value := ParseIdent(); }
      if value.None? { return false; }
      values[i] := value.value;
      assert names[..i + 1] == got.names + [name.value] && values[..i + 1] == got.values + [value.value];
      return true;
    }

    /** `parse_addvalue_list`, and with names for values `parse_columndef_list`. */
    method ParsePairList(literal: bool) returns (list: Option<Columns>, defined: bool)
      modifies this
      ensures Parsed(list, data) == PairList(old(data), literal) && defined == (Count(old(data)) >= 0)
    {
      hide Exactly, Pair, Count;
      var size := CountCommaList();
      defined := size >= 0;
      if size <= 0 { return None, defined; }
      var names, values := new string[size], new string[size];
      assert Columns(names[..0], values[..0]) == Columns([], []);
      var ok := ParsePair(literal, names, values, 0);
      if !ok { return None, true; }
      for i := 1 to size
        invariant Pairs(data, size - i, literal, Columns(names[..i], values[..i])) == PairList(old(data), literal)
      {
        var _ := ParseExpected(",");
        ok := ParsePair(literal, names, values, i);
        if !ok { return None, true; }
      }
      assert names[..size] == names[..] && values[..size] == values[..];
      return Some(Columns(names[..], values[..])), true;
    }

    method ParseCondition() returns (cond: Option<Condition>)
      modifies this
      ensures Parsed(cond, data) == ConditionOf(old(data))
    {
      var col := ParseIdent();
      var equal := ParseExpected("=");
      var val := ParseValue();
      return if col.Some? && equal && val.Some? then Some(Condition(col.value, val.value)) else None;
    }

    method ParseSelInstr() returns (instr: Instr)
      modifies this
      ensures instr == SelOf(old(data))
      ensures forall columns, table, cond ::
        instr == Sel(columns, table, cond) <==> SelText(old(data), columns, table, cond)
    {
      BodiesExactly(data);
      hide SelText, Count, Ident, NameList, CrtOf, AddOf;
      var columns, defined := None, true;
      if data != "" && data[0] == '*' {
        columns := Some([]);
        data := data[1..];
        RemoveSpaces();
      } else {
        columns, defined := ParseCommaList();
      }
      if !defined { return Undefined; }
      assert Parsed(columns, data) == SelColumns(old(data));
      var from_ := ParseExpected("from");
      var table := ParseIdent();
      var ok, cond := columns.Some? && from_ && table.Some?, None;
      if data != "" {
        var where_ := ParseExpected("where");
        cond := ParseCondition();
        ok := ok && where_ && cond.Some?;
      }
      return if ok then Sel(columns.value, table.value, cond) else Unknown;
    }

    method ParseCrtInstr() returns (instr: Instr)
      modifies this
      ensures instr == CrtOf(old(data))
      ensures forall table, columns, types ::
        instr == Crt(table, columns, types) <==> CrtText(old(data), table, columns, types)
    {
      BodiesExactly(data);
      hide CrtText;
      var table := ParseIdent();
      var with_ := ParseExpected("with");
      var list, defined := ParsePairList(false);
      if !defined { return Undefined; }
      return if table.Some? && with_
        && list.Some? then Crt(table.value, list.value.names, list.value.values) else Unknown;
    }

    method ParseAddInstr() returns (instr: Instr)
      modifies this
      ensures instr == AddOf(old(data))
      ensures forall table, columns, values ::
        instr == Add(table, columns, values) <==> AddText(old(data), table, columns, values)
    {
      BodiesExactly(data);
      hide AddText;
      var list, defined := ParsePairList(true);
      if !defined { return Undefined; }
      var in_ := ParseExpected("in");
      var table := ParseIdent();
      return if list.Some? && in_
        && table.Some? then Add(table.value, list.value.names, list.value.values) else Unknown;
    }

    method ParseInstrType() returns (verb: Option<nat>)
      modifies this
      ensures Parsed(verb, data) == VerbFrom(old(data), 0)
    {
      for i := 0 to |VERBS|
        invariant data == old(data) && VerbFrom(data, i) == VerbFrom(old(data), 0)
      {
        if VERBS[i] <= data {
          if |VERBS[i]| == |data| || data[|VERBS[i]|] != ' ' { break; }
          data := data[|VERBS[i]|..];
          RemoveSpaces();
          return Some(i);
        }
      }
      return None;
    }
  }

  method ParseInstr(start: string) returns (instr: Instr)
    ensures instr == InstrOf(start)
    ensures forall columns, table, cond ::
      instr == Sel(columns, table, cond) <==> exists body {:trigger StatementThen(start, "sel", body)} ::
        StatementThen(start, "sel", body) && SelText(body, columns, table, cond)
    ensures forall table, columns, types ::
      instr == Crt(table, columns, types) <==> exists body {:trigger StatementThen(start, "crt", body)} ::
        StatementThen(start, "crt", body) && CrtText(body, table, columns, types)
    ensures forall table, columns, values ::
      instr == Add(table, columns, values) <==> exists body {:trigger StatementThen(start, "add", body)} ::
        StatementThen(start, "add", body) && AddText(body, table, columns, values)
  {
    InstrsExactly(start);
    var input := new Input(start);
    input.RemoveSpaces();
    var verb := input.ParseInstrType();
    match verb
    case Some(0) => instr := input.ParseSelInstr();
    case Some(4) => instr := input.ParseCrtInstr();
    case Some(3) => instr := input.ParseAddInstr();
    case _ => instr := Unknown;
  }

  // ---------------------------------------------------------------- the user's input

  predicate NotNul(c: char) { c != '\0' }

  /** The C string at the start of a buffer. */
  function Text(s: seq<char>): string {
    s[..Prefix(NotNul, s)]
  }

  function Ends(s: string): nat {
    if s == "" then 0 else (if s[0] == ';' then 1 else 0) + Ends(s[1..])
  }

  lemma {:induction false} EndsNext(s: string)
    ensures var n := Prefix(NotEnd, s); if n == |s| then Ends(s) == 0 else Ends(s) == 1 + Ends(s[n + 1..])
  {
    if s != "" && NotEnd(s[0]) {
      EndsNext(s[1..]);
      var n := Prefix(NotEnd, s[1..]);
      assert n < |s| - 1 ==> s[1..][n + 1..] == s[n + 2..];
    }
  }

  /** The buffer with every semicolon of its text made an end of string. */
  predicate Terminated(was: seq<char>, now: seq<char>, n: nat) {
    |was| == |now| && n <= |was| && forall k {:trigger now[k]} :: 0 <= k < |was| ==>
      now[k] == if k < n && was[k] == ';' then '\0' else was[k]
  }

  method CountEnds(data: array<char>) returns (size: nat)
    requires '\0' in data[..]
    ensures size == Ends(Text(data[..]))
  {
    ghost var text := Text(data[..]);
    EndOfText(data[..]);
    size := 0;
    var temp := 0;
    while data[temp] != '\0'
      invariant temp <= |text| && size + Ends(text[temp..]) == Ends(text)
      decreases |text| - temp
    {
      assert text[temp] == data[temp] && text[temp..][0] == text[temp] && text[temp..][1..] == text[temp + 1..];
      if data[temp] == ';' { size := size + 1; }
      temp := temp + 1;
    }
    assert text[temp..] == "";
  }

  lemma EndOfText(s: seq<char>)
    requires '\0' in s
    ensures |Text(s)| < |s| && s[|Text(s)|] == '\0' && forall k {:trigger s[k]} :: 0 <= k < |Text(s)| ==>
      s[k] == Text(s)[k] && s[k] != '\0'
  {}

  /** The next semicolon. */
  method NextEnd(data: array<char>, token: nat, ghost was: seq<char>, ghost text: string) returns (semicolon: nat)
    requires '\0' in was && text == Text(was) && token <= |text| && Ends(text[token..]) > 0
      && Terminated(was, data[..], token)
    ensures semicolon == token + Prefix(NotEnd, text[token..]) < |text|
  {
    EndsNext(text[token..]);
    EndOfText(was);
    semicolon := token;
    while data[semicolon] != ';'
      invariant token <= semicolon < |text|
        && semicolon + Prefix(NotEnd, text[semicolon..]) == token + Prefix(NotEnd, text[token..]) < |text|
      decreases |text| - semicolon
    {
      assert data[..][semicolon] == text[semicolon] && text[semicolon..][0] == text[semicolon]
        && text[semicolon..][1..] == text[semicolon + 1..];
      semicolon := semicolon + 1;
    }
    assert data[..][semicolon] == text[semicolon] && text[semicolon..][0] == text[semicolon];
  }

  /** With the semicolon overwritten, the C string from the token on is one instruction's text. */
  lemma TokenText(was: seq<char>, before: seq<char>, now: seq<char>, text: string, token: nat, semicolon: nat)
    requires '\0' in was && text == Text(was) && token <= |text| && Terminated(was, before, token)
    requires semicolon == token + Prefix(NotEnd, text[token..]) < |text| && now == before[semicolon := '\0']
      && semicolon < |before|
    ensures Terminated(was, now, semicolon + 1)
    ensures Ends(text[token..]) == 1 + Ends(text[semicolon + 1..])
    ensures var instr := InstrOf(Text(now[token..]));
      Instructions(text[token..]) == [instr] + if instr.Undefined? then [] else Instructions(text[semicolon + 1..])
  {
    hide *;
    OneMoreEnded(was, before, now, text, token, semicolon);
    NextInstr(text, token, semicolon);
    TextUpTo(now[token..], text[token..semicolon]);
  }

  lemma OneMoreEnded(was: seq<char>, before: seq<char>, now: seq<char>, text: string, token: nat, semicolon: nat)
    requires '\0' in was && text == Text(was) && token <= |text| && Terminated(was, before, token)
    requires semicolon == token + Prefix(NotEnd, text[token..]) < |text| && now == before[semicolon := '\0']
      && semicolon < |before|
    ensures Terminated(was, now, semicolon + 1) && token <= |now|
    ensures var s, a := now[token..], text[token..semicolon]; |a| < |s| && s[..|a|] == a && s[|a|] == '\0' && '\0' !in a
  {
    EndOfText(was);
    var rest, n := text[token..], semicolon - token;
    hide Text, Prefix;
    assert forall k {:trigger text[k]} :: token <= k < semicolon ==> text[k] == rest[k - token] && text[k] != ';';
    assert rest[n] == text[semicolon] == ';';
  }

  lemma NextInstr(text: string, token: nat, semicolon: nat)
    requires token <= |text| && semicolon == token + Prefix(NotEnd, text[token..]) < |text|
    ensures Ends(text[token..]) == 1 + Ends(text[semicolon + 1..])
    ensures var instr := InstrOf(text[token..semicolon]);
      Instructions(text[token..]) == [instr] + if instr.Undefined? then [] else Instructions(text[semicolon + 1..])
  {
    hide *;
    EndsNext(text[token..]);
    FirstInstr(text[token..]);
    Slices(text, token, semicolon);
  }

  lemma FirstInstr(s: string)
    requires Prefix(NotEnd, s) < |s|
    ensures var n := Prefix(NotEnd, s);
      Instructions(s) == [InstrOf(s[..n])] + if InstrOf(s[..n]).Undefined? then [] else Instructions(s[n + 1..])
  {
    hide InstrOf;
  }

  lemma Slices(s: string, i: nat, j: nat)
    requires i <= j < |s|
    ensures s[i..][..j - i] == s[i..j] && s[i..][j - i + 1..] == s[j + 1..]
  {}

  lemma TextUpTo(s: seq<char>, a: string)
    requires |a| < |s| && s[..|a|] == a && s[|a|] == '\0' && '\0' !in a
    ensures Text(s) == a
  {
    assert All(NotNul, a) && s == a + s[|a|..];
    PrefixIs(NotNul, a, s[|a|..]);
  }

  lemma NothingEnded(was: seq<char>)
    requires '\0' in was
    ensures Terminated(was, was, 0) && |Text(was)| < |was|
  {}

  /** After the last semicolon nothing is read or written. */
  lemma LastText(was: seq<char>, now: seq<char>, text: string, token: nat)
    requires '\0' in was && text == Text(was) && token <= |text| && Terminated(was, now, token)
      && Ends(text[token..]) == 0
    ensures Instructions(text[token..]) == [] && Terminated(was, now, |text|)
  {
    EndOfText(was);
    var rest := text[token..];
    EndsNext(rest);
    assert forall k {:trigger text[k]} :: token <= k < |text| ==> text[k] == rest[k - token] && text[k] != ';';
  }

  /** Every semicolon ends an instruction. The first `done` of them have been read: all, unless the last of those is
      undefined. */
  method ParseUserInput(data: array<char>) returns (instrs: array<Instr>, done: nat)
    requires '\0' in data[..]
    modifies data
    ensures fresh(instrs) && done <= instrs.Length == Ends(Text(old(data[..])))
      && instrs[..done] == Instructions(Text(old(data[..])))
    ensures Undefined !in instrs[..done] ==>
      done == instrs.Length && Terminated(old(data[..]), data[..], |Text(old(data[..]))|)
  {
    hide *;
    ghost var was, text := data[..], Text(data[..]);
    var size := CountEnds(data);
    instrs := new Instr[size];
    var token := 0;
    assert text[0..] == text;
    NothingEnded(was);
    for i := 0 to size
      invariant token <= |text| && i + Ends(text[token..]) == size
      invariant Terminated(was, data[..], token)
      invariant instrs[..i] + Instructions(text[token..]) == Instructions(text)
    {
      ghost var got := instrs[..i];
      ghost var before := data[..];
      var semicolon := NextEnd(data, token, was, text);
      data[semicolon] := '\0';
      assert data[..] == before[semicolon := '\0'] && data[token..] == data[..][token..];
      TokenText(was, before, data[..], text, token, semicolon);
      instrs[i] := ParseInstr(Text(data[token..]));
      assert instrs[..i + 1] == got + [instrs[i]];
      if instrs[i].Undefined? {
        assert instrs[..i + 1][i].Undefined?;
        return instrs, i + 1;
      }
      token := semicolon + 1;
    }
    assert instrs[..size] == instrs[..];
    LastText(was, data[..], text, token);
    done := size;
  }
}
