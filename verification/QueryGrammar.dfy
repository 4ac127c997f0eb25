/** Which texts are read as which instructions: the words in them, in order, without reference to the parsers. */
module QueryGrammar {
  import opened Options
  import opened Query

  // ---------------------------------------------------------------- words

  /** The characters of words, of numbers and between words, by their ASCII codes. */
  lemma Classes(c: char)
    ensures IsAlphanum(c) <==> 48 <= c as int <= 57 || 65 <= c as int <= 90 || 97 <= c as int <= 122
    ensures IsInt(c) <==> 48 <= c as int <= 57
    ensures IsBlank(c) <==> c as int in {9, 10, 32}
    ensures NotQuote(c) <==> c as int != 34
    ensures NotEnd(c) <==> c as int != 59
  {}

  /** The text is `w`, then blanks, then `r`. */
  ghost predicate Follows(s: string, w: string, r: string) {
    (r == "" || !IsBlank(r[0])) && exists b: string {:trigger All(IsBlank, b)} :: All(IsBlank, b) && s == w + (b + r)
  }

  /** An identifier: 1 to 20 letters and digits, as many as there are, then blanks. */
  ghost predicate NameThen(s: string, w: string, r: string) {
    && 1 <= |w| <= 20 && All(IsAlphanum, w) && Follows(s, w, r)
    && (|w| < |s| ==> !IsAlphanum(s[|w|]))
  }

  /** A string in quotes, or as many digits as there are, then blanks. */
  ghost predicate ValueThen(s: string, v: string, r: string) {
    || (All(NotQuote, v) && Follows(s, [QUOTE] + v + [QUOTE], r))
    || (v != "" && All(IsInt, v) && Follows(s, v, r) && (|v| < |s| ==> !IsInt(s[|v|])))
  }

  lemma {:induction false} SkippedAre(s: string) returns (b: string)
    ensures All(IsBlank, b) && s == b + SkipBlanks(s)
  {
    if s != "" && IsBlank(s[0]) {
      var c := SkippedAre(s[1..]);
      b := [s[0]] + c;
      assert s == [s[0]] + s[1..];
    } else {
      b := "";
      assert s == "" + s;
    }
  }

  lemma {:induction false} SkipsAll(b: string, r: string)
    requires All(IsBlank, b) && (r == "" || !IsBlank(r[0]))
    ensures SkipBlanks(b + r) == r
  {
    if b == "" {
      assert b + r == r;
    } else {
      assert (b + r)[0] == b[0] && (b + r)[1..] == b[1..] + r;
      assert All(IsBlank, b[1..]);
      SkipsAll(b[1..], r);
    }
  }

  lemma FollowsExactly(s: string, w: string, r: string)
    ensures Follows(s, w, r) <==> w <= s && r == SkipBlanks(s[|w|..])
  {
    if Follows(s, w, r) {
      var b: string :| All(IsBlank, b) && s == w + (b + r);
      assert s[..|w|] == w && s[|w|..] == b + r;
      SkipsAll(b, r);
    }
    if w <= s && r == SkipBlanks(s[|w|..]) {
      var b := SkippedAre(s[|w|..]);
      assert s == w + s[|w|..];
    }
  }

  lemma WordExactly(s: string, w: string, r: string)
    ensures Exactly(s, w) == Parsed(Some(w), r) <==> Follows(s, w, r)
  {
    FollowsExactly(s, w, r);
    hide Follows;
  }

  lemma {:induction false} PrefixExactly(p: char -> bool, s: string, n: nat)
    requires n <= |s|
    ensures n == Prefix(p, s) <==> All(p, s[..n]) && (n < |s| ==> !p(s[n]))
  {
    if s != "" && n > 0 {
      PrefixExactly(p, s[1..], n - 1);
      assert s[1..][..n - 1] == s[..n][1..];
      if All(p, s[..n]) {
        assert p(s[..n][0]);
        assert forall i {:trigger s[..n][1..][i]} :: 0 <= i < n - 1 ==> s[..n][1..][i] == s[..n][i + 1];
      }
      if All(p, s[..n][1..]) && p(s[0]) {
        forall i {:trigger s[..n][i]} | 0 <= i < n ensures p(s[..n][i]) {
          if i > 0 { assert s[..n][1..][i - 1] == s[..n][i]; }
        }
      }
    }
  }

  lemma NameExactly(s: string, w: string, r: string)
    ensures Ident(s) == Parsed(Some(w), r) <==> NameThen(s, w, r)
  {
    FollowsExactly(s, w, r);
    hide Follows;
    if w <= s { PrefixExactly(IsAlphanum, s, |w|); }
    hide All, SkipBlanks;
    assert w <= s ==> s[..|w|] == w;
  }

  lemma ValueExactly(s: string, v: string, r: string)
    ensures Value(s) == Parsed(Some(v), r) <==> ValueThen(s, v, r)
  {
    if s != "" && s[0] == QUOTE {
      QuotedExactly(s, v, r);
    } else {
      FollowsExactly(s, v, r);
      FollowsExactly(s, [QUOTE] + v + [QUOTE], r);
      hide Follows;
      if v <= s { PrefixExactly(IsInt, s, |v|); }
      assert !([QUOTE] + v + [QUOTE] <= s) by { StartsQuoted(s, v); }
      hide All, SkipBlanks;
      assert v <= s ==> s[..|v|] == v;
    }
  }

  lemma StartsQuoted(s: string, v: string)
    ensures [QUOTE] + v + [QUOTE] <= s ==> s != "" && s[0] == QUOTE
  {
    assert ([QUOTE] + v + [QUOTE])[0] == QUOTE;
  }

  lemma QuotedExactly(s: string, v: string, r: string)
    requires s != "" && s[0] == QUOTE
    ensures Value(s) == Parsed(Some(v), r) <==> ValueThen(s, v, r)
  {
    var q := [QUOTE] + v + [QUOTE];
    FollowsExactly(s, q, r);
    FollowsExactly(s, v, r);
    NoDigits(s, v);
    hide Follows;
    QuotedPlace(s, v);
    hide All, SkipBlanks, Prefix;
  }

  lemma NoDigits(s: string, v: string)
    requires s != "" && s[0] == QUOTE
    ensures v != "" && All(IsInt, v) ==> !(v <= s)
  {
    FirstOf(s, v);
  }

  lemma FirstOf(s: string, v: string)
    ensures v != "" && v <= s ==> s[0] == v[0]
  {}

  /** Where the closing quote is. */
  lemma QuotedPlace(s: string, v: string)
    requires s != "" && s[0] == QUOTE
    ensures var n := Prefix(NotQuote, s[1..]);
      n < |s| - 1 && s[1..n + 1] == v <==> All(NotQuote, v) && [QUOTE] + v + [QUOTE] <= s
    ensures [QUOTE] + v + [QUOTE] <= s && All(NotQuote, v) ==> |v| == Prefix(NotQuote, s[1..])
  {
    var t, q := s[1..], [QUOTE] + v + [QUOTE];
    var n := Prefix(NotQuote, t);
    PrefixExactly(NotQuote, t, n);
    if n < |t| && s[1..n + 1] == v {
      assert t[..n] == v && s[n + 1] == t[n] == QUOTE;
      assert s[..n + 2] == q;
    }
    if q <= s {
      assert s[..|q|] == q;
      assert t[..|v|] == q[1..|v| + 1] == v && t[|v|] == q[|v| + 1] == QUOTE;
      PrefixExactly(NotQuote, t, |v|);
    }
  }

  // ---------------------------------------------------------------- lists

  /** More names, each behind a comma. */
  ghost predicate MoreNames(s: string, names: seq<string>, r: string)
    decreases names
  {
    if names == [] then r == s
    else exists r1, r2 {:trigger Follows(s, ",", r1), NameThen(r1, names[0], r2)} ::
      Follows(s, ",", r1) && NameThen(r1, names[0], r2) && MoreNames(r2, names[1..], r)
  }

  /** As many names as are counted, commas between them. */
  ghost predicate NameListThen(s: string, names: seq<string>, r: string) {
    && names != [] && Count(s) == |names|
    && exists r1 {:trigger NameThen(s, names[0], r1)} :: NameThen(s, names[0], r1) && MoreNames(r1, names[1..], r)
  }

  /** A name, an equal sign and a value, or where types are named another name. */
  ghost predicate PairThen(s: string, literal: bool, name: string, value: string, r: string) {
    exists r1, r2 {:trigger NameThen(s, name, r1), Follows(r1, "=", r2)} ::
      NameThen(s, name, r1) && Follows(r1, "=", r2)
        && if literal then ValueThen(r2, value, r) else NameThen(r2, value, r)
  }

  /** The text is past `w`, where `w` stands in front. */
  ghost predicate MayFollow(s: string, w: string, r: string) {
    if w <= s then Follows(s, w, r) else r == s
  }

  /** More pairs, each behind a comma or not. */
  ghost predicate MorePairs(s: string, literal: bool, names: seq<string>, values: seq<string>, r: string)
    decreases names
  {
    if names == [] || values == [] then names == values == [] && r == s
    else exists r1, r2 {:trigger PairThen(r1, literal, names[0], values[0], r2)} ::
      MayFollow(s, ",", r1) && PairThen(r1, literal, names[0], values[0], r2)
      && MorePairs(r2, literal, names[1..], values[1..], r)
  }

  ghost predicate PairListThen(s: string, literal: bool, names: seq<string>, values: seq<string>, r: string) {
    && names != [] && values != [] && Count(s) == |names|
    && exists r1 {:trigger PairThen(s, literal, names[0], values[0], r1)} ::
         PairThen(s, literal, names[0], values[0], r1) && MorePairs(r1, literal, names[1..], values[1..], r)
  }

  lemma NamesStep(s: string, n: nat, got: seq<string>)
    requires n > 0
    ensures var comma := Exactly(s, ",");
      var name := Ident(comma.rest);
      Names(s, n, got) == if comma.value.Some?
        && name.value.Some? then Names(name.rest, n - 1, got + [name.value.value])
        else Parsed(None, if comma.value.Some? then name.rest else comma.rest)
  {
    hide Exactly, Ident;
  }

  lemma CommaGiven(s: string)
    ensures var comma := Exactly(s, ","); comma.value.Some? ==> Follows(s, ",", comma.rest)
  {
    WordExactly(s, ",", Exactly(s, ",").rest);
    hide Follows, SkipBlanks;
  }

  lemma NameGiven(s: string)
    ensures var name := Ident(s); name.value.Some? ==> NameThen(s, name.value.value, name.rest)
  {
    var name := Ident(s);
    if name.value.Some? { NameExactly(s, name.value.value, name.rest); }
  }

  lemma {:induction false} NamesRead(s: string, got: seq<string>, names: seq<string>, r: string)
    requires MoreNames(s, names, r)
    ensures Names(s, |names|, got) == Parsed(Some(got + names), r)
    decreases names
  {
    hide Exactly, Ident, Follows, NameThen;
    if names == [] {
      assert got + names == got;
    } else {
      var r1, r2 :| Follows(s, ",", r1) && NameThen(r1, names[0], r2) && MoreNames(r2, names[1..], r);
      WordExactly(s, ",", r1);
      NameExactly(r1, names[0], r2);
      assert (got + [names[0]]) + names[1..] == got + names;
      NamesRead(r2, got + [names[0]], names[1..], r);
    }
  }

  /** What `n` names came to. */
  lemma {:induction false} NamesGiven(s: string, n: nat, got: seq<string>)
    ensures var p := Names(s, n, got);
      p.value.Some? ==> exists names {:trigger MoreNames(s, names, p.rest)} ::
        |names| == n && MoreNames(s, names, p.rest) && p.value.value == got + names
    decreases n
  {
    hide Exactly, Ident, Follows, NameThen;
    var p := Names(s, n, got);
    if n == 0 {
      assert MoreNames(s, [], s) && got == got + [];
    } else if p.value.Some? {
      NamesStep(s, n, got);
      CommaGiven(s);
      var comma := Exactly(s, ",");
      NameGiven(comma.rest);
      var name := Ident(comma.rest);
      var got' := got + [name.value.value];
      NamesGiven(name.rest, n - 1, got');
      var more :| |more| == n - 1 && MoreNames(name.rest, more, p.rest) && p.value.value == got' + more;
      MoreName(s, name.value.value, more, comma.rest, name.rest, p.rest);
      assert got' + more == got + ([name.value.value] + more);
    }
  }

  lemma MoreName(s: string, name: string, names: seq<string>, r1: string, r2: string, r: string)
    requires Follows(s, ",", r1) && NameThen(r1, name, r2) && MoreNames(r2, names, r)
    ensures MoreNames(s, [name] + names, r)
  {
    hide Follows, NameThen;
    var all := [name] + names;
    assert all[0] == name && all[1..] == names;
    assert NameThen(r1, all[0], r2) && MoreNames(r2, all[1..], r);
  }

  lemma NameListExactly(s: string, names: seq<string>, r: string)
    ensures NameList(s) == Parsed(Some(names), r) <==> NameListThen(s, names, r)
  {
    hide Count, Ident, NameThen, MoreNames, Names;
    var n, name := Count(s), Ident(s);
    if NameListThen(s, names, r) {
      var r1 :| NameThen(s, names[0], r1) && MoreNames(r1, names[1..], r);
      NameExactly(s, names[0], r1);
      NamesRead(r1, [names[0]], names[1..], r);
      assert [names[0]] + names[1..] == names;
    }
    if NameList(s) == Parsed(Some(names), r) {
      NameGiven(s);
      var w := name.value.value;
      NamesGiven(name.rest, n - 1, [w]);
      var more :| |more| == n - 1 && MoreNames(name.rest, more, r) && names == [w] + more;
      assert names[0] == w && names[1..] == more;
      assert NameThen(s, names[0], name.rest) && MoreNames(name.rest, names[1..], r);
    }
  }

  // ---------------------------------------------------------------- pairs

  lemma EqualGiven(s: string)
    ensures var equal := Exactly(s, "="); equal.value.Some? ==> Follows(s, "=", equal.rest)
  {
    WordExactly(s, "=", Exactly(s, "=").rest);
    hide Follows, SkipBlanks;
  }

  lemma ValueGiven(s: string)
    ensures var value := Value(s); value.value.Some? ==> ValueThen(s, value.value.value, value.rest)
  {
    var value := Value(s);
    if value.value.Some? { ValueExactly(s, value.value.value, value.rest); }
  }

  lemma PairRead(s: string, literal: bool, got: Columns, name: string, value: string, r: string)
    requires PairThen(s, literal, name, value, r)
    ensures Pair(s, literal, got) == Parsed(Some(Grown(got, name, value)), r)
  {
    hide Exactly, Ident, Value, Follows, NameThen, ValueThen;
    var r1, r2 :| NameThen(s, name, r1) && Follows(r1, "=", r2)
      && if literal then ValueThen(r2, value, r) else NameThen(r2, value, r);
    NameExactly(s, name, r1);
    WordExactly(r1, "=", r2);
    if literal { ValueExactly(r2, value, r); } else { NameExactly(r2, value, r); }
  }

  lemma PairGiven(s: string, literal: bool, got: Columns)
    ensures var p := Pair(s, literal, got);
      p.value.Some? ==> exists name, value {:trigger PairThen(s, literal, name, value, p.rest)} ::
        PairThen(s, literal, name, value, p.rest) && p.value.value == Grown(got, name, value)
  {
    hide Exactly, Ident, Value, Follows, NameThen, ValueThen;
    var p := Pair(s, literal, got);
    if p.value.Some? {
      var name := Ident(s);
      var equal := Exactly(name.rest, "=");
      NameGiven(s);
      EqualGiven(name.rest);
      NameGiven(equal.rest);
      ValueGiven(equal.rest);
      var value := if literal then Value(equal.rest) else Ident(equal.rest);
      assert PairThen(s, literal, name.value.value, value.value.value, p.rest);
    }
  }

  lemma MayFollowExactly(s: string, w: string, r: string)
    ensures MayFollow(s, w, r) <==> r == Exactly(s, w).rest
  {
    FollowsExactly(s, w, r);
    hide Follows, SkipBlanks;
  }

  lemma {:induction false} PairsRead(s: string, literal: bool, got: Columns, list: Columns, r: string)
    requires MorePairs(s, literal, list.names, list.values, r)
    ensures Pairs(s, |list.names|, literal, got)
      == Parsed(Some(Columns(got.names + list.names, got.values + list.values)), r)
    decreases list.names
  {
    hide Exactly, Pair, MayFollow, PairThen;
    if list.names == [] || list.values == [] {
      assert got.names + list.names == got.names && got.values + list.values == got.values;
    } else {
      var name, value := list.names[0], list.values[0];
      var r1, r2 :| MayFollow(s, ",", r1) && PairThen(r1, literal, name, value, r2)
        && MorePairs(r2, literal, list.names[1..], list.values[1..], r);
      MayFollowExactly(s, ",", r1);
      PairRead(r1, literal, got, name, value, r2);
      var got' := Grown(got, name, value);
      assert got'.names + list.names[1..] == got.names + list.names;
      assert got'.values + list.values[1..] == got.values + list.values;
      PairsRead(r2, literal, got', Columns(list.names[1..], list.values[1..]), r);
    }
  }

  lemma {:induction false} PairsGiven(s: string, n: nat, literal: bool, got: Columns)
    ensures var p := Pairs(s, n, literal, got);
      p.value.Some? ==> exists names, values {:trigger MorePairs(s, literal, names, values, p.rest)} ::
        |names| == n && MorePairs(s, literal, names, values, p.rest)
        && p.value.value == Columns(got.names + names, got.values + values)
    decreases n
  {
    hide Exactly, Pair, MayFollow, PairThen, MorePairs, Grown;
    var p := Pairs(s, n, literal, got);
    if n == 0 {
      NoMorePairs(s, literal, got);
    } else if p.value.Some? {
      var r1 := Exactly(s, ",").rest;
      MayFollowExactly(s, ",", r1);
      PairGiven(r1, literal, got);
      var pair := Pair(r1, literal, got);
      var name, value :| PairThen(r1, literal, name, value, pair.rest)
        && pair.value.value == Grown(got, name, value);
      PairsGiven(pair.rest, n - 1, literal, pair.value.value);
      var names, values :| |names| == n - 1 && MorePairs(pair.rest, literal, names, values, p.rest)
        && p.value.value == Columns(pair.value.value.names + names, pair.value.value.values + values);
      MorePair(s, literal, name, value, names, values, r1, pair.rest, p.rest);
      GrownBy(got, name, value, names, values);
    }
  }

  lemma NoMorePairs(s: string, literal: bool, got: Columns)
    ensures MorePairs(s, literal, [], [], s) && got == Columns(got.names + [], got.values + [])
  {
    hide MayFollow, PairThen;
  }

  lemma GrownBy(got: Columns, name: string, value: string, names: seq<string>, values: seq<string>)
    ensures var got' := Grown(got, name, value);
      Columns(got'.names + names, got'.values + values)
        == Columns(got.names + ([name] + names), got.values + ([value] + values))
  {
    assert got.names + ([name] + names) == got.names + [name] + names;
    assert got.values + ([value] + values) == got.values + [value] + values;
  }

  lemma MorePair(s: string, literal: bool, name: string, value: string, names: seq<string>, values: seq<string>,
                 r1: string, r2: string, r: string)
    requires MayFollow(s, ",", r1) && PairThen(r1, literal, name, value, r2) && MorePairs(r2, literal, names, values, r)
    ensures MorePairs(s, literal, [name] + names, [value] + values, r)
  {
    hide MayFollow, PairThen;
    var ns, vs := [name] + names, [value] + values;
    assert ns[0] == name && vs[0] == value && ns[1..] == names && vs[1..] == values;
    assert PairThen(r1, literal, ns[0], vs[0], r2) && MorePairs(r2, literal, ns[1..], vs[1..], r);
  }

  lemma PairListRead(s: string, literal: bool, names: seq<string>, values: seq<string>, r: string)
    requires PairListThen(s, literal, names, values, r)
    ensures PairList(s, literal) == Parsed(Some(Columns(names, values)), r)
  {
    hide Count, Pair, PairThen, MorePairs, Pairs;
    var none := Columns([], []);
    var r1 :| PairThen(s, literal, names[0], values[0], r1) && MorePairs(r1, literal, names[1..], values[1..], r);
    PairRead(s, literal, none, names[0], values[0], r1);
    PairsRead(r1, literal, Grown(none, names[0], values[0]), Columns(names[1..], values[1..]), r);
    assert [names[0]] + names[1..] == names && [values[0]] + values[1..] == values;
    assert Grown(none, names[0], values[0]) == Columns([names[0]], [values[0]]);
  }

  lemma PairListGiven(s: string, literal: bool)
    ensures var p := PairList(s, literal);
      p.value.Some? ==> PairListThen(s, literal, p.value.value.names, p.value.value.values, p.rest)
  {
    hide Count, Pair, PairThen, MorePairs, Pairs;
    var p, n, none := PairList(s, literal), Count(s), Columns([], []);
    if p.value.Some? {
      PairGiven(s, literal, none);
      var pair := Pair(s, literal, none);
      var name, value :| PairThen(s, literal, name, value, pair.rest) && pair.value.value == Grown(none, name, value);
      assert pair.value.value == Columns([name], [value]);
      PairsGiven(pair.rest, n - 1, literal, pair.value.value);
      var names, values :| |names| == n - 1 && MorePairs(pair.rest, literal, names, values, p.rest)
        && p.value.value == Columns([name] + names, [value] + values);
      var ns, vs := p.value.value.names, p.value.value.values;
      assert ns[0] == name && vs[0] == value && ns[1..] == names && vs[1..] == values;
      assert PairThen(s, literal, ns[0], vs[0], pair.rest);
    }
  }

  lemma PairListExactly(s: string, literal: bool, names: seq<string>, values: seq<string>, r: string)
    ensures PairList(s, literal) == Parsed(Some(Columns(names, values)), r) <==>
      PairListThen(s, literal, names, values, r)
  {
    if PairListThen(s, literal, names, values, r) { PairListRead(s, literal, names, values, r); }
    PairListGiven(s, literal);
    hide PairList, PairListThen;
  }

  // ---------------------------------------------------------------- statements

  /** A comparison of a column with a value, behind its keyword; whatever comes after it is not looked at. */
  ghost predicate CondText(s: string, cond: Condition) {
    exists r1, r2, r3, r {:trigger Follows(s, "where", r1), NameThen(r1, cond.col, r2), Follows(r2, "=", r3),
      ValueThen(r3, cond.val, r)} ::
      Follows(s, "where", r1) && NameThen(r1, cond.col, r2) && Follows(r2, "=", r3) && ValueThen(r3, cond.val, r)
  }

  /** A star or names, a table, and then either nothing or a comparison. */
  ghost predicate SelText(s: string, columns: seq<string>, table: string, cond: Option<Condition>) {
    exists r1, r2, r3 {:trigger Follows(r1, "from", r2), NameThen(r2, table, r3)} ::
      && (if columns == [] then Follows(s, "*", r1) else NameListThen(s, columns, r1))
      && Follows(r1, "from", r2) && NameThen(r2, table, r3)
      && if cond.None? then r3 == "" else CondText(r3, cond.value)
  }

  /** A table and its columns with their types; whatever comes after them is not looked at. */
  ghost predicate CrtText(s: string, table: string, columns: seq<string>, types: seq<string>) {
    exists r1, r2, r {:trigger Follows(r1, "with", r2), PairListThen(r2, false, columns, types, r)} ::
      NameThen(s, table, r1) && Follows(r1, "with", r2) && PairListThen(r2, false, columns, types, r)
  }

  /** Columns with their values and a table; whatever comes after it is not looked at. */
  ghost predicate AddText(s: string, table: string, columns: seq<string>, values: seq<string>) {
    exists r1, r2, r {:trigger Follows(r1, "in", r2), NameThen(r2, table, r)} ::
      PairListThen(s, true, columns, values, r1) && Follows(r1, "in", r2) && NameThen(r2, table, r)
  }

  /** Blanks, the verb, a space at least, and then the body. */
  ghost predicate StatementThen(t: string, verb: string, body: string) {
    exists u {:trigger Follows(t, "", u)} :: Follows(t, "", u) && verb + " " <= u && Follows(u, verb, body)
  }

  lemma KeywordExactly(s: string, w: string)
    ensures Exactly(s, w).value.Some? <==> exists r {:trigger Follows(s, w, r)} :: Follows(s, w, r)
    ensures Exactly(s, w).value.Some? ==> Follows(s, w, Exactly(s, w).rest)
    ensures forall r {:trigger Follows(s, w, r)} :: Follows(s, w, r) ==> Exactly(s, w) == Parsed(Some(w), r)
  {
    forall r ensures Follows(s, w, r) <==> Exactly(s, w) == Parsed(Some(w), r) { WordExactly(s, w, r); }
    assert Exactly(s, w).value.Some? ==> Exactly(s, w).value == Some(w);
    hide Exactly, Follows;
  }

  lemma CondExactly(s: string, cond: Condition)
    ensures CondText(s, cond) <==>
      Exactly(s, "where").value.Some? && ConditionOf(Exactly(s, "where").rest).value == Some(cond)
  {
    hide Exactly, Ident, Value, Follows, NameThen, ValueThen;
    KeywordExactly(s, "where");
    var r1 := Exactly(s, "where").rest;
    var col := Ident(r1);
    KeywordExactly(col.rest, "=");
    var equal := Exactly(col.rest, "=");
    NameGiven(r1);
    ValueGiven(equal.rest);
    if CondText(s, cond) {
      var q1, q2, q3, q :| Follows(s, "where", q1) && NameThen(q1, cond.col, q2) && Follows(q2, "=", q3)
        && ValueThen(q3, cond.val, q);
      NameExactly(r1, cond.col, q2);
      ValueExactly(q3, cond.val, q);
    }
  }

  lemma NoStar(s: string, columns: seq<string>, r: string)
    requires NameListThen(s, columns, r)
    ensures !("*" <= s)
  {
    hide Count, MoreNames;
    var r1 :| NameThen(s, columns[0], r1);
    assert columns[0] <= s && IsAlphanum(s[0]);
  }

  lemma SelColumnsExactly(s: string, columns: seq<string>, r: string)
    ensures SelColumns(s) == Parsed(Some(columns), r)
      <==> if columns == [] then Follows(s, "*", r) else NameListThen(s, columns, r)
  {
    NameListExactly(s, columns, r);
    FollowsExactly(s, "*", r);
    if NameListThen(s, columns, r) { NoStar(s, columns, r); }
    assert NameListThen(s, columns, r) ==> columns != [];
    hide Follows, NameListThen, NameList, SkipBlanks;
  }

  lemma ListIsCounted(s: string, literal: bool)
    ensures SelColumns(s).value.Some? ==> "*" <= s || Count(s) > 0
    ensures PairList(s, literal).value.Some? ==> Count(s) > 0
  {
    hide Count, Ident, Names, Pair, Pairs, SkipBlanks;
  }

  lemma NotEmpty(s: string)
    ensures Exactly(s, "where").value.Some? ==> s != ""
  {
    hide SkipBlanks;
  }

  lemma SelRead(s: string, columns: seq<string>, table: string, cond: Option<Condition>)
    requires SelText(s, columns, table, cond)
    ensures SelOf(s) == Sel(columns, table, cond)
  {
    hide Exactly, Ident, Follows, NameThen, NameListThen, CondText, SelColumns, Count, ConditionOf;
    var r1, r2, r3 :|
      && (if columns == [] then Follows(s, "*", r1) else NameListThen(s, columns, r1))
      && Follows(r1, "from", r2) && NameThen(r2, table, r3)
      && if cond.None? then r3 == "" else CondText(r3, cond.value);
    SelColumnsExactly(s, columns, r1);
    ListIsCounted(s, true);
    WordExactly(r1, "from", r2);
    NameExactly(r2, table, r3);
    if cond.Some? {
      CondExactly(r3, cond.value);
      NotEmpty(r3);
    }
  }

  lemma SelGiven(s: string, columns: seq<string>, table: string, cond: Option<Condition>)
    requires SelOf(s) == Sel(columns, table, cond)
    ensures SelText(s, columns, table, cond)
  {
    hide Exactly, Ident, Follows, NameThen, NameListThen, CondText, SelColumns, Count, ConditionOf;
    var cs := SelColumns(s);
    SelColumnsExactly(s, columns, cs.rest);
    KeywordExactly(cs.rest, "from");
    var from_ := Exactly(cs.rest, "from");
    NameGiven(from_.rest);
    var r3 := Ident(from_.rest).rest;
    if cond.Some? { CondExactly(r3, cond.value); }
    assert Follows(cs.rest, "from", from_.rest) && NameThen(from_.rest, table, r3);
  }

  lemma SelExactly(s: string, columns: seq<string>, table: string, cond: Option<Condition>)
    ensures SelOf(s) == Sel(columns, table, cond) <==> SelText(s, columns, table, cond)
  {
    if SelText(s, columns, table, cond) { SelRead(s, columns, table, cond); }
    if SelOf(s) == Sel(columns, table, cond) { SelGiven(s, columns, table, cond); }
    hide SelText, SelOf;
  }

  lemma CrtExactly(s: string, table: string, columns: seq<string>, types: seq<string>)
    ensures CrtOf(s) == Crt(table, columns, types) <==> CrtText(s, table, columns, types)
  {
    hide Exactly, Ident, Follows, NameThen, PairListThen, Count, PairList;
    if CrtText(s, table, columns, types) {
      var r1, r2, r :| NameThen(s, table, r1) && Follows(r1, "with", r2)
        && PairListThen(r2, false, columns, types, r);
      NameExactly(s, table, r1);
      WordExactly(r1, "with", r2);
      PairListExactly(r2, false, columns, types, r);
      ListIsCounted(r2, false);
    }
    if CrtOf(s) == Crt(table, columns, types) {
      NameGiven(s);
      var r1 := Ident(s).rest;
      KeywordExactly(r1, "with");
      var r2 := Exactly(r1, "with").rest;
      var list := PairList(r2, false);
      PairListExactly(r2, false, columns, types, list.rest);
      assert list.value == Some(Columns(columns, types));
    }
  }

  lemma AddExactly(s: string, table: string, columns: seq<string>, values: seq<string>)
    ensures AddOf(s) == Add(table, columns, values) <==> AddText(s, table, columns, values)
  {
    hide Exactly, Ident, Follows, NameThen, PairListThen, Count, PairList;
    if AddText(s, table, columns, values) {
      var r1, r2, r :| PairListThen(s, true, columns, values, r1) && Follows(r1, "in", r2) && NameThen(r2, table, r);
      PairListExactly(s, true, columns, values, r1);
      ListIsCounted(s, true);
      WordExactly(r1, "in", r2);
      NameExactly(r2, table, r);
    }
    if AddOf(s) == Add(table, columns, values) {
      var list := PairList(s, true);
      PairListExactly(s, true, columns, values, list.rest);
      assert list.value == Some(Columns(columns, values));
      KeywordExactly(list.rest, "in");
      NameGiven(Exactly(list.rest, "in").rest);
    }
  }

  /** What a statement's body is read as, and the texts that are read so. */
  lemma BodiesExactly(s: string)
    ensures forall columns, table, cond ::
      SelOf(s) == Sel(columns, table, cond) <==> SelText(s, columns, table, cond)
    ensures forall table, columns, types ::
      CrtOf(s) == Crt(table, columns, types) <==> CrtText(s, table, columns, types)
    ensures forall table, columns, values ::
      AddOf(s) == Add(table, columns, values) <==> AddText(s, table, columns, values)
  {
    hide *;
    forall columns, table, cond ensures SelOf(s) == Sel(columns, table, cond) <==> SelText(s, columns, table, cond) {
      SelExactly(s, columns, table, cond);
    }
    forall table, columns, types ensures CrtOf(s) == Crt(table, columns, types) <==> CrtText(s, table, columns, types) {
      CrtExactly(s, table, columns, types);
    }
    forall table, columns, values ensures AddOf(s) == Add(table, columns, values) <==>
      AddText(s, table, columns, values) {
      AddExactly(s, table, columns, values);
    }
  }

  // ---------------------------------------------------------------- verbs

  lemma {:induction false} VerbGiven(s: string, i: nat)
    requires i <= |VERBS|
    ensures var verb := VerbFrom(s, i); verb.value.Some? ==>
      && i <= verb.value.value < |VERBS| && VERBS[verb.value.value] + " " <= s
      && verb.rest == SkipBlanks(s[|VERBS[verb.value.value]|..])
    decreases |VERBS| - i
  {
    hide SkipBlanks;
    if i < |VERBS| && !(VERBS[i] <= s) { VerbGiven(s, i + 1); }
  }

  /** No verb is the start of another. */
  lemma VerbsDiffer(s: string, i: nat, k: nat)
    requires i < k < |VERBS| && VERBS[k] <= s
    ensures !(VERBS[i] <= s)
  {
    var a, b := VERBS[i], VERBS[k];
    assert a[0] != b[0] || a[1] != b[1];
    assert s[0] == b[0] && s[1] == b[1];
  }

  lemma {:induction false} VerbRead(s: string, i: nat, k: nat)
    requires i <= k < |VERBS| && VERBS[k] + " " <= s
    ensures VerbFrom(s, i) == Parsed(Some(k), SkipBlanks(s[|VERBS[k]|..]))
    decreases k - i
  {
    hide SkipBlanks;
    assert (VERBS[k] + " ")[..|VERBS[k]|] == VERBS[k];
    assert VERBS[k] <= s;
    if i < k {
      VerbsDiffer(s, i, k);
      VerbRead(s, i + 1, k);
    }
  }

  lemma StatementIs(t: string, k: nat, body: string)
    requires k < |VERBS|
    ensures StatementThen(t, VERBS[k], body) <==> VerbFrom(SkipBlanks(t), 0) == Parsed(Some(k), body)
  {
    hide SkipBlanks, Follows, VerbFrom;
    var u, verb := SkipBlanks(t), VERBS[k];
    assert t[|""|..] == t && "" <= t;
    forall v ensures Follows(t, "", v) <==> v == u { FollowsExactly(t, "", v); }
    assert StatementThen(t, verb, body) <==> Follows(t, "", u) && verb + " " <= u && Follows(u, verb, body);
    FollowsExactly(u, verb, body);
    VerbGiven(u, 0);
    if verb + " " <= u {
      VerbRead(u, 0, k);
      assert (verb + " ")[..|verb|] == verb;
    }
  }

  lemma StatementsAre(t: string)
    ensures var v := VerbFrom(SkipBlanks(t), 0);
      InstrOf(t) == if v.value == Some(0) then SelOf(v.rest) else if v.value == Some(3) then AddOf(v.rest)
        else if v.value == Some(4) then CrtOf(v.rest) else Unknown
  {
    hide VerbFrom, SelOf, AddOf, CrtOf, SkipBlanks;
  }

  lemma Kinds(s: string)
    ensures SelOf(s).Sel? || SelOf(s).Unknown? || SelOf(s).Undefined?
    ensures AddOf(s).Add? || AddOf(s).Unknown? || AddOf(s).Undefined?
    ensures CrtOf(s).Crt? || CrtOf(s).Unknown? || CrtOf(s).Undefined?
  {
    hide Exactly, Ident, ConditionOf, SelColumns, Count, PairList;
  }

  /** Which texts are read as a selection. */
  lemma SelInstrExactly(t: string, columns: seq<string>, table: string, cond: Option<Condition>)
    ensures InstrOf(t) == Sel(columns, table, cond) <==> exists body {:trigger StatementThen(t, "sel", body)} ::
      StatementThen(t, "sel", body) && SelText(body, columns, table, cond)
  {
    StatementsAre(t);
    var v := VerbFrom(SkipBlanks(t), 0);
    Kinds(v.rest);
    SelExactly(v.rest, columns, table, cond);
    forall body ensures StatementThen(t, "sel", body) <==> v == Parsed(Some(0), body) { StatementIs(t, 0, body); }
    hide StatementThen, SelText, VerbFrom, SelOf, AddOf, CrtOf, SkipBlanks, InstrOf;
  }

  /** Which texts are read as the creation of a table. */
  lemma CrtInstrExactly(t: string, table: string, columns: seq<string>, types: seq<string>)
    ensures InstrOf(t) == Crt(table, columns, types) <==> exists body {:trigger StatementThen(t, "crt", body)} ::
      StatementThen(t, "crt", body) && CrtText(body, table, columns, types)
  {
    StatementsAre(t);
    var v := VerbFrom(SkipBlanks(t), 0);
    Kinds(v.rest);
    CrtExactly(v.rest, table, columns, types);
    forall body ensures StatementThen(t, "crt", body) <==> v == Parsed(Some(4), body) { StatementIs(t, 4, body); }
    hide StatementThen, CrtText, VerbFrom, SelOf, AddOf, CrtOf, SkipBlanks, InstrOf;
  }

  /** Which texts are read as a new row. */
  lemma AddInstrExactly(t: string, table: string, columns: seq<string>, values: seq<string>)
    ensures InstrOf(t) == Add(table, columns, values) <==> exists body {:trigger StatementThen(t, "add", body)} ::
      StatementThen(t, "add", body) && AddText(body, table, columns, values)
  {
    StatementsAre(t);
    var v := VerbFrom(SkipBlanks(t), 0);
    Kinds(v.rest);
    AddExactly(v.rest, table, columns, values);
    forall body ensures StatementThen(t, "add", body) <==> v == Parsed(Some(3), body) { StatementIs(t, 3, body); }
    hide StatementThen, AddText, VerbFrom, SelOf, AddOf, CrtOf, SkipBlanks, InstrOf;
  }

  /** Each kind of instruction, and the texts that are read as it. */
  lemma InstrsExactly(t: string)
    ensures forall columns, table, cond ::
      InstrOf(t) == Sel(columns, table, cond) <==> exists body {:trigger StatementThen(t, "sel", body)} ::
        StatementThen(t, "sel", body) && SelText(body, columns, table, cond)
    ensures forall table, columns, types ::
      InstrOf(t) == Crt(table, columns, types) <==> exists body {:trigger StatementThen(t, "crt", body)} ::
        StatementThen(t, "crt", body) && CrtText(body, table, columns, types)
    ensures forall table, columns, values ::
      InstrOf(t) == Add(table, columns, values) <==> exists body {:trigger StatementThen(t, "add", body)} ::
        StatementThen(t, "add", body) && AddText(body, table, columns, values)
  {
    forall columns, table, cond ensures InstrOf(t) == Sel(columns, table, cond) <==>
        exists body {:trigger StatementThen(t, "sel", body)} ::
          StatementThen(t, "sel", body) && SelText(body, columns, table, cond)
    { SelInstrExactly(t, columns, table, cond); }
    forall table, columns, types ensures InstrOf(t) == Crt(table, columns, types) <==>
        exists body {:trigger StatementThen(t, "crt", body)} ::
          StatementThen(t, "crt", body) && CrtText(body, table, columns, types)
    { CrtInstrExactly(t, table, columns, types); }
    forall table, columns, values ensures InstrOf(t) == Add(table, columns, values) <==>
        exists body {:trigger StatementThen(t, "add", body)} ::
          StatementThen(t, "add", body) && AddText(body, table, columns, values)
    { AddInstrExactly(t, table, columns, values); }
    hide *;
  }

  /** A word of any length and the blanks after it, or nothing where no word stands. */
  ghost predicate WordPassed(s: string, r: string) {
    if s == "" || !IsAlphanum(s[0]) then r == s
    else exists w: string {:trigger Follows(s, w, r)} ::
      All(IsAlphanum, w) && Follows(s, w, r) && (|w| < |s| ==> !IsAlphanum(s[|w|]))
  }

  /** Where the list is that a statement's parser counts. */
  ghost predicate ListAt(t: string, list: string) {
    || (StatementThen(t, "sel", list) && !("*" <= list))
    || StatementThen(t, "add", list)
    || exists body, r {:trigger WordPassed(body, r), StatementThen(t, "crt", body)} ::
         StatementThen(t, "crt", body) && WordPassed(body, r) && MayFollow(r, "with", list)
  }

  lemma WordPassedExactly(s: string, r: string)
    ensures WordPassed(s, r) <==> r == Ident(s).rest
  {
    var n := Prefix(IsAlphanum, s);
    if s != "" && IsAlphanum(s[0]) {
      PrefixExactly(IsAlphanum, s, n);
      FollowsExactly(s, s[..n], r);
      if r == Ident(s).rest { assert Follows(s, s[..n], r); }
      if WordPassed(s, r) {
        var w: string :| All(IsAlphanum, w) && Follows(s, w, r) && (|w| < |s| ==> !IsAlphanum(s[|w|]));
        FollowsExactly(s, w, r);
        PrefixExactly(IsAlphanum, s, |w|);
        assert s[..|w|] == w;
      }
    }
  }

  /** The list that is counted behind verb number `v.value`. */
  ghost predicate Counted(v: Parsed<nat>, list: string) {
    || (v == Parsed(Some(0), list) && !("*" <= list))
    || v == Parsed(Some(3), list)
    || (v.value == Some(4) && list == Exactly(Ident(v.rest).rest, "with").rest)
  }

  lemma ListIs(t: string, list: string)
    ensures ListAt(t, list) <==> Counted(VerbFrom(SkipBlanks(t), 0), list)
  {
    var v := VerbFrom(SkipBlanks(t), 0);
    StatementIs(t, 0, list);
    StatementIs(t, 3, list);
    forall body ensures StatementThen(t, "crt", body) <==> v == Parsed(Some(4), body) { StatementIs(t, 4, body); }
    forall r ensures WordPassed(v.rest, r) <==> r == Ident(v.rest).rest { WordPassedExactly(v.rest, r); }
    MayFollowExactly(Ident(v.rest).rest, "with", list);
    hide StatementThen, WordPassed, MayFollow, VerbFrom, SkipBlanks, Ident, Exactly;
    if v.value == Some(4) { assert StatementThen(t, "crt", v.rest) && WordPassed(v.rest, Ident(v.rest).rest); }
  }

  lemma UndefinedKinds(s: string)
    ensures SelOf(s).Undefined? <==> !("*" <= s) && Count(s) < 0
    ensures AddOf(s).Undefined? <==> Count(s) < 0
    ensures CrtOf(s).Undefined? <==> Count(Exactly(Ident(s).rest, "with").rest) < 0
  {
    hide Exactly, Ident, ConditionOf, SelColumns, Count, PairList;
  }

  lemma UndefinedVerb(t: string) returns (list: string)
    requires InstrOf(t) == Undefined
    ensures Counted(VerbFrom(SkipBlanks(t), 0), list) && Count(list) < 0
  {
    StatementsAre(t);
    var v := VerbFrom(SkipBlanks(t), 0);
    UndefinedKinds(v.rest);
    list := if v.value == Some(4) then Exactly(Ident(v.rest).rest, "with").rest else v.rest;
    hide Exactly, Ident, Count, VerbFrom, SkipBlanks, InstrOf, SelOf, CrtOf, AddOf;
  }

  lemma CountedVerb(t: string, list: string)
    requires Counted(VerbFrom(SkipBlanks(t), 0), list) && Count(list) < 0
    ensures InstrOf(t) == Undefined
  {
    StatementsAre(t);
    UndefinedKinds(VerbFrom(SkipBlanks(t), 0).rest);
    hide Exactly, Ident, Count, VerbFrom, SkipBlanks, InstrOf, SelOf, CrtOf, AddOf;
  }

  /** The statements for which the parser asks for a negative number of pointers. */
  lemma UndefinedExactly(t: string)
    ensures InstrOf(t) == Undefined <==> exists list {:trigger ListAt(t, list)} :: ListAt(t, list) && Count(list) < 0
  {
    forall list ensures ListAt(t, list) <==> Counted(VerbFrom(SkipBlanks(t), 0), list) { ListIs(t, list); }
    hide *;
    if InstrOf(t) == Undefined {
      var list := UndefinedVerb(t);
      assert ListAt(t, list);
    }
    if list :| ListAt(t, list) && Count(list) < 0 { CountedVerb(t, list); }
  }
}
