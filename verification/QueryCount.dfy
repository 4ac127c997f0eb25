/** What the count of a list is on any text, said of the characters of the text and where they stand. */
module QueryCount {
  import opened Options
  import opened Query
  import opened QueryText

  /** An odd number of quotes stands before `i`. */
  ghost predicate Quoted(s: string, i: nat)
    requires i <= |s|
  {
    multiset(s[..i])[QUOTE] % 2 == 1
  }

  /** Character `c` at `i`, outside quotes. */
  ghost predicate PlainAt(s: string, c: char, i: nat) {
    i < |s| && s[i] == c && c != QUOTE && !Quoted(s, i)
  }

  /** A letter or digit outside quotes, or the quote that closes a string. */
  ghost predicate WordAt(s: string, i: nat) {
    i < |s| && if s[i] == QUOTE then Quoted(s, i) else !Quoted(s, i) && IsAlphanum(s[i])
  }

  /** The commas outside quotes before `i`. */
  ghost function Commas(s: string, i: nat): set<nat> {
    set k: nat | k < i && PlainAt(s, ',', k)
  }

  /** An equal sign after the last comma before `i`. */
  ghost predicate EqualBefore(s: string, i: nat) {
    exists k: nat {:trigger PlainAt(s, '=', k)} ::
      k < i && PlainAt(s, '=', k) && forall j: nat {:trigger PlainAt(s, ',', j)} :: k < j < i ==> !PlainAt(s, ',', j)
  }

  /** A word after the last comma before `i`. */
  ghost predicate WordBefore(s: string, i: nat) {
    exists k: nat {:trigger WordAt(s, k)} ::
      k < i && WordAt(s, k) && forall j: nat {:trigger PlainAt(s, ',', j)} :: k < j < i ==> !PlainAt(s, ',', j)
  }

  /** A space behind a word, and neither a comma nor more of a word between that space and `i`. */
  ghost predicate GapBefore(s: string, i: nat) {
    exists k: nat {:trigger PlainAt(s, ' ', k)} ::
      && k < i && PlainAt(s, ' ', k) && WordBefore(s, k)
      && forall j: nat {:trigger PlainAt(s, ',', j)} {:trigger WordAt(s, j)} ::
           k < j < i ==> !PlainAt(s, ',', j) && !WordAt(s, j)
  }

  /** A word that starts at `i` with neither a comma nor an equal sign before it. */
  ghost predicate EndsList(s: string, i: nat) {
    i < |s| && !Quoted(s, i) && IsAlphanum(s[i]) && GapBefore(s, i) && !EqualBefore(s, i)
  }

  /** A second equal sign, or a character that no list has outside quotes. */
  ghost predicate Spoils(s: string, i: nat) {
    && i < |s| && !Quoted(s, i) && s[i] != QUOTE && !IsAlphanum(s[i])
    && if s[i] == '=' then EqualBefore(s, i) else s[i] != ' ' && s[i] != ','
  }

  // ---------------------------------------------------------------- one character

  lemma QuotedNext(s: string, i: nat)
    requires i < |s|
    ensures Quoted(s, i + 1) <==> if s[i] == QUOTE then !Quoted(s, i) else Quoted(s, i)
  {
    assert s[..i + 1] == s[..i] + [s[i]];
  }

  lemma CommasNext(s: string, i: nat)
    ensures |Commas(s, i + 1)| == |Commas(s, i)| + if PlainAt(s, ',', i) then 1 else 0
  {
    hide PlainAt;
    assert Commas(s, i + 1) == Commas(s, i) + if PlainAt(s, ',', i) then {i} else {};
  }

  lemma EqualNext(s: string, i: nat)
    ensures EqualBefore(s, i + 1) <==> PlainAt(s, '=', i) || (EqualBefore(s, i) && !PlainAt(s, ',', i))
  {
    hide PlainAt;
    if EqualBefore(s, i + 1) && !PlainAt(s, '=', i) {
      var k: nat :| k < i + 1 && PlainAt(s, '=', k)
        && forall j: nat {:trigger PlainAt(s, ',', j)} :: k < j < i + 1 ==> !PlainAt(s, ',', j);
      assert k < i;
    }
  }

  lemma WordNext(s: string, i: nat)
    ensures WordBefore(s, i + 1) <==> WordAt(s, i) || (WordBefore(s, i) && !PlainAt(s, ',', i))
  {
    hide PlainAt, WordAt;
    if WordBefore(s, i + 1) && !WordAt(s, i) {
      var k: nat :| k < i + 1 && WordAt(s, k)
        && forall j: nat {:trigger PlainAt(s, ',', j)} :: k < j < i + 1 ==> !PlainAt(s, ',', j);
      assert k < i;
    }
  }

  lemma GapNext(s: string, i: nat)
    ensures GapBefore(s, i + 1) ==
      ((PlainAt(s, ' ', i) && WordBefore(s, i)) || (GapBefore(s, i) && !PlainAt(s, ',', i) && !WordAt(s, i)))
  {
    hide PlainAt, WordAt, WordBefore;
    if GapBefore(s, i + 1) && !(PlainAt(s, ' ', i) && WordBefore(s, i)) {
      var k: nat :| k < i + 1 && PlainAt(s, ' ', k) && WordBefore(s, k)
        && forall j: nat {:trigger PlainAt(s, ',', j)} {:trigger WordAt(s, j)} ::
             k < j < i + 1 ==> !PlainAt(s, ',', j) && !WordAt(s, j);
      assert k < i;
    }
  }

  lemma GapHasWord(s: string, i: nat)
    ensures GapBefore(s, i) ==> WordBefore(s, i)
  {
    hide PlainAt, WordAt;
    if GapBefore(s, i) {
      var k: nat :| k < i && PlainAt(s, ' ', k) && WordBefore(s, k)
        && forall j: nat {:trigger PlainAt(s, ',', j)} {:trigger WordAt(s, j)} ::
             k < j < i ==> !PlainAt(s, ',', j) && !WordAt(s, j);
      var w: nat :| w < k && WordAt(s, w)
        && forall j: nat {:trigger PlainAt(s, ',', j)} :: w < j < k ==> !PlainAt(s, ',', j);
      NotBoth(s, k);
    }
  }

  lemma NotBoth(s: string, i: nat)
    ensures PlainAt(s, ' ', i) ==> !PlainAt(s, ',', i) && !WordAt(s, i)
  {}

  // ---------------------------------------------------------------- the flags

  /** What the flags mean after `i` characters. */
  ghost predicate Flags(s: string, i: nat, st: Counting)
    requires i <= |s|
  {
    && st.Counting? && st.count == Wrap8(1 + |Commas(s, i)|)
    && st.equal == EqualBefore(s, i) && st.inQuote == Quoted(s, i)
    && (st.last == ' ' <==> GapBefore(s, i)) && (st.last == ' ' || st.last == 'a' <==> WordBefore(s, i))
  }

  lemma KindAt(s: string, i: nat)
    requires i < |s|
    ensures var plain := !Quoted(s, i);
      && PlainAt(s, ',', i) == (plain && s[i] == ',') && PlainAt(s, '=', i) == (plain && s[i] == '=')
      && PlainAt(s, ' ', i) == (plain && s[i] == ' ')
      && WordAt(s, i) == if s[i] == QUOTE then !plain else plain && IsAlphanum(s[i])
  {
    hide Quoted;
  }

  /** What one character does to the flags where the count goes on. */
  lemma FeedGoesOn(st: Counting, c: char)
    requires st.Counting? && (!st.inQuote ==>
      c == QUOTE || c == ' ' || c == ',' || (c == '=' && !st.equal) || (IsAlphanum(c) && (st.last == ' ' ==> st.equal)))
    ensures var plain, to := !st.inQuote, Feed(st, c);
      var word := if c == QUOTE then st.inQuote else plain && IsAlphanum(c);
      && to.Counting? && to.inQuote == ((c == QUOTE) != st.inQuote)
      && to.count == (if plain && c == ',' then Wrap8(st.count + 1) else st.count)
      && to.equal == ((plain && c == '=') || (st.equal && !(plain && c == ',')))
      && to.last == if word then 'a' else if plain && c == ',' then ','
        else if plain && c == ' ' && st.last == 'a' then ' ' else st.last
  {}

  lemma Wraps(n: int)
    ensures Wrap8(Wrap8(n) + 1) == Wrap8(n + 1)
  {}

  lemma FlagsNext(s: string, i: nat, st: Counting)
    requires i < |s| && Flags(s, i, st) && !EndsList(s, i) && !Spoils(s, i)
    ensures Flags(s, i + 1, Feed(st, s[i]))
  {
    QuotedNext(s, i);
    CommasNext(s, i);
    EqualNext(s, i);
    WordNext(s, i);
    GapNext(s, i);
    GapHasWord(s, i);
    KindAt(s, i);
    FeedGoesOn(st, s[i]);
    Wraps(1 + |Commas(s, i)|);
    hide Commas, EqualBefore, WordBefore, GapBefore, Quoted, PlainAt, WordAt, Wrap8, Feed;
  }

  lemma StopsNext(s: string, i: nat, st: Counting)
    requires i < |s| && Flags(s, i, st)
    ensures EndsList(s, i) ==> Feed(st, s[i]) == Stopped(st.count)
    ensures Spoils(s, i) ==> Feed(st, s[i]) == Stopped(-1)
  {
    hide Commas, EqualBefore, WordBefore, GapBefore, Quoted;
  }

  lemma {:induction false} FlagsAt(s: string, i: nat)
    requires i <= |s| && forall j: nat {:trigger EndsList(s, j)} {:trigger Spoils(s, j)} ::
      j < i ==> !EndsList(s, j) && !Spoils(s, j)
    ensures Flags(s, i, FeedAll(START, s[..i]))
  {
    if i > 0 {
      FlagsAt(s, i - 1);
      FlagsNext(s, i - 1, FeedAll(START, s[..i - 1]));
      assert s[..i] == s[..i - 1] + [s[i - 1]];
      FeedBoth(START, s[..i - 1], [s[i - 1]]);
      FeedOne(FeedAll(START, s[..i - 1]), s[i - 1]);
    } else {
      FlagsFirst(s);
    }
  }

  lemma FlagsFirst(s: string)
    ensures Flags(s, 0, FeedAll(START, s[..0]))
  {
    assert s[..0] == "" && Commas(s, 0) == {};
  }

  /** A text without a place to stop is one list: its count is one more than the commas. */
  lemma CountOfAll(s: string)
    requires forall j: nat {:trigger EndsList(s, j)} {:trigger Spoils(s, j)} :: j < |s| ==>
      !EndsList(s, j) && !Spoils(s, j)
    ensures Count(s) == Wrap8(1 + |Commas(s, |s|)|)
  {
    FlagsAt(s, |s|);
    assert s[..|s|] == s;
  }

  /** The first place to stop decides: the next word ends the list, anything else spoils it. */
  lemma CountUpTo(s: string, i: nat)
    requires i < |s| && forall j: nat {:trigger EndsList(s, j)} {:trigger Spoils(s, j)} ::
      j < i ==> !EndsList(s, j) && !Spoils(s, j)
    ensures EndsList(s, i) ==> Count(s) == Wrap8(1 + |Commas(s, i)|)
    ensures Spoils(s, i) ==> Count(s) == -1
  {
    FlagsAt(s, i);
    var st := FeedAll(START, s[..i]);
    StopsNext(s, i, st);
    assert s == s[..i] + ([s[i]] + s[i + 1..]);
    FeedBoth(START, s[..i], [s[i]] + s[i + 1..]);
    FeedBoth(st, [s[i]], s[i + 1..]);
    FeedOne(st, s[i]);
    if EndsList(s, i) { FeedStopped(st.count, s[i + 1..]); }
    if Spoils(s, i) { FeedStopped(-1, s[i + 1..]); }
  }
}
