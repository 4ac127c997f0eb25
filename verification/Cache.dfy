/** The cache as a list of entries, newest use first, and what it holds after any run of calls. */
module Cache {
  import opened Nodes

  datatype Entry = Entry(addr: Page, node: Node)

  function Addrs(c: seq<Entry>): (r: seq<Page>)
    ensures |r| == |c| && forall i :: 0 <= i < |c| ==> r[i] == c[i].addr
  {
    seq(|c|, i requires 0 <= i < |c| => c[i].addr)
  }

  predicate Distinct(s: seq<Page>) {
    forall i, j :: 0 <= i < j < |s| ==> s[i] != s[j]
  }

  predicate Cached(c: seq<Entry>, a: Page) {
    a in Addrs(c)
  }

  /** The position of `a`, or the length of the list. */
  function Find(s: seq<Page>, a: Page): (i: nat)
    ensures i <= |s| && (forall k :: 0 <= k < i ==> s[k] != a) && (i < |s| ==> s[i] == a)
  {
    if s == [] || s[0] == a then 0 else 1 + Find(s[1..], a)
  }

  /** The list has an entry with the address. */
  lemma CachedExactly(c: seq<Entry>, a: Page)
    ensures Cached(c, a) <==> exists i :: 0 <= i < |c| && c[i].addr == a
  {
    if i :| 0 <= i < |c| && c[i].addr == a { assert Addrs(c)[i] == a; }
  }

  function DropAt<T>(s: seq<T>, i: nat): seq<T> {
    if i < |s| then s[..i] + s[i + 1..] else s
  }

  function Drop(c: seq<Entry>, a: Page): seq<Entry> {
    DropAt(c, Find(Addrs(c), a))
  }

  function Take<T>(s: seq<T>, limit: nat): seq<T> {
    if |s| <= limit then s else s[..limit]
  }

  /** `add_to_cache`: the old entry for the address goes, the new one leads, and the list is cut to `limit`. */
  function Add(c: seq<Entry>, a: Page, n: Node, limit: nat): seq<Entry> {
    Take([Entry(a, n)] + Drop(c, a), limit)
  }

  /** `get_from_cache`: a hit moves to the front, a miss changes nothing. */
  function Get(c: seq<Entry>, a: Page): seq<Entry> {
    if Cached(c, a) then [c[Find(Addrs(c), a)]] + Drop(c, a) else c
  }

  // ---------------------------------------------------------------- runs

  datatype Op = AddOp(addr: Page, node: Node) | GetOp(addr: Page)

  function Run(ops: seq<Op>, limit: nat): seq<Entry> {
    if ops == [] then [] else
      var c := Run(ops[..|ops| - 1], limit);
      match ops[|ops| - 1]
      case AddOp(a, n) => Add(c, a, n, limit)
      case GetOp(a) => Get(c, a)
  }

  /** The last call of the run is a use of its address: it adds it, or the list before the call has an entry with it. */
  predicate IsUse(ops: seq<Op>, limit: nat)
    requires ops != []
  {
    var op, c := ops[|ops| - 1], Run(ops[..|ops| - 1], limit);
    op.AddOp? || exists i :: 0 <= i < |c| && c[i].addr == op.addr
  }

  /** When `a` was last used, counting calls from 1; 0 when it never was. */
  function LastUse(ops: seq<Op>, limit: nat, a: Page): nat {
    if ops == [] then 0
    else if ops[|ops| - 1].addr == a && IsUse(ops, limit) then |ops|
    else LastUse(ops[..|ops| - 1], limit, a)
  }

  function LastAdded(ops: seq<Op>, a: Page): Node
    requires exists i :: 0 <= i < |ops| && ops[i].AddOp? && ops[i].addr == a
  {
    var op := ops[|ops| - 1];
    if op.AddOp? && op.addr == a then op.node else
      assert forall i :: 0 <= i < |ops| - 1 ==> ops[..|ops| - 1][i] == ops[i];
      LastAdded(ops[..|ops| - 1], a)
  }

  /** Newest use first, at most `limit` addresses, each once; an address that was ever used is missing
      only when `limit` others were used after it. */
  ghost predicate Recent(s: seq<Page>, use: Page -> nat, limit: nat) {
    && |s| <= limit && Newer(s, use)
    && (forall a :: a !in s && use(a) > 0 ==>
          |s| == limit && forall i :: 0 <= i < |s| ==> use(a) < use(s[i]))
  }

  ghost predicate MostRecent(ops: seq<Op>, limit: nat, c: seq<Entry>) {
    Recent(Addrs(c), Use(ops, limit), limit)
  }

  ghost function Use(ops: seq<Op>, limit: nat): Page -> nat {
    (a: Page) => LastUse(ops, limit, a)
  }

  ghost predicate FreshEntry(ops: seq<Op>, e: Entry) {
    && (exists k :: 0 <= k < |ops| && ops[k].AddOp? && ops[k].addr == e.addr)
    && e.node == LastAdded(ops, e.addr)
  }

  /** Every entry is the node last added for its address. */
  ghost predicate FreshNodes(ops: seq<Op>, c: seq<Entry>) {
    forall i {:trigger c[i]} :: 0 <= i < |c| ==> FreshEntry(ops, c[i])
  }

  function Without(s: seq<Page>, a: Page): seq<Page> {
    DropAt(s, Find(s, a))
  }

  lemma DropAddrs(c: seq<Entry>, a: Page)
    ensures Addrs(Drop(c, a)) == Without(Addrs(c), a)
  {
    var s, t, i := Addrs(c), Addrs(Drop(c, a)), Find(Addrs(c), a);
    assert forall k :: 0 <= k < |t| ==> t[k] == if k < i then s[k] else s[k + 1];
  }

  lemma WithoutFacts(s: seq<Page>, a: Page)
    requires Distinct(s)
    ensures a !in Without(s, a) && |Without(s, a)| == |s| - if a in s then 1 else 0
    ensures forall k {:trigger Without(s, a)[k]} :: 0 <= k < |Without(s, a)| ==>
              Without(s, a)[k] == s[if k < Find(s, a) then k else k + 1]
  {
    assert a in s <==> Find(s, a) < |s|;
  }

  lemma WithoutMembers(s: seq<Page>, a: Page, b: Page)
    requires Distinct(s)
    ensures b in Without(s, a) <==> b != a && b in s
  {
    WithoutFacts(s, a);
    if b != a && b in s {
      var k :| 0 <= k < |s| && s[k] == b;
      assert Without(s, a)[if k < Find(s, a) then k else k - 1] == b;
    }
  }

  ghost predicate Newer(s: seq<Page>, use: Page -> nat) {
    && Distinct(s)
    && (forall i, j :: 0 <= i < j < |s| ==> use(s[i]) > use(s[j]))
    && (forall i :: 0 <= i < |s| ==> use(s[i]) > 0)
  }

  lemma WithoutNewer(s: seq<Page>, a: Page, use: Page -> nat)
    requires Newer(s, use)
    ensures Newer(Without(s, a), use)
  {
    WithoutFacts(s, a);
    hide Find, Without;
  }

  lemma LeadNewer(t: seq<Page>, a: Page, use: Page -> nat, use': Page -> nat, limit: nat)
    requires Newer(t, use) && a !in t
    requires forall b :: b != a ==> use'(b) == use(b)
    requires forall b :: use(b) < use'(a)
    ensures Newer(Take([a] + t, limit), use')
  {
    var u := Take([a] + t, limit);
    forall i, j | 0 <= i < j < |u| ensures u[i] != u[j] && use'(u[i]) > use'(u[j]) {
      LeadPair(t, a, use, use', limit, i, j);
    }
    forall i | 0 <= i < |u| ensures use'(u[i]) > 0 {
      LeadUsed(t, a, use, use', limit, i);
    }
    hide Take;
  }

  lemma LeadUsed(t: seq<Page>, a: Page, use: Page -> nat, use': Page -> nat, limit: nat, i: nat)
    requires Newer(t, use) && a !in t && i < |Take([a] + t, limit)|
    requires forall b :: b != a ==> use'(b) == use(b)
    requires forall b :: use(b) < use'(a)
    ensures use'(Take([a] + t, limit)[i]) > 0
  {
    LeadAt(a, t, limit, i);
    hide Take;
    if i == 0 {
      assert use(a) < use'(a);
    } else {
      var y := t[i - 1];
      assert y in t;
      assert use'(y) == use(y) > 0;
    }
  }

  lemma LeadPair(t: seq<Page>, a: Page, use: Page -> nat, use': Page -> nat, limit: nat, i: nat, j: nat)
    requires Newer(t, use) && a !in t && i < j < |Take([a] + t, limit)|
    requires forall b :: b != a ==> use'(b) == use(b)
    requires forall b :: use(b) < use'(a)
    ensures var u := Take([a] + t, limit); u[i] != u[j] && use'(u[i]) > use'(u[j])
  {
    LeadAt(a, t, limit, i);
    LeadAt(a, t, limit, j);
    hide Take;
    var y := t[j - 1];
    assert y in t;
    assert use'(y) == use(y);
    if i == 0 {
      assert use(y) < use'(a);
    } else {
      var x := t[i - 1];
      assert x in t;
      assert use'(x) == use(x);
      assert use(t[i - 1]) > use(t[j - 1]);
    }
  }

  /** The list property of LRU: using `a` keeps the list the most recent addresses. */
  lemma UseKeepsRecent(s: seq<Page>, a: Page, use: Page -> nat, use': Page -> nat, limit: nat)
    requires limit >= 1 && Recent(s, use, limit)
    requires forall b :: b != a ==> use'(b) == use(b)
    requires forall b :: use(b) < use'(a)
    ensures Recent(Take([a] + Without(s, a), limit), use', limit)
  {
    var t := Without(s, a);
    WithoutFacts(s, a);
    WithoutNewer(s, a, use);
    LeadNewer(t, a, use, use', limit);
    var r := Take([a] + t, limit);
    forall b | b !in r && use'(b) > 0
      ensures |r| == limit && forall i :: 0 <= i < |r| ==> use'(b) < use'(r[i])
    {
      assert b != a by { assert r[0] == a; }
      WithoutMembers(s, a, b);
      if b in t {
        MissingIsOlder(t, a, b, use, use', limit);
      } else {
        StillMissing(s, a, b, use, use', limit);
      }
    }
  }

  lemma WithoutAt(s: seq<Page>, a: Page, k: nat)
    requires Distinct(s) && k < |Without(s, a)|
    ensures Without(s, a)[k] in s && Without(s, a)[k] != a
  {
    WithoutFacts(s, a);
    assert Without(s, a)[k] in Without(s, a);
  }

  lemma LeadAt<T>(a: T, t: seq<T>, limit: nat, i: nat)
    requires i < |Take([a] + t, limit)|
    ensures Take([a] + t, limit)[i] == if i == 0 then a else t[i - 1]
    ensures i > 0 ==> i - 1 < |t|
  {}

  lemma StillMissing(s: seq<Page>, a: Page, b: Page, use: Page -> nat, use': Page -> nat, limit: nat)
    requires limit >= 1 && |s| == limit && Distinct(s) && b != a
    requires forall i :: 0 <= i < |s| ==> use(b) < use(s[i])
    requires forall b :: b != a ==> use'(b) == use(b)
    requires forall b :: use(b) < use'(a)
    ensures var r := Take([a] + Without(s, a), limit);
      |r| == limit && forall i :: 0 <= i < |r| ==> use'(b) < use'(r[i])
  {
    var t := Without(s, a);
    assert |Take([a] + t, limit)| == limit by { WithoutFacts(s, a); }
    var r := Take([a] + t, limit);
    hide *;
    forall i | 0 <= i < |r| ensures use'(b) < use'(r[i]) {
      LeadAt(a, t, limit, i);
      if i > 0 {
        WithoutAt(s, a, i - 1);
        var j :| 0 <= j < |s| && s[j] == t[i - 1];
        assert use(b) < use(s[j]);
      }
    }
  }

  /** The one address that the cut drops is the oldest. */
  lemma MissingIsOlder(t: seq<Page>, a: Page, b: Page, use: Page -> nat, use': Page -> nat, limit: nat)
    requires Newer(t, use) && a !in t && b in t && limit >= 1
    requires forall b :: b != a ==> use'(b) == use(b)
    requires forall b :: use(b) < use'(a)
    requires b !in Take([a] + t, limit)
    ensures |Take([a] + t, limit)| == limit
    ensures forall i :: 0 <= i < limit ==> use'(b) < use'(Take([a] + t, limit)[i])
  {
    var k :| 0 <= k < |t| && t[k] == b;
    var u, r := [a] + t, Take([a] + t, limit);
    assert u[k + 1] == b;
    assert |t| >= limit && k + 1 >= limit;
    assert forall i :: 0 < i < limit ==> r[i] == t[i - 1];
  }

  lemma {:induction false} LastUseBound(ops: seq<Op>, limit: nat, a: Page)
    ensures LastUse(ops, limit, a) <= |ops|
  {
    if ops != [] { LastUseBound(ops[..|ops| - 1], limit, a); }
  }

  /** After every run of `add_to_cache` and `get_from_cache` the cache is exactly the most recently used addresses. */
  lemma {:induction false} RunIsMostRecent(ops: seq<Op>, limit: nat)
    requires limit >= 1
    ensures MostRecent(ops, limit, Run(ops, limit))
  {
    if ops == [] {
    } else {
      hide *;
      var was := ops[..|ops| - 1];
      RunIsMostRecent(was, limit);
      var c, a := Run(was, limit), ops[|ops| - 1].addr;
      RecentIs(was, limit, c);
      if IsUse(ops, limit) {
        UsesMove(ops, limit, c, a);
        UseKeepsRecent(Addrs(c), a, Use(was, limit), Use(ops, limit), limit);
        UseAddrs(ops, limit, c, a);
        MostRecentNow(ops, limit, Run(ops, limit));
      } else {
        MissKeepsRecent(ops, limit);
      }
    }
  }

  lemma RecentIs(ops: seq<Op>, limit: nat, c: seq<Entry>)
    requires MostRecent(ops, limit, c)
    ensures |c| <= limit && Distinct(Addrs(c)) && Recent(Addrs(c), Use(ops, limit), limit)
  {}

  lemma MostRecentNow(ops: seq<Op>, limit: nat, c: seq<Entry>)
    requires Recent(Addrs(c), Use(ops, limit), limit)
    ensures MostRecent(ops, limit, c)
  {
    hide Recent;
  }

  /** A call that uses an address moves its last use past all others. */
  lemma UsesMove(ops: seq<Op>, limit: nat, c: seq<Entry>, a: Page)
    requires ops != [] && IsUse(ops, limit) && ops[|ops| - 1].addr == a
    ensures var was := ops[..|ops| - 1];
      && (forall b :: b != a ==> Use(ops, limit)(b) == Use(was, limit)(b))
      && (forall b :: Use(was, limit)(b) < Use(ops, limit)(a))
  {
    var was := ops[..|ops| - 1];
    forall b ensures Use(was, limit)(b) < Use(ops, limit)(a) { LastUseBound(was, limit, b); }
  }

  /** A call that finds nothing changes nothing. */
  lemma MissKeepsRecent(ops: seq<Op>, limit: nat)
    requires ops != [] && !IsUse(ops, limit) && MostRecent(ops[..|ops| - 1], limit, Run(ops[..|ops| - 1], limit))
    ensures MostRecent(ops, limit, Run(ops, limit))
  {
    LastStep(ops, limit);
    var was := ops[..|ops| - 1];
    CachedExactly(Run(was, limit), ops[|ops| - 1].addr);
    hide Run, Recent;
    assert forall b :: Use(ops, limit)(b) == Use(was, limit)(b);
    SameUses(Addrs(Run(ops, limit)), Use(was, limit), Use(ops, limit), limit);
  }

  lemma SameUses(s: seq<Page>, use: Page -> nat, use': Page -> nat, limit: nat)
    requires Recent(s, use, limit) && forall b :: use'(b) == use(b)
    ensures Recent(s, use', limit)
  {}

  lemma UseAddrs(ops: seq<Op>, limit: nat, c: seq<Entry>, a: Page)
    requires ops != [] && IsUse(ops, limit) && ops[|ops| - 1].addr == a
    requires c == Run(ops[..|ops| - 1], limit) && |c| <= limit && Distinct(Addrs(c))
    ensures Addrs(Run(ops, limit)) == Take([a] + Without(Addrs(c), a), limit)
  {
    LastStep(ops, limit);
    var op := ops[|ops| - 1];
    CachedExactly(c, a);
    hide *;
    match op
    case AddOp(_, n) => AddAddrs(c, a, n, limit);
    case GetOp(_) => GetAddrs(c, a, limit);
  }

  lemma AddAddrs(c: seq<Entry>, a: Page, n: Node, limit: nat)
    ensures Addrs(Add(c, a, n, limit)) == Take([a] + Without(Addrs(c), a), limit)
  {
    DropAddrs(c, a);
    hide Drop, Without;
    LeadAddrs(Entry(a, n), Drop(c, a), limit);
  }

  lemma LeadAddrs(e: Entry, t: seq<Entry>, limit: nat)
    ensures Addrs(Take([e] + t, limit)) == Take([e.addr] + Addrs(t), limit)
  {
    assert Addrs([e] + t) == [e.addr] + Addrs(t);
  }

  lemma GetAddrs(c: seq<Entry>, a: Page, limit: nat)
    requires Cached(c, a) && |c| <= limit && Distinct(Addrs(c))
    ensures Addrs(Get(c, a)) == Take([a] + Without(Addrs(c), a), limit)
  {
    var e := c[Find(Addrs(c), a)];
    assert e.addr == a by { assert Addrs(c)[Find(Addrs(c), a)] == a; }
    DropAddrs(c, a);
    assert |Without(Addrs(c), a)| == |c| - 1 by { WithoutFacts(Addrs(c), a); }
    assert Get(c, a) == [e] + Drop(c, a);
    hide Drop, Without, Get, Find;
    LeadAddrs(e, Drop(c, a), limit);
  }

  lemma {:induction false} RunIsFresh(ops: seq<Op>, limit: nat)
    requires limit >= 1
    ensures FreshNodes(ops, Run(ops, limit))
  {
    hide *;
    if ops == [] {
      NothingIsFresh(limit);
    } else {
      var was, op := ops[..|ops| - 1], ops[|ops| - 1];
      RunIsFresh(was, limit);
      RunIsDistinct(was, limit);
      LastStep(ops, limit);
      var c, d := Run(was, limit), Run(ops, limit);
      forall i | 0 <= i < |d| ensures FreshEntry(ops, d[i]) {
        StepEntry(c, op, limit, d, i);
        StepFresh(was, op, c, d[i]);
        assert ops == was + [op];
      }
      AllFresh(ops, d);
    }
  }

  lemma NothingIsFresh(limit: nat)
    ensures FreshNodes([], Run([], limit))
  {}

  lemma RunIsDistinct(ops: seq<Op>, limit: nat)
    requires limit >= 1
    ensures Distinct(Addrs(Run(ops, limit)))
  {
    RunIsMostRecent(ops, limit);
  }

  lemma LastStep(ops: seq<Op>, limit: nat)
    requires ops != []
    ensures Run(ops, limit) == match ops[|ops| - 1]
      case AddOp(a, n) => Add(Run(ops[..|ops| - 1], limit), a, n, limit)
      case GetOp(a) => Get(Run(ops[..|ops| - 1], limit), a)
  {}

  lemma AllFresh(ops: seq<Op>, c: seq<Entry>)
    requires forall i {:trigger c[i]} :: 0 <= i < |c| ==> FreshEntry(ops, c[i])
    ensures FreshNodes(ops, c)
  {
    hide FreshEntry;
  }

  lemma AddedNext(was: seq<Op>, op: Op, a: Page)
    requires (op.AddOp? && op.addr == a) || exists k :: 0 <= k < |was| && was[k].AddOp? && was[k].addr == a
    ensures exists k :: 0 <= k < |was + [op]| && (was + [op])[k].AddOp? && (was + [op])[k].addr == a
    ensures LastAdded(was + [op], a) == if op.AddOp? && op.addr == a then op.node else LastAdded(was, a)
  {
    var ops := was + [op];
    assert ops[..|ops| - 1] == was;
    if op.AddOp? && op.addr == a {
      assert ops[|was|] == op;
    } else {
      var k :| 0 <= k < |was| && was[k].AddOp? && was[k].addr == a;
      assert ops[k] == was[k];
    }
  }

  lemma StepFresh(was: seq<Op>, op: Op, c: seq<Entry>, e: Entry)
    requires FreshNodes(was, c)
    requires (op.AddOp? && e == Entry(op.addr, op.node)) || (e in c && (op.AddOp? ==> e.addr != op.addr))
    ensures FreshEntry(was + [op], e)
  {
    if !(op.AddOp? && e == Entry(op.addr, op.node)) {
      var j :| 0 <= j < |c| && c[j] == e;
      assert FreshEntry(was, c[j]);
    }
    hide LastAdded;
    AddedNext(was, op, e.addr);
  }

  /** After one call an entry is the one just added, or an old one for another address. */
  lemma StepEntry(c: seq<Entry>, op: Op, limit: nat, d: seq<Entry>, i: nat)
    requires Distinct(Addrs(c)) && i < |d| && limit >= 1
    requires d == match op case AddOp(a, n) => Add(c, a, n, limit) case GetOp(a) => Get(c, a)
    ensures (op.AddOp? && d[i] == Entry(op.addr, op.node)) || (d[i] in c && (op.AddOp? ==> d[i].addr != op.addr))
  {
    DropMembers(c, op.addr);
    if op.AddOp? {
      assert d == Take([Entry(op.addr, op.node)] + Drop(c, op.addr), limit);
      hide *;
      LeadAt(Entry(op.addr, op.node), Drop(c, op.addr), limit, i);
    } else if Cached(c, op.addr) {
      var e := c[Find(Addrs(c), op.addr)];
      assert d == [e] + Drop(c, op.addr) && e in c;
      hide *;
      assert i > 0 ==> d[i] == Drop(c, op.addr)[i - 1];
    }
  }

  lemma DropMembers(c: seq<Entry>, a: Page)
    requires Distinct(Addrs(c))
    ensures forall k {:trigger Drop(c, a)[k]} :: 0 <= k < |Drop(c, a)| ==> Drop(c, a)[k] in c && Drop(c, a)[k].addr != a
  {
    var t := Drop(c, a);
    DropAddrs(c, a);
    WithoutFacts(Addrs(c), a);
    forall k | 0 <= k < |t| ensures t[k] in c && t[k].addr != a {
      assert t[k].addr == Addrs(t)[k] == Without(Addrs(c), a)[k];
    }
  }
}
