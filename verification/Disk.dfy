/** The database file behind its write-through cache, and the page allocator. */
module Disk {
  import opened Nodes
  import opened Codec
  import opened MemNodes
  import PageIO
  import opened Cache

  const LINK_LIMIT: nat := 0x8000_0000

  /** A free page stores the next free page as a signed int. */
  function LinkImage(p: Page): seq<Byte> {
    LE(p % 0x1_0000_0000, 4)
  }

  /** Reading that int back into a page number sign-extends it. */
  function LinkOf(data: seq<Byte>): Page
    requires |data| >= 4
  {
    var u := FromLE(data[..4]);
    if u < LINK_LIMIT then u else u + PAGE_LIMIT - 0x1_0000_0000
  }

  /** A link survives exactly when it is below 2^31, or has all its upper bits set. */
  lemma LinkRoundTrip(p: Page, data: seq<Byte>)
    requires p < PAGE_LIMIT && |data| >= 4 && data[..4] == LinkImage(p)
    ensures LinkOf(data) == p <==> p < LINK_LIMIT || p >= PAGE_LIMIT - LINK_LIMIT
  {
    FieldSizes();
    IntRoundTrip(p % 0x1_0000_0000, 4);
  }

  ghost predicate Holds(pages: seq<seq<Byte>>, a: Page, n: Node) {
    a < |pages| && Fits(n, Cap(a)) && pages[a] == Image(n, Cap(a))
  }

  ghost predicate FileOk(pages: seq<seq<Byte>>, nodes: map<Page, Node>) {
    && (forall a {:trigger pages[a]} :: 0 <= a < |pages| ==> |pages[a]| == Cap(a))
    && (forall a {:trigger Holds(pages, a, nodes[a])} :: a in nodes ==> Holds(pages, a, nodes[a]))
  }

  ghost predicate Agrees(e: Entry, nb: nat, nodes: map<Page, Node>) {
    e.addr < nb && (e.addr in nodes ==> e.node == nodes[e.addr])
  }

  ghost predicate CacheOk(cache: seq<Entry>, limit: nat, nb: nat, nodes: map<Page, Node>) {
    && 1 <= limit && |cache| <= limit && Distinct(Addrs(cache))
    && forall i {:trigger cache[i]} :: 0 <= i < |cache| ==> Agrees(cache[i], nb, nodes)
  }

  /** The counted free list: `free` in order, linked through the pages' first bytes. */
  ghost predicate ListOk(pages: seq<seq<Byte>>, fst: Page, free: seq<Page>) {
    && (free != [] ==> free[0] == fst)
    && forall i {:trigger free[i]} :: 0 <= i < |free| ==>
         free[i] < |pages| && |pages[free[i]]| >= 4 && (i + 1 < |free| ==> LinkOf(pages[free[i]]) == free[i + 1])
  }

  /** Every page is live or on the free list, never both, and the list has no page twice. */
  ghost predicate AllocOk(nb: nat, live: set<Page>, free: seq<Page>) {
    && Distinct(free)
    && (forall p {:trigger p in live} :: p in live ==> p < nb && p !in free)
    && (forall p {:trigger p in live} :: 0 <= p < nb && p !in live ==> p in free)
  }

  lemma NewFile(limit: nat)
    requires limit >= 1
    ensures var pages := [Zeros(Cap(0))];
      FileOk(pages, map[]) && CacheOk([], limit, 1, map[]) && ListOk(pages, 0, []) && AllocOk(1, {0}, [])
  {}

  class Db {
    var nbPages: nat
    var nbFree: nat
    var fstFree: Page
    const cacheLimit: nat

    var pages: seq<seq<Byte>>
    var cache: seq<Entry>
    var cacheSize: nat

    /** What was last written to each page, the pages in use, and the free list. */
    ghost var nodes: map<Page, Node>
    ghost var live: set<Page>
    ghost var free: seq<Page>

    ghost predicate Valid()
      reads this
    {
      && |pages| == nbPages && 1 <= nbPages < NO_PAGE
      && cacheSize == |cache| && nbFree == |free|
      && nodes.Keys <= live && 0 in live
      && FileOk(pages, nodes)
      && CacheOk(cache, cacheLimit, nbPages, nodes)
      && ListOk(pages, fstFree, free)
      && AllocOk(nbPages, live, free)
    }

    constructor (limit: nat)
      requires limit >= 1
      ensures Valid() && nodes == map[] && live == {0} && free == [] && nbPages == 1 && cacheLimit == limit
        && cache == []
    {
      NewFile(limit);
      hide FileOk, CacheOk, ListOk, AllocOk, Zeros, Cap;
      nbPages, nbFree, fstFree, cacheLimit := 1, 0, 0, limit;
      pages := [Zeros(Cap(0))];
      cache, cacheSize := [], 0;
      nodes, live, free := map[], {0}, [];
    }

    lemma NodeOk(a: Page)
      requires Valid() && a in nodes
      ensures a < nbPages && Fits(nodes[a], Cap(a))
    {
      assert Holds(pages, a, nodes[a]);
    }

    // -------------------------------------------------------------- cache

    method AddToCache(node: MemNode, addr: Page)
      requires node.Valid() && |cache| == cacheSize <= cacheLimit
      modifies this`cache, this`cacheSize
      ensures |cache| == cacheSize
      ensures cache == Add(old(cache), addr, node.Val(), cacheLimit)
    {
      hide *;
      var i := 0;
      while i < |cache|
        invariant cache == old(cache) && cacheSize == |cache| && i <= |cache|
        invariant forall k :: 0 <= k < i ==> cache[k].addr != addr
      {
        if cache[i].addr == addr {
          cache, cacheSize := cache[..i] + cache[i + 1..], cacheSize - 1;
          break;
        }
        i := i + 1;
      }
      DropIs(old(cache), addr, i);
      ValOf(node);
      var n := Node(node.parent, node.kind, node.keyVals[..node.nbKeys],
                    node.childAddrs[..if node.kind == TableLeaf then 1 else node.nbKeys + 1]);
      AddIs(old(cache), addr, n, cacheLimit);
      cache, cacheSize := [Entry(addr, n)] + cache, cacheSize + 1;
      if cacheSize > cacheLimit {
        cache, cacheSize := cache[..|cache| - 1], cacheSize - 1;
      }
    }

    /** A hit, wherever it is in the list, moves to the front and leaves the others in their order; a miss changes
        nothing. */
    method GetFromCache(addr: Page) returns (hit: bool, n: Node)
      modifies this`cache
      ensures hit <==> exists i :: 0 <= i < |old(cache)| && old(cache)[i].addr == addr
      ensures hit ==> exists i ::
        && 0 <= i < |old(cache)| && old(cache)[i] == Entry(addr, n)
        && cache == [Entry(addr, n)] + old(cache)[..i] + old(cache)[i + 1..]
      ensures !hit ==> cache == old(cache)
      ensures hit == Cached(old(cache), addr) && cache == Get(old(cache), addr)
    {
      n := EmptyLeaf();
      var i := 0;
      while i < |cache|
        invariant i <= |cache|
        invariant forall k :: 0 <= k < i ==> cache[k].addr != addr
      {
        if cache[i].addr == addr {
          FindAt(cache, addr, i);
          assert Addrs(cache)[i] == addr;
          hit, n := true, cache[i].node;
          assert cache[i] == Entry(addr, n);
          assert [cache[i]] + (cache[..i] + cache[i + 1..]) == [cache[i]] + cache[..i] + cache[i + 1..];
          cache := [cache[i]] + (cache[..i] + cache[i + 1..]);
          return;
        }
        i := i + 1;
      }
      CachedExactly(cache, addr);
      hit := false;
    }

    // -------------------------------------------------------------- nodes

    /** The node last written to the page, whether the cache still has it or not; null off the end of the file. */
    method ReadNode(addr: Page) returns (node: MemNode?)
      requires Valid() && (addr in nodes || addr >= nbPages)
      modifies this`cache, this`cacheSize
      ensures Valid()
      ensures addr >= nbPages ==> node == null
      ensures addr in nodes ==> node != null && fresh(node) && fresh(node.keyVals) && fresh(node.childAddrs)
      ensures addr in nodes ==> node.Valid() && node.Val() == nodes[addr]
      ensures addr in nodes ==> cache == (if Cached(old(cache), addr) then Get(old(cache), addr)
                                          else Add(old(cache), addr, nodes[addr], cacheLimit))
    {
      ghost var was := cache;
      GetKeepsCache(was, cacheLimit, nbPages, nodes, addr);
      hide FileOk, CacheOk, ListOk, AllocOk, Get, Add;
      var hit, n := GetFromCache(addr);
      if hit {
        HitAgrees(was, cacheLimit, nbPages, nodes, Entry(addr, n));
        NodeShape(addr);
        node := FromNode(n);
      } else if addr >= nbPages {
        node := null;
      } else {
        node := LoadNode(addr);
      }
    }

    lemma LiveBound(a: Page)
      requires Valid() && (a in live || a in nodes)
      ensures a in live && a < nbPages < NO_PAGE < PAGE_LIMIT
    {}

    lemma AllBelow()
      requires Valid()
      ensures nodes.Keys <= live && forall p {:trigger p in nodes} :: p in nodes ==> p < NO_PAGE
    {}

    lemma NodeShape(a: Page)
      requires Valid() && a in nodes
      ensures |nodes[a].cells| <= ORDER && |nodes[a].kids| ==
        if nodes[a].kind == TableLeaf then 1 else |nodes[a].cells| + 1
    {
      NodeOk(a);
    }

    /** A miss parses the page and caches what it finds. */
    method LoadNode(addr: Page) returns (node: MemNode)
      requires Valid() && addr in nodes
      modifies this`cache, this`cacheSize
      ensures Valid()
      ensures fresh(node) && fresh(node.keyVals) && fresh(node.childAddrs)
      ensures node.Valid() && node.Val() == nodes[addr]
      ensures cache == Add(old(cache), addr, nodes[addr], cacheLimit)
    {
      hide *;
      MissKeepsValid(addr);
      var data := pages[addr];
      node := PageIO.ParseNode(data, nodes[addr], Cap(addr));
      AddToCache(node, addr);
      StaysValid();
    }

    lemma MissKeepsValid(addr: Page)
      requires Valid() && addr in nodes
      ensures addr < |pages| == nbPages && 1 <= nbPages < NO_PAGE && |cache| == cacheSize <= cacheLimit
      ensures nbFree == |free| && nodes.Keys <= live && 0 in live
      ensures FileOk(pages, nodes) && ListOk(pages, fstFree, free) && AllocOk(nbPages, live, free)
      ensures CacheOk(Add(cache, addr, nodes[addr], cacheLimit), cacheLimit, nbPages, nodes)
      ensures Lays(nodes[addr], Cap(addr)) && Stored(nodes[addr]) == nodes[addr]
        && pages[addr] == Image(nodes[addr], Cap(addr))
    {
      assert Holds(pages, addr, nodes[addr]);
      MissReads(nodes[addr], Cap(addr));
      AddKeepsCache(cache, cacheLimit, nbPages, nodes, addr, nodes[addr]);
      assert nodes == nodes[addr := nodes[addr]];
    }

    /** Writes through: the cache and the page both get the node. */
    method WriteNode(node: MemNode, addr: Page) returns (ret: int)
      requires Valid() && node.Valid() && addr in live && Fits(node.Val(), Cap(addr))
      modifies this`cache, this`cacheSize, this`pages, this`nodes
      ensures Valid() && ret == 0
      ensures nodes == old(nodes)[addr := node.Val()]
      ensures cache == Add(old(cache), addr, node.Val(), cacheLimit)
    {
      hide *;
      ghost var n := node.Val();
      var cap := Cap(addr);
      WriteKeepsValid(n, addr);
      var rpage := PageIO.WritePage(node, cap);
      AddToCache(node, addr);
      pages := pages[addr := rpage[..]];
      nodes := nodes[addr := n];
      ret := 0;
      StaysValid();
    }

    lemma WriteKeepsValid(n: Node, addr: Page)
      requires Valid() && addr in live && Fits(n, Cap(addr))
      ensures addr < |pages| == nbPages && 1 <= nbPages < NO_PAGE && |cache| == cacheSize <= cacheLimit
      ensures nbFree == |free| && nodes[addr := n].Keys <= live && 0 in live && AllocOk(nbPages, live, free)
      ensures Lays(n, Cap(addr)) && FileOk(pages[addr := Image(n, Cap(addr))], nodes[addr := n])
      ensures ListOk(pages[addr := Image(n, Cap(addr))], fstFree, free)
      ensures CacheOk(Add(cache, addr, n, cacheLimit), cacheLimit, nbPages, nodes[addr := n])
    {
      AddKeepsCache(cache, cacheLimit, nbPages, nodes, addr, n);
      WriteKeepsFile(pages, nodes, addr, n);
      WriteKeepsList(pages, fstFree, free, addr, Image(n, Cap(addr)));
    }

    // -------------------------------------------------------------- allocation

    /** A page that was not in use: the head of the free list, or a new one at the end of the file. */
    method CreateAddr() returns (page: Page)
      requires Valid() && nbPages + 1 < NO_PAGE
      modifies this`nbPages, this`nbFree, this`fstFree, this`pages, this`live, this`free
      ensures Valid()
      ensures page !in old(live) && page != 0 && live == old(live) + {page}
      ensures nbPages <= old(nbPages) + 1 && page < nbPages
      ensures if old(free) != [] then page == old(free)[0] && free == old(free)[1..] && nbPages == old(nbPages)
              else page == old(nbPages) && free == [] && nbPages == old(nbPages) + 1
    {
      if nbFree > 0 {
        page := fstFree;
        assert free[0] == fstFree && page < |pages|;
        PopKeepsList(pages, fstFree, free);
        fstFree := LinkOf(pages[page]);
        nbFree := nbFree - 1;
        PopKeepsAlloc(nbPages, live, free);
        free, live := free[1..], live + {page};
      } else {
        page := nbPages;
        GrowKeepsFile(pages, nodes);
        GrowKeepsCache(cache, cacheLimit, nbPages, nodes);
        nbPages := nbPages + 1;
        pages := pages + [Zeros(PAGE_SIZE)];
        live := live + {page};
      }
    }

    /** Puts a page in use, other than the first, on the free list. `junk` is what the unset bytes of the buffer happen
        to be. The list survives as long as the old head fits the 31 bits of its link. */
    method FreePage(addr: Page, junk: seq<Byte>)
      requires Valid() && addr in live && addr != 0 && |junk| == PAGE_SIZE
      requires nbFree == 0 || fstFree < LINK_LIMIT
      modifies this`nbFree, this`fstFree, this`pages, this`nodes, this`live, this`free
      ensures Valid()
      ensures free == [addr] + old(free) && live == old(live) - {addr} && nodes == old(nodes) - {addr}
    {
      hide *;
      FreeKeepsValid(addr, junk);
      nbFree := nbFree + 1;
      var data := LinkImage(fstFree) + junk[4..];
      pages := pages[addr := data];
      fstFree := addr;
      free, live, nodes := [addr] + free, live - {addr}, nodes - {addr};
      StaysValid();
    }

    lemma StaysValid()
      requires |pages| == nbPages && 1 <= nbPages < NO_PAGE && cacheSize == |cache| && nbFree == |free|
      requires nodes.Keys <= live && 0 in live && FileOk(pages, nodes) && CacheOk(cache, cacheLimit, nbPages, nodes)
      requires ListOk(pages, fstFree, free) && AllocOk(nbPages, live, free)
      ensures Valid()
    {}

    /** What putting `addr` on the list leaves of the file, the cache and the list itself. */
    lemma FreeKeepsValid(addr: Page, junk: seq<Byte>)
      requires Valid() && addr in live && addr != 0 && |junk| == PAGE_SIZE && (nbFree == 0 || fstFree < LINK_LIMIT)
      ensures addr < |pages| == nbPages && 1 <= nbPages < NO_PAGE && cacheSize == |cache| && nbFree == |free|
      ensures nodes.Keys <= live && 0 in live && |junk| >= 4
      ensures var data := LinkImage(fstFree) + junk[4..];
        && FileOk(pages[addr := data], nodes - {addr}) && CacheOk(cache, cacheLimit, nbPages, nodes - {addr})
        && ListOk(pages[addr := data], addr, [addr] + free) && AllocOk(nbPages, live - {addr}, [addr] + free)
    {
      var data := LinkImage(fstFree) + junk[4..];
      assert addr < |pages|;
      PushKeepsList(pages, fstFree, free, addr, data);
      FreeKeepsFile(pages, nodes, addr, data);
      FreeKeepsCache(cache, cacheLimit, nbPages, nodes, addr);
      FreeKeepsAlloc(nbPages, live, free, addr);
      hide FileOk, ListOk, CacheOk, AllocOk, LinkImage, LE, Cap;
    }
  }

  lemma DropIs(c: seq<Entry>, addr: Page, i: nat)
    requires i <= |c| && (forall k :: 0 <= k < i ==> c[k].addr != addr) && (i < |c| ==> c[i].addr == addr)
    ensures Drop(c, addr) == if i < |c| then c[..i] + c[i + 1..] else c
  {
    FindAt(c, addr, i);
  }

  lemma AddIs(c: seq<Entry>, addr: Page, n: Node, limit: nat)
    ensures Add(c, addr, n, limit) == Take([Entry(addr, n)] + Drop(c, addr), limit)
    ensures forall s: seq<Entry> {:trigger Take(s, limit)} :: Take(s, limit) == if |s| <= limit then s else s[..limit]
  {}

  lemma FitsLays(n: Node, cap: nat)
    requires Fits(n, cap)
    ensures Lays(n, cap)
  {}

  lemma WriteKeepsFile(pages: seq<seq<Byte>>, nodes: map<Page, Node>, a: Page, n: Node)
    requires FileOk(pages, nodes) && a < |pages| && Fits(n, Cap(a))
    ensures FileOk(pages[a := Image(n, Cap(a))], nodes[a := n])
  {
    var p, m := pages[a := Image(n, Cap(a))], nodes[a := n];
    hide Fits, Image;
    forall b | b in m ensures Holds(p, b, m[b]) {
      if b != a { assert Holds(pages, b, nodes[b]); } else { FitsLays(n, Cap(a)); }
    }
  }

  lemma WriteKeepsList(pages: seq<seq<Byte>>, fst: Page, free: seq<Page>, a: Page, data: seq<Byte>)
    requires ListOk(pages, fst, free) && a < |pages| && a !in free
    ensures ListOk(pages[a := data], fst, free)
  {
    assert forall i :: 0 <= i < |free| ==> free[i] != a;
  }

  lemma PopKeepsList(pages: seq<seq<Byte>>, fst: Page, free: seq<Page>)
    requires ListOk(pages, fst, free) && free != []
    ensures ListOk(pages, LinkOf(pages[fst]), free[1..])
  {
    assert free[0] == fst;
    assert forall i :: 0 <= i < |free[1..]| ==> free[1..][i] == free[i + 1];
  }

  lemma PopKeepsAlloc(nb: nat, live: set<Page>, free: seq<Page>)
    requires AllocOk(nb, live, free) && free != [] && free[0] < nb
    ensures AllocOk(nb, live + {free[0]}, free[1..]) && free[0] !in live
  {
    var l, f := live + {free[0]}, free[1..];
    assert free == [free[0]] + f;
    assert forall i :: 0 <= i < |f| ==> f[i] == free[i + 1];
    assert free[0] in free;
  }

  lemma GrowKeepsFile(pages: seq<seq<Byte>>, nodes: map<Page, Node>)
    requires FileOk(pages, nodes) && |pages| >= 1
    ensures FileOk(pages + [Zeros(PAGE_SIZE)], nodes)
  {
    var p := pages + [Zeros(PAGE_SIZE)];
    hide Fits, Image;
    forall b | b in nodes ensures Holds(p, b, nodes[b]) { assert Holds(pages, b, nodes[b]); }
  }

  lemma GrowKeepsCache(c: seq<Entry>, limit: nat, nb: nat, nodes: map<Page, Node>)
    requires CacheOk(c, limit, nb, nodes)
    ensures CacheOk(c, limit, nb + 1, nodes)
  {
    forall i | 0 <= i < |c| ensures Agrees(c[i], nb + 1, nodes) { assert Agrees(c[i], nb, nodes); }
  }

  lemma PushKeepsList(pages: seq<seq<Byte>>, fst: Page, free: seq<Page>, a: Page, data: seq<Byte>)
    requires ListOk(pages, fst, free) && a < |pages| && a !in free
    requires free == [] || fst < LINK_LIMIT
    requires |data| >= 4 && data[..4] == LinkImage(fst)
    ensures ListOk(pages[a := data], a, [a] + free)
  {
    WriteKeepsList(pages, fst, free, a, data);
    var f := [a] + free;
    if free != [] { LinkRoundTrip(fst, data); }
    assert forall i :: 0 < i < |f| ==> f[i] == free[i - 1];
  }

  lemma FreeKeepsFile(pages: seq<seq<Byte>>, nodes: map<Page, Node>, a: Page, data: seq<Byte>)
    requires FileOk(pages, nodes) && a < |pages| && |data| == Cap(a)
    ensures FileOk(pages[a := data], nodes - {a})
  {
    var p := pages[a := data];
    hide Fits, Image;
    forall b | b in nodes - {a} ensures Holds(p, b, nodes[b]) { assert Holds(pages, b, nodes[b]); }
  }

  lemma FreeKeepsAlloc(nb: nat, live: set<Page>, free: seq<Page>, a: Page)
    requires AllocOk(nb, live, free) && a in live
    ensures AllocOk(nb, live - {a}, [a] + free)
  {
    var f := [a] + free;
    assert forall i :: 0 < i < |f| ==> f[i] == free[i - 1];
  }

  lemma FreeKeepsCache(c: seq<Entry>, limit: nat, nb: nat, nodes: map<Page, Node>, a: Page)
    requires CacheOk(c, limit, nb, nodes)
    ensures CacheOk(c, limit, nb, nodes - {a})
  {
    forall i | 0 <= i < |c| ensures Agrees(c[i], nb, nodes - {a}) { assert Agrees(c[i], nb, nodes); }
  }

  lemma MissReads(n: Node, cap: nat)
    requires Fits(n, cap)
    ensures Lays(n, cap) && Stored(n) == n
  {
    StoredExactly(n);
  }

  lemma HitAgrees(c: seq<Entry>, limit: nat, nb: nat, nodes: map<Page, Node>, e: Entry)
    requires CacheOk(c, limit, nb, nodes) && e in c
    ensures e.addr < nb && (e.addr in nodes ==> e.node == nodes[e.addr])
  {
    var i :| 0 <= i < |c| && c[i] == e;
    assert Agrees(c[i], nb, nodes);
  }

  lemma DropKeepsDistinct(c: seq<Entry>, a: Page)
    requires Distinct(Addrs(c))
    ensures Distinct(Addrs(Drop(c, a))) && a !in Addrs(Drop(c, a))
  {
    DropAddrs(c, a);
    WithoutFacts(Addrs(c), a);
  }

  /** A list led by a new entry for `a`, followed by old entries for other addresses. */
  lemma LeadKeepsCache(c: seq<Entry>, limit: nat, nb: nat, nodes: map<Page, Node>, a: Page, n: Node)
    requires CacheOk(c, limit, nb, nodes) && a < nb
    ensures CacheOk(Take([Entry(a, n)] + Drop(c, a), limit), limit, nb, nodes[a := n])
  {
    var t, d := Drop(c, a), Take([Entry(a, n)] + Drop(c, a), limit);
    DropKeepsDistinct(c, a);
    DropMembers(c, a);
    hide Drop;
    assert forall i :: 0 < i < |d| ==> d[i] == t[i - 1] && Addrs(d)[i] == Addrs(t)[i - 1];
    forall i | 0 <= i < |d| ensures Agrees(d[i], nb, nodes[a := n]) {
      if i > 0 {
        var k :| 0 <= k < |c| && c[k] == t[i - 1];
      }
    }
  }

  lemma GetKeepsCache(c: seq<Entry>, limit: nat, nb: nat, nodes: map<Page, Node>, a: Page)
    requires CacheOk(c, limit, nb, nodes)
    ensures CacheOk(Get(c, a), limit, nb, nodes) && |Get(c, a)| == |c|
  {
    if Cached(c, a) {
      var e := c[Find(Addrs(c), a)];
      assert Addrs(c)[Find(Addrs(c), a)] == a;
      assert Agrees(e, nb, nodes);
      LeadKeepsCache(c, limit, nb, nodes, a, e.node);
      assert [e] + Drop(c, a) == Take([e] + Drop(c, a), limit);
      if a in nodes {
        assert nodes[a := e.node] == nodes;
      } else {
        ForgetNode(Get(c, a), limit, nb, nodes, a, e.node);
      }
    }
  }

  lemma ForgetNode(c: seq<Entry>, limit: nat, nb: nat, nodes: map<Page, Node>, a: Page, n: Node)
    requires CacheOk(c, limit, nb, nodes[a := n])
    ensures CacheOk(c, limit, nb, nodes - {a})
    ensures a !in nodes ==> CacheOk(c, limit, nb, nodes)
  {
    forall i | 0 <= i < |c| ensures Agrees(c[i], nb, nodes - {a}) && (a !in nodes ==> Agrees(c[i], nb, nodes)) {
      assert Agrees(c[i], nb, nodes[a := n]);
    }
  }

  lemma AddKeepsCache(c: seq<Entry>, limit: nat, nb: nat, nodes: map<Page, Node>, a: Page, n: Node)
    requires CacheOk(c, limit, nb, nodes) && a < nb
    ensures CacheOk(Add(c, a, n, limit), limit, nb, nodes[a := n])
  {
    LeadKeepsCache(c, limit, nb, nodes, a, n);
  }

  function EmptyLeaf(): Node {
    Node(NO_PAGE, TableLeaf, [], [NO_PAGE])
  }

  lemma {:induction false} FindAt(c: seq<Entry>, addr: Page, i: nat)
    requires i <= |c| && (forall k :: 0 <= k < i ==> c[k].addr != addr) && (i < |c| ==> c[i].addr == addr)
    ensures Find(Addrs(c), addr) == i
  {
    var f := Find(Addrs(c), addr);
    assert f < |c| ==> Addrs(c)[f] == addr;
    assert i < |c| ==> Addrs(c)[i] == addr;
  }
}
