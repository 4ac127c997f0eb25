/** Any interleaving of reads and writes: the cache in front of the file is never seen. */
module DiskRuns {
  import opened Options
  import opened Nodes
  import opened Codec
  import opened MemNodes
  import opened Disk

  datatype Access = Read(addr: Page) | Write(addr: Page, node: Node)

  /** The accesses after which the page was last written is number `j` among the first `i`. */
  ghost predicate LastWrite(run: seq<Access>, i: nat, addr: Page, j: nat) {
    && j < i <= |run| && run[j].Write? && run[j].addr == addr
    && forall k {:trigger run[k]} :: j < k < i ==> run[k].Read? || run[k].addr != addr
  }

  ghost predicate Unwritten(run: seq<Access>, i: nat, addr: Page) {
    i <= |run| && forall k {:trigger run[k]} :: 0 <= k < i ==> run[k].Read? || run[k].addr != addr
  }

  /** What a read as access number `i` is to give: the node last written to the page in the run, otherwise the one it
      had before. */
  ghost predicate Sees(nodes: map<Page, Node>, run: seq<Access>, i: nat, got: Option<Node>) {
    && i < |run| && run[i].Read?
    && (forall j: nat {:trigger LastWrite(run, i, run[i].addr, j)} :: LastWrite(run, i, run[i].addr, j) ==>
         got == Some(run[j].node))
    && (Unwritten(run, i, run[i].addr) ==> got == if run[i].addr in nodes then Some(nodes[run[i].addr]) else None)
  }

  /** Writes go to pages in use and fit them; reads ask for a page that has been written, or one off the end of the
      file. */
  ghost predicate Servable(nodes: map<Page, Node>, live: set<Page>, nbPages: nat, run: seq<Access>) {
    forall i {:trigger run[i]} :: 0 <= i < |run| ==>
      if run[i].Write? then run[i].addr in live && Fits(run[i].node, Cap(run[i].addr))
      else run[i].addr in nodes || !Unwritten(run, i, run[i].addr) || run[i].addr >= nbPages
  }

  /** The pages after part of a run. */
  ghost function Latest(nodes: map<Page, Node>, run: seq<Access>): map<Page, Node> {
    if run == [] then nodes
    else
      var before, last := Latest(nodes, run[..|run| - 1]), run[|run| - 1];
      if last.Write? then before[last.addr := last.node] else before
  }

  lemma {:induction false} LatestIs(nodes: map<Page, Node>, run: seq<Access>, i: nat, addr: Page)
    requires i <= |run|
    ensures Unwritten(run, i, addr) || exists j: nat :: LastWrite(run, i, addr, j)
    ensures forall j: nat {:trigger LastWrite(run, i, addr, j)} :: LastWrite(run, i, addr, j) ==>
      addr in Latest(nodes, run[..i]) && Latest(nodes, run[..i])[addr] == run[j].node
    ensures Unwritten(run, i, addr) ==>
      (addr in Latest(nodes, run[..i]) <==> addr in nodes)
        && (addr in nodes ==> Latest(nodes, run[..i])[addr] == nodes[addr])
  {
    if i > 0 {
      LatestIs(nodes, run, i - 1, addr);
      assert run[..i][..i - 1] == run[..i - 1];
      if run[i - 1].Write? && run[i - 1].addr == addr {
        assert LastWrite(run, i, addr, i - 1);
      } else if !Unwritten(run, i - 1, addr) {
        var j: nat :| LastWrite(run, i - 1, addr, j);
        assert LastWrite(run, i, addr, j);
      }
    }
  }

  lemma ReadyFor(nodes: map<Page, Node>, live: set<Page>, nbPages: nat, run: seq<Access>, i: nat)
    requires Servable(nodes, live, nbPages, run) && i < |run|
    ensures run[i].Read? ==> run[i].addr in Latest(nodes, run[..i]) || run[i].addr >= nbPages
    ensures run[i].Write? ==> run[i].addr in live && Fits(run[i].node, Cap(run[i].addr))
    ensures run[i].Write? ==>
      var n := run[i].node;
      |n.cells| <= ORDER && |n.kids| == if n.kind == TableLeaf then 1 else |n.cells| + 1
  {
    LatestIs(nodes, run, i, run[i].addr);
    hide LastWrite, Unwritten, Latest;
  }

  lemma SeesNow(nodes: map<Page, Node>, run: seq<Access>, i: nat, got: Option<Node>)
    requires i < |run| && run[i].Read?
    requires var was := Latest(nodes, run[..i]); got == if run[i].addr in was then Some(was[run[i].addr]) else None
    ensures Sees(nodes, run, i, got)
  {
    LatestIs(nodes, run, i, run[i].addr);
    hide LastWrite, Unwritten, Latest;
  }

  lemma LatestNext(nodes: map<Page, Node>, run: seq<Access>, i: nat)
    requires i < |run|
    ensures var was := Latest(nodes, run[..i]);
      Latest(nodes, run[..i + 1]) == if run[i].Write? then was[run[i].addr := run[i].node] else was
  {
    assert run[..i + 1][..i] == run[..i];
  }

  lemma LatestFirst(nodes: map<Page, Node>, run: seq<Access>)
    ensures Latest(nodes, run[..0]) == nodes
  {}

  /** Serves any run of reads and writes: every read gives the node last written to its page, whatever the cache kept or
      dropped in between. */
  method Serve(db: Db, run: seq<Access>) returns (got: seq<Option<Node>>)
    requires db.Valid() && Servable(db.nodes, db.live, db.nbPages, run)
    modifies db`cache, db`cacheSize, db`pages, db`nodes
    ensures db.Valid() && |got| == |run| && db.nodes == Latest(old(db.nodes), run)
    ensures forall i {:trigger run[i]} :: 0 <= i < |run| && run[i].Read? ==> Sees(old(db.nodes), run, i, got[i])
  {
    hide *;
    ghost var was := db.nodes;
    got := [];
    LatestFirst(was, run);
    for i := 0 to |run|
      invariant db.Valid() && |got| == i && db.nodes == Latest(was, run[..i])
      invariant forall k {:trigger run[k]} :: 0 <= k < i && run[k].Read? ==> Sees(was, run, k, got[k])
    {
      ReadyFor(was, db.live, db.nbPages, run, i);
      LatestNext(was, run, i);
      var n := None;
      if run[i].Read? {
        if run[i].addr in db.nodes { db.LiveBound(run[i].addr); }
        var node := db.ReadNode(run[i].addr);
        if node != null {
          var m := ToNode(node);
          n := Some(m);
        }
        SeesNow(was, run, i, n);
      } else {
        var node := FromNode(run[i].node);
        var ret := db.WriteNode(node, run[i].addr);
      }
      got := got + [n];
    }
    assert run[..|run|] == run;
  }
}
