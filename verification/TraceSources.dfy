/** `trace_paths` as a whole: every block, every source, every first hop. */
module TraceSources {
  import opened Basics
  import opened Reach
  import opened SetFacts
  import opened SwitchGraph
  import opened TracePaths

  // One source ---------------------------------------------------------------------

  /** The paths of the given first hops; each first hop starts with a fresh copy of {src}. */
  function PathsVia(adj: Adj, src: Key, hops: seq<Hop>): seq<Path> {
    if hops == [] then []
    else PathsVia(adj, src, hops[..|hops| - 1]) + PathsByHop(adj, src, hops[|hops| - 1])
  }

  function PathsByHop(adj: Adj, src: Key, hop: Hop): seq<Path> {
    Prefixed(Pass(src, hop), Follow(adj, hop, {src}).paths)
  }

  function PathsOf(adj: Adj, src: Key): seq<Path> {
    PathsVia(adj, src, Out(adj, src))
  }

  lemma {:induction false} PathsViaShow(adj: Adj, src: Key, hops: seq<Hop>, hop: Hop, t: PathStep)
    requires hop in hops && Shown(PathsByHop(adj, src, hop), t)
    ensures Shown(PathsVia(adj, src, hops), t)
  {
    var n := |hops| - 1;
    assert hops == hops[..n] + [hops[n]];
    var front := PathsVia(adj, src, hops[..n]);
    if hop in hops[..n] {
      PathsViaShow(adj, src, hops[..n], hop, t);
      var i :| 0 <= i < |front| && t in front[i];
      assert PathsVia(adj, src, hops)[i] == front[i];
    } else {
      ShownAfterAppend(front, PathsByHop(adj, src, hop), t);
    }
  }

  /** A slave port reached by a crossing always has a directional type, so a source is never entered. */
  lemma CrossingIsDirectional(hop: Hop)
    requires NextKey(hop).Some?
    ensures Directional(NextKey(hop).value.ptype)
  {
  }

  /** Everything on a walk that leaves `src` by `hop` is visited by the search of that hop. */
  lemma {:induction false} WalkIsVisited(adj: Adj, src: Key, hop: Hop, walk: seq<Key>, i: nat)
    requires !Directional(src.ptype) && IsRoute(SuccOf(adj), walk) && |walk| >= 2 && walk[0] == src
    requires NextKey(hop) == Some(walk[1]) && 1 <= i < |walk|
    ensures walk[i] in Follow(adj, hop, {src}).visited - {src}
  {
    var seen := Follow(adj, hop, {src}).visited;
    FollowCloses(adj, hop, {src});
    if i == 1 {
      CrossingIsDirectional(hop);
    } else {
      WalkIsVisited(adj, src, hop, walk, i - 1);
      assert Succ(adj, walk[i - 1], walk[i]);
      var next :| next in Out(adj, walk[i - 1]) && NextKey(next) == Some(walk[i]);
      CrossingIsDirectional(next);
      assert AllLeadInto(Out(adj, walk[i - 1]), seen);
      var j :| 0 <= j < |Out(adj, walk[i - 1])| && Out(adj, walk[i - 1])[j] == next;
      assert LeadsInto(Out(adj, walk[i - 1])[j], seen);
    }
  }

  /** Every slave port reachable from a source, with every way out of it, is on some printed path. */
  lemma ReachableIsShown(adj: Adj, src: Key, k: Key)
    requires !Directional(src.ptype) && Reachable(adj, src, k) && k != src
    ensures Covered(adj, PathsOf(adj, src), k)
  {
    var walk :| IsRoute(SuccOf(adj), walk) && walk[0] == src && walk[|walk| - 1] == k;
    assert Succ(adj, walk[0], walk[1]);
    var hop :| hop in Out(adj, src) && NextKey(hop) == Some(walk[1]);
    WalkIsVisited(adj, src, hop, walk, |walk| - 1);
    FollowCovers(adj, hop, {src});
    CoveredVia(adj, src, hop, k);
  }

  lemma ShownByHop(adj: Adj, src: Key, hop: Hop, t: PathStep)
    requires hop in Out(adj, src) && Shown(Follow(adj, hop, {src}).paths, t)
    ensures Shown(PathsOf(adj, src), t)
  {
    ShownAfterPrefix(Pass(src, hop), Follow(adj, hop, {src}).paths, [], t);
    assert PathsByHop(adj, src, hop) + [] == PathsByHop(adj, src, hop);
    PathsViaShow(adj, src, Out(adj, src), hop, t);
  }

  lemma CoveredVia(adj: Adj, src: Key, hop: Hop, k: Key)
    requires hop in Out(adj, src) && Covered(adj, Follow(adj, hop, {src}).paths, k)
    ensures Covered(adj, PathsOf(adj, src), k)
  {
    if Out(adj, k) == [] {
      ShownByHop(adj, src, hop, Leaf(k, Dangling));
    } else {
      forall next | next in Out(adj, k)
        ensures Shown(PathsOf(adj, src), Pass(k, next))
      {
        ShownByHop(adj, src, hop, Pass(k, next));
      }
    }
  }

  /** The first hops of the source itself are shown too. */
  lemma FirstHopIsShown(adj: Adj, src: Key, hop: Hop)
    requires hop in Out(adj, src)
    ensures Shown(PathsOf(adj, src), Pass(src, hop))
  {
    FollowCovers(adj, hop, {src});
    var paths := PathsByHop(adj, src, hop);
    assert paths[0] == [Pass(src, hop)] + Follow(adj, hop, {src}).paths[0];
    assert Pass(src, hop) in paths[0];
    PathsViaShow(adj, src, Out(adj, src), hop, Pass(src, hop));
  }

  /**
   * Path `j` of the paths of one first hop: it leaves `src` by that hop, follows
   * configured hops, and its end is decided by `src`, the ports entered by the
   * earlier paths of the same hop and the ports it passes itself.
   */
  ghost predicate GenuinePath(adj: Adj, src: Key, hop: Hop, paths: seq<Path>, j: int)
    requires 0 <= j < |paths|
  {
    && hop in Out(adj, src)
    && |paths[j]| > 0 && paths[j][0] == Pass(src, hop)
    && PathFrom(adj, hop, paths[j][1..])
    && EndFits(paths, {src}, j)
  }

  lemma VisitedIsReachable(adj: Adj, src: Key, hop: Hop)
    requires hop in Out(adj, src)
    ensures forall k :: k in Follow(adj, hop, {src}).visited ==> Reachable(adj, src, k)
  {
    ReachesSelf(SuccOf(adj), src);
    if NextKey(hop).Some? {
      assert Succ(adj, src, NextKey(hop).value);
      ReachesOn(SuccOf(adj), src, src, NextKey(hop).value);
    }
    FollowReaches(adj, hop, {src}, src);
  }

  lemma PrintedByHopIsGenuine(adj: Adj, src: Key, hop: Hop, j: nat)
    requires hop in Out(adj, src) && j < |PathsByHop(adj, src, hop)|
    ensures GenuinePath(adj, src, hop, PathsByHop(adj, src, hop), j)
  {
    var first := Follow(adj, hop, {src}).paths;
    FollowIsSound(adj, hop, {src});
    FollowVisits(adj, hop, {src});
    EndsFitByParts(src, hop, {src}, first, Follow(adj, hop, {src}).visited, []);
    assert PathsByHop(adj, src, hop) + [] == PathsByHop(adj, src, hop);
    assert PathsByHop(adj, src, hop)[j][1..] == first[j];
  }

  /** Path `i` of the given first hops is path `j` of first hop `h`. */
  lemma {:induction false} GroupOf(adj: Adj, src: Key, hops: seq<Hop>, i: nat) returns (h: nat, j: nat)
    requires i < |PathsVia(adj, src, hops)|
    ensures h < |hops| && j < |PathsByHop(adj, src, hops[h])|
    ensures i == |PathsVia(adj, src, hops[..h])| + j
    ensures PathsVia(adj, src, hops)[i] == PathsByHop(adj, src, hops[h])[j]
  {
    var n := |hops| - 1;
    var front := PathsVia(adj, src, hops[..n]);
    if i < |front| {
      h, j := GroupOf(adj, src, hops[..n], i);
      assert hops[..n][..h] == hops[..h];
    } else {
      h, j := n, i - |front|;
    }
  }

  /** And path `j` of first hop `h` is printed at that place. */
  lemma {:induction false} GroupAt(adj: Adj, src: Key, hops: seq<Hop>, h: nat, j: nat)
    requires h < |hops| && j < |PathsByHop(adj, src, hops[h])|
    ensures var i := |PathsVia(adj, src, hops[..h])| + j;
            i < |PathsVia(adj, src, hops)| && PathsVia(adj, src, hops)[i] == PathsByHop(adj, src, hops[h])[j]
  {
    var n := |hops| - 1;
    if h < n {
      GroupAt(adj, src, hops[..n], h, j);
      assert hops[..n][..h] == hops[..h];
    }
  }

  /** Every printed path is a genuine path of one first hop, at its place among the paths of that hop. */
  lemma PrintedIsGenuine(adj: Adj, src: Key, i: nat) returns (h: nat, j: nat)
    requires i < |PathsOf(adj, src)|
    ensures h < |Out(adj, src)| && j < |PathsByHop(adj, src, Out(adj, src)[h])|
    ensures i == |PathsVia(adj, src, Out(adj, src)[..h])| + j
    ensures PathsOf(adj, src)[i] == PathsByHop(adj, src, Out(adj, src)[h])[j]
    ensures GenuinePath(adj, src, Out(adj, src)[h], PathsByHop(adj, src, Out(adj, src)[h]), j)
  {
    h, j := GroupOf(adj, src, Out(adj, src), i);
    PrintedByHopIsGenuine(adj, src, Out(adj, src)[h], j);
  }

  lemma {:induction false} StepIsReachable(adj: Adj, src: Key, k: Key, hop: Hop, p: Path, t: PathStep)
    requires Reachable(adj, src, k) && hop in Out(adj, k) && PathFrom(adj, hop, p)
    requires t in p && (t.Through? || t.why == Dangling)
    ensures Reachable(adj, src, t.key)
    decreases |p|
  {
    if NextKey(hop).Some? {
      assert Succ(adj, k, NextKey(hop).value);
      ReachesOn(SuccOf(adj), src, k, NextKey(hop).value);
      if p[0].Through? {
        var key := p[0].key;
        var next :| next in Out(adj, key) && p[0] == Pass(key, next) && PathFrom(adj, next, p[1..]);
        if t != p[0] {
          assert t in p[1..];
          StepIsReachable(adj, src, key, next, p[1..], t);
        }
      }
    }
  }

  /** Every slave port on a printed path of a source is reachable from that source. */
  lemma PrintedIsReachable(adj: Adj, src: Key, i: nat, t: PathStep)
    requires i < |PathsOf(adj, src)| && t in PathsOf(adj, src)[i] && (t.Through? || t.why == Dangling)
    ensures Reachable(adj, src, t.key)
  {
    var h, j := PrintedIsGenuine(adj, src, i);
    var p := PathsOf(adj, src)[i];
    ReachesSelf(SuccOf(adj), src);
    if t != p[0] {
      assert t in p[1..];
      StepIsReachable(adj, src, src, Out(adj, src)[h], p[1..], t);
    }
  }

  // All sources of all blocks ---------------------------------------------------------

  predicate IsSource(b: Block, k: Key) {
    || (exists i :: 0 <= i < |b.slaves| && SlaveSource(b.slaves[i], k))
    || (exists i :: 0 <= i < |b.circuits| && CircuitSource(b.circuits[i], k))
  }

  predicate SlaveSource(ss: PktSlave, k: Key) {
    ss.ptype == DMA && k == Key(ss.tile, ss.ptype, ss.num)
  }

  predicate CircuitSource(cc: CircuitConn, k: Key) {
    !Directional(cc.slaveType) && k == Key(cc.tile, cc.slaveType, cc.slavePort)
  }

  /** The sources are the DMA ports of packet slots and the ports of circuit slaves on no side of their tile. */
  lemma SourceExactly(b: Block, k: Key)
    ensures IsSource(b, k) <==>
            || (k.ptype == Other("DMA") && exists ss :: ss in b.slaves && Key(ss.tile, ss.ptype, ss.num) == k)
            || (k.ptype.Other? && exists cc :: cc in b.circuits && Key(cc.tile, cc.slaveType, cc.slavePort) == k)
  {
    if ss :| ss in b.slaves && Key(ss.tile, ss.ptype, ss.num) == k && k.ptype == Other("DMA") {
      var i :| 0 <= i < |b.slaves| && b.slaves[i] == ss;
      assert SlaveSource(b.slaves[i], k);
    }
    if cc :| cc in b.circuits && Key(cc.tile, cc.slaveType, cc.slavePort) == k && k.ptype.Other? {
      var i :| 0 <= i < |b.circuits| && b.circuits[i] == cc;
      assert CircuitSource(b.circuits[i], k);
    }
  }

  lemma SourceIsNotDirectional(b: Block, k: Key)
    requires IsSource(b, k)
    ensures !Directional(k.ptype)
  {
  }

  method CollectSources(b: Block) returns (sources: set<Key>)
    ensures forall k :: k in sources <==> IsSource(b, k)
  {
    sources := {};
    for i := 0 to |b.slaves|
      invariant forall k :: k in sources <==> exists j :: 0 <= j < i && SlaveSource(b.slaves[j], k)
    {
      if b.slaves[i].ptype == DMA {
        sources := sources + {Key(b.slaves[i].tile, b.slaves[i].ptype, b.slaves[i].num)};
      }
    }
    ghost var fromSlaves := sources;
    for i := 0 to |b.circuits|
      invariant forall k :: k in sources <==>
                  k in fromSlaves || exists j :: 0 <= j < i && CircuitSource(b.circuits[j], k)
    {
      if !Directional(b.circuits[i].slaveType) {
        sources := sources + {Key(b.circuits[i].tile, b.circuits[i].slaveType, b.circuits[i].slavePort)};
      }
    }
  }

  method TraceSource(adj: Adj, src: Key) returns (paths: seq<Path>)
    ensures paths == PathsOf(adj, src)
  {
    paths := [];
    var nexts := Out(adj, src);
    for i := 0 to |nexts|
      invariant paths == PathsVia(adj, src, nexts[..i])
    {
      assert nexts[..i + 1][..i] == nexts[..i];
      var sub, _ := FollowHop(adj, nexts[i], {src});
      paths := paths + Prefixed(Pass(src, nexts[i]), sub);
    }
    assert nexts[..|nexts|] == nexts;
  }

  datatype NamedBlock = NamedBlock(name: string, block: Block)

  /** The sources of a block in some order, each once; the order of a Python set is not fixed. */
  ghost predicate InSomeOrder(b: Block, order: seq<Key>) {
    Distinct(order) && forall k :: k in order <==> IsSource(b, k)
  }

  function Labelled(name: string, paths: seq<Path>): seq<(string, Path)> {
    seq(|paths|, i requires 0 <= i < |paths| => (name, paths[i]))
  }

  /** What a block reports: the paths of its sources, source by source. */
  ghost function Report(name: string, adj: Adj, order: seq<Key>): seq<(string, Path)> {
    if order == [] then []
    else Report(name, adj, order[..|order| - 1]) + Labelled(name, PathsOf(adj, order[|order| - 1]))
  }

  /** A block reports, under its own name, the paths of the given sources and nothing else. */
  lemma {:induction false} ReportExactly(name: string, adj: Adj, order: seq<Key>, entry: (string, Path))
    ensures entry in Report(name, adj, order) <==>
            entry.0 == name && exists src :: src in order && entry.1 in PathsOf(adj, src)
  {
    if order != [] {
      var n := |order| - 1;
      var paths := PathsOf(adj, order[n]);
      ReportExactly(name, adj, order[..n], entry);
      assert order == order[..n] + [order[n]];
      if entry.0 == name && entry.1 in paths {
        var i :| 0 <= i < |paths| && paths[i] == entry.1;
        assert Labelled(name, paths)[i] == entry;
      }
    }
  }

  ghost predicate IsReport(nb: NamedBlock, found: seq<(string, Path)>) {
    exists order :: InSomeOrder(nb.block, order) && found == Report(nb.name, AdjacencyOf(Edges(nb.block)), order)
  }

  lemma ReportAppend(name: string, adj: Adj, order: seq<Key>, src: Key)
    ensures Report(name, adj, order + [src]) == Report(name, adj, order) + Labelled(name, PathsOf(adj, src))
  {
    assert (order + [src])[..|order|] == order;
  }

  /** Every path of every source of the block, with its multiplicity, the paths of each source together and in order. */
  method TraceBlock(nb: NamedBlock) returns (found: seq<(string, Path)>)
    ensures IsReport(nb, found)
  {
    var packets := ResolvePacketEdges(nb.block.slaves, nb.block.masters);
    var adj := BuildAdjacency(CircuitEdges(nb.block.circuits) + packets);
    var sources := CollectSources(nb.block);
    found := [];
    ghost var order: seq<Key> := [];
    var left := sources;
    while left != {}
      invariant left <= sources && Distinct(order)
      invariant forall k :: k in order <==> k in sources - left
      invariant found == Report(nb.name, adj, order)
      decreases |left|
    {
      var src :| src in left;
      var paths := TraceSource(adj, src);
      DistinctAppend(order, src);
      ReportAppend(nb.name, adj, order, src);
      found := found + Labelled(nb.name, paths);
      order := order + [src];
      left := left - {src};
    }
    assert InSomeOrder(nb.block, order);
  }

  ghost function Concat(parts: seq<seq<(string, Path)>>): seq<(string, Path)> {
    if parts == [] then [] else Concat(parts[..|parts| - 1]) + parts[|parts| - 1]
  }

  lemma ConcatAppend(parts: seq<seq<(string, Path)>>, more: seq<(string, Path)>)
    ensures Concat(parts + [more]) == Concat(parts) + more
  {
    assert (parts + [more])[..|parts|] == parts;
  }

  /** The reports of the first blocks, in the order of the blocks. */
  ghost predicate AreReports(blocks: seq<NamedBlock>, parts: seq<seq<(string, Path)>>) {
    |parts| <= |blocks| && forall i :: 0 <= i < |parts| ==> IsReport(blocks[i], parts[i])
  }

  lemma OneMoreReport(blocks: seq<NamedBlock>, parts: seq<seq<(string, Path)>>, more: seq<(string, Path)>)
    requires AreReports(blocks, parts) && |parts| < |blocks| && IsReport(blocks[|parts|], more)
    ensures AreReports(blocks, parts + [more])
  {
    forall i | 0 <= i < |parts + [more]|
      ensures IsReport(blocks[i], (parts + [more])[i])
    {
      if i < |parts| {
        assert IsReport(blocks[i], parts[i]);
      }
    }
  }

  method Trace(blocks: seq<NamedBlock>) returns (found: seq<(string, Path)>)
    ensures exists parts :: |parts| == |blocks| && AreReports(blocks, parts) && found == Concat(parts)
  {
    found := [];
    ghost var parts: seq<seq<(string, Path)>> := [];
    for n := 0 to |blocks|
      invariant |parts| == n && AreReports(blocks, parts) && found == Concat(parts)
    {
      var more := TraceBlock(blocks[n]);
      OneMoreReport(blocks, parts, more);
      ConcatAppend(parts, more);
      parts := parts + [more];
      found := found + more;
    }
  }
}
