/**
 * A routing block traced in full: its four sources and every path they print. It goes
 * all four ways, has every kind of end, and masters that a packet slot does not feed.
 */
module TraceExample {
  import opened Basics
  import opened Tiles
  import opened Arith
  import opened SwitchGraph
  import opened TracePaths
  import opened TraceSources

  const RING: seq<CircuitConn> := [
    CircuitConn(Tile(1, 4), DMA, 0, Side(West), 0),
    CircuitConn(Tile(0, 4), Side(East), 0, Side(South), 1),
    CircuitConn(Tile(0, 3), Side(North), 1, Side(East), 2),
    CircuitConn(Tile(1, 3), Side(West), 2, DMA, 0)]

  const SHIM: seq<CircuitConn> := [
    CircuitConn(Tile(5, 0), DMA, 0, Side(South), 0),
    CircuitConn(Tile(5, 0), DMA, 0, Side(East), 1)]

  const CYCLE: seq<CircuitConn> := [
    CircuitConn(Tile(2, 4), DMA, 0, Side(North), 0),
    CircuitConn(Tile(2, 5), Side(South), 0, Side(South), 0),
    CircuitConn(Tile(2, 4), Side(North), 0, Side(North), 0)]

  const SLOT: PktSlave := PktSlave(Tile(3, 4), DMA, 1, 1, 2)
  const FED: PktMaster := PktMaster(Tile(3, 4), Side(East), 3, 2, 2)
  const OTHERS: seq<PktMaster> := [
    PktMaster(Tile(3, 4), Side(West), 3, 1, 2), PktMaster(Tile(3, 4), Side(North), 3, 2, 5),
    PktMaster(Tile(4, 4), Side(East), 3, 2, 2)]

  const SAMPLE: Block := Block(RING + SHIM + CYCLE, [SLOT], [FED] + OTHERS)

  // The hops of a port ----------------------------------------------------------------

  lemma TakeHop(edges: seq<Edge>, n: nat, k: Key)
    requires n < |edges|
    ensures HopsOf(edges[..n + 1], k) == HopsOf(edges[..n], k) + (if edges[n].key == k then [edges[n].hop] else [])
  {
    assert edges[..n + 1][..n] == edges[..n];
  }

  lemma {:induction false} SkipHops(edges: seq<Edge>, n: nat, m: nat, k: Key)
    requires n <= m <= |edges| && forall j :: n <= j < m ==> edges[j].key != k
    ensures HopsOf(edges[..m], k) == HopsOf(edges[..n], k)
    decreases m
  {
    if n < m {
      SkipHops(edges, n, m - 1, k);
      TakeHop(edges, m - 1, k);
    }
  }

  lemma OneHop(edges: seq<Edge>, i: nat, k: Key)
    requires i < |edges| && forall j :: 0 <= j < |edges| ==> (edges[j].key == k <==> j == i)
    ensures HopsOf(edges, k) == [edges[i].hop]
  {
    SkipHops(edges, 0, i, k);
    TakeHop(edges, i, k);
    SkipHops(edges, i + 1, |edges|, k);
    assert edges[..|edges|] == edges;
  }

  lemma TwoHops(edges: seq<Edge>, i: nat, k: Key)
    requires i + 1 < |edges| && forall j :: 0 <= j < |edges| ==> (edges[j].key == k <==> j == i || j == i + 1)
    ensures HopsOf(edges, k) == [edges[i].hop, edges[i + 1].hop]
  {
    SkipHops(edges, 0, i, k);
    TakeHop(edges, i, k);
    TakeHop(edges, i + 1, k);
    SkipHops(edges, i + 2, |edges|, k);
    assert edges[..|edges|] == edges;
  }

  lemma NoHops(edges: seq<Edge>, k: Key)
    requires forall j :: 0 <= j < |edges| ==> edges[j].key != k
    ensures HopsOf(edges, k) == []
  {
    SkipHops(edges, 0, |edges|, k);
    assert edges[..|edges|] == edges;
  }

  ghost function SampleAdj(): Adj {
    AdjacencyOf(Edges(SAMPLE))
  }

  /** The bit of the slot's selector is set in 2 and not in 5. */
  lemma Selected()
    ensures BitSet(2, 1) && !BitSet(5, 1)
  {
    assert Pow2(1) == 2 * Pow2(0) == 2;
  }

  const EDGES: seq<Edge> := [
    Edge(Key(Tile(1, 4), DMA, 0), Hop(Tile(1, 4), Side(West), 0, Circuit)),
    Edge(Key(Tile(0, 4), Side(East), 0), Hop(Tile(0, 4), Side(South), 1, Circuit)),
    Edge(Key(Tile(0, 3), Side(North), 1), Hop(Tile(0, 3), Side(East), 2, Circuit)),
    Edge(Key(Tile(1, 3), Side(West), 2), Hop(Tile(1, 3), DMA, 0, Circuit)),
    Edge(Key(Tile(5, 0), DMA, 0), Hop(Tile(5, 0), Side(South), 0, Circuit)),
    Edge(Key(Tile(5, 0), DMA, 0), Hop(Tile(5, 0), Side(East), 1, Circuit)),
    Edge(Key(Tile(2, 4), DMA, 0), Hop(Tile(2, 4), Side(North), 0, Circuit)),
    Edge(Key(Tile(2, 5), Side(South), 0), Hop(Tile(2, 5), Side(South), 0, Circuit)),
    Edge(Key(Tile(2, 4), Side(North), 0), Hop(Tile(2, 4), Side(North), 0, Circuit)),
    Edge(Key(Tile(3, 4), DMA, 1), Hop(Tile(3, 4), Side(East), 3, Packet))]

  lemma SampleEdges()
    ensures Edges(SAMPLE) == EDGES
  {
    Selected();
    var masters := SAMPLE.masters;
    assert masters[1..] == OTHERS && OTHERS[1..][1..][1..] == [];
    assert FedMasters(SLOT, OTHERS) == [];
    assert FedMasters(SLOT, masters) == [FED];
    assert SAMPLE.slaves[1..] == [];
    assert PacketEdges(SAMPLE.slaves, masters) == [EDGES[9]];
  }

  /** A port whose only edge is number `i`. */
  lemma OutOf(i: nat, k: Key)
    requires i < 10 && forall j :: 0 <= j < 10 ==> (EDGES[j].key == k <==> j == i)
    ensures Out(SampleAdj(), k) == [EDGES[i].hop]
  {
    SampleEdges();
    AdjacencyIsExact(EDGES, k);
    OneHop(EDGES, i, k);
  }

  // One step of the search --------------------------------------------------------------

  /** Through a port with one hop. */
  lemma ThroughOne(adj: Adj, hop: Hop, visited: set<Key>, k: Key, next: Hop, p: Path)
    requires NextKey(hop) == Some(k) && k !in visited && Out(adj, k) == [next]
    requires Follow(adj, next, visited + {k}).paths == [p]
    ensures Follow(adj, hop, visited).paths == [[Pass(k, next)] + p]
  {
    var hops, first := [next], Follow(adj, next, visited + {k});
    assert hops[1..] == [];
    assert FollowEach(adj, k, hops[1..], first.visited).paths == [];
    assert Prefixed(Pass(k, next), [p]) == [[Pass(k, next)] + p];
    assert Follow(adj, hop, visited) == FollowEach(adj, k, hops, visited + {k});
  }

  /** Through two such ports to an end. */
  lemma ThroughTwo(adj: Adj, hop: Hop, visited: set<Key>, k: Key, next: Hop, k': Key, next': Hop, end: PathStep)
    requires NextKey(hop) == Some(k) && k !in visited && Out(adj, k) == [next]
    requires NextKey(next) == Some(k') && k' !in visited + {k} && Out(adj, k') == [next']
    requires Follow(adj, next', visited + {k} + {k'}).paths == [[end]]
    ensures Follow(adj, hop, visited).paths == [[Pass(k, next), Pass(k', next'), end]]
  {
    var last := [Pass(k', next'), end];
    assert [Pass(k', next')] + [end] == last;
    ThroughOne(adj, next, visited + {k}, k', next', [end]);
    ThroughOne(adj, hop, visited, k, next, last);
    assert [Pass(k, next)] + last == [Pass(k, next), Pass(k', next'), end];
  }

  lemma OneFirstHop(adj: Adj, src: Key, hop: Hop, p: Path)
    requires Out(adj, src) == [hop] && Follow(adj, hop, {src}).paths == [p]
    ensures PathsOf(adj, src) == [[Pass(src, hop)] + p]
  {
    var hops := [hop];
    assert hops[..0] == [] && PathsVia(adj, src, hops[..0]) == [];
    assert PathsByHop(adj, src, hop) == [[Pass(src, hop)] + p];
  }

  lemma TwoFirstHops(adj: Adj, src: Key, hop: Hop, p: Path, hop': Hop, p': Path)
    requires Out(adj, src) == [hop, hop']
    requires Follow(adj, hop, {src}).paths == [p] && Follow(adj, hop', {src}).paths == [p']
    ensures PathsOf(adj, src) == [[Pass(src, hop)] + p, [Pass(src, hop')] + p']
  {
    assert Out(adj, src)[..1] == [hop] && [hop][..0] == [];
    assert PathsVia(adj, src, [hop]) == PathsByHop(adj, src, hop);
  }

  // What is printed ---------------------------------------------------------------------

  /** The last two ports of the ring. */
  lemma RingTail(adj: Adj, seen: set<Key>, hop: Hop, k: Key, next: Hop, k': Key, last: Hop)
    requires hop == Hop(Tile(0, 4), Side(South), 1, Circuit)
    requires k == Key(Tile(0, 3), Side(North), 1) && next == Hop(Tile(0, 3), Side(East), 2, Circuit)
    requires k' == Key(Tile(1, 3), Side(West), 2) && last == Hop(Tile(1, 3), DMA, 0, Circuit)
    requires k !in seen && k' !in seen && Out(adj, k) == [next] && Out(adj, k') == [last]
    ensures Follow(adj, hop, seen).paths == [[Pass(k, next), Pass(k', last), Leaf(MasterKey(last), Endpoint)]]
  {
    ThroughTwo(adj, hop, seen, k, next, k', last, Leaf(MasterKey(last), Endpoint));
  }

  /** West, south and east again, to the DMA of (1,3). */
  lemma RingIsPrinted()
    ensures PathsOf(SampleAdj(), Key(Tile(1, 4), DMA, 0)) == [[
              Through(Key(Tile(1, 4), DMA, 0), Side(West), 0, Circuit),
              Through(Key(Tile(0, 4), Side(East), 0), Side(South), 1, Circuit),
              Through(Key(Tile(0, 3), Side(North), 1), Side(East), 2, Circuit),
              Through(Key(Tile(1, 3), Side(West), 2), DMA, 0, Circuit),
              Leaf(Key(Tile(1, 3), DMA, 0), Endpoint)]]
  {
    var adj, src := SampleAdj(), EDGES[0].key;
    OutOf(0, src);
    OutOf(1, EDGES[1].key);
    OutOf(2, EDGES[2].key);
    OutOf(3, EDGES[3].key);
    RingTail(adj, {src} + {EDGES[1].key}, EDGES[1].hop, EDGES[2].key, EDGES[2].hop, EDGES[3].key, EDGES[3].hop);
    var tail := Follow(adj, EDGES[1].hop, {src} + {EDGES[1].key}).paths[0];
    ThroughOne(adj, EDGES[0].hop, {src}, EDGES[1].key, EDGES[1].hop, tail);
    OneFirstHop(adj, src, EDGES[0].hop, [Pass(EDGES[1].key, EDGES[1].hop)] + tail);
    assert [Pass(src, EDGES[0].hop)] + ([Pass(EDGES[1].key, EDGES[1].hop)] + tail)
           == [Pass(src, EDGES[0].hop), Pass(EDGES[1].key, EDGES[1].hop), tail[0], tail[1], tail[2]];
  }

  lemma LeavesNowhere(k: Key)
    requires forall j :: 0 <= j < 10 ==> EDGES[j].key != k
    ensures Out(SampleAdj(), k) == []
  {
    SampleEdges();
    AdjacencyIsExact(EDGES, k);
    NoHops(EDGES, k);
  }

  lemma ShimHops()
    ensures Out(SampleAdj(), EDGES[4].key) == [EDGES[4].hop, EDGES[5].hop]
  {
    SampleEdges();
    AdjacencyIsExact(EDGES, EDGES[4].key);
    TwoHops(EDGES, 4, EDGES[4].key);
  }

  /** Out of the array, and to a port that leads nowhere. */
  lemma ShimIsPrinted()
    ensures PathsOf(SampleAdj(), Key(Tile(5, 0), DMA, 0)) == [
              [Through(Key(Tile(5, 0), DMA, 0), Side(South), 0, Circuit),
               Leaf(Key(Tile(5, 0), Side(South), 0), ShimOut)],
              [Through(Key(Tile(5, 0), DMA, 0), Side(East), 1, Circuit),
               Leaf(Key(Tile(6, 0), Side(West), 1), Dangling)]]
  {
    var src, beyond := EDGES[4].key, Key(Tile(6, 0), Side(West), 1);
    var out, end := Leaf(Key(Tile(5, 0), Side(South), 0), ShimOut), Leaf(beyond, Dangling);
    ShimHops();
    LeavesNowhere(beyond);
    TwoFirstHops(SampleAdj(), src, EDGES[4].hop, [out], EDGES[5].hop, [end]);
    assert [Pass(src, EDGES[4].hop)] + [out] == [Pass(src, EDGES[4].hop), out];
    assert [Pass(src, EDGES[5].hop)] + [end] == [Pass(src, EDGES[5].hop), end];
  }

  /** North and back again, into a port that was visited. */
  lemma CycleIsPrinted()
    ensures PathsOf(SampleAdj(), Key(Tile(2, 4), DMA, 0)) == [[
              Through(Key(Tile(2, 4), DMA, 0), Side(North), 0, Circuit),
              Through(Key(Tile(2, 5), Side(South), 0), Side(South), 0, Circuit),
              Through(Key(Tile(2, 4), Side(North), 0), Side(North), 0, Circuit),
              Leaf(Key(Tile(2, 4), Side(North), 0), Loop)]]
  {
    var adj, src := SampleAdj(), EDGES[6].key;
    var end := Leaf(Key(Tile(2, 4), Side(North), 0), Loop);
    var rest := [Pass(EDGES[7].key, EDGES[7].hop), Pass(EDGES[8].key, EDGES[8].hop), end];
    OutOf(6, src);
    OutOf(7, EDGES[7].key);
    OutOf(8, EDGES[8].key);
    ThroughTwo(adj, EDGES[6].hop, {src}, EDGES[7].key, EDGES[7].hop, EDGES[8].key, EDGES[8].hop, end);
    OneFirstHop(adj, src, EDGES[6].hop, rest);
    assert [Pass(src, EDGES[6].hop)] + rest == [Pass(src, EDGES[6].hop), rest[0], rest[1], rest[2]];
  }

  /** The slot feeds the one master of its tile and arbiter whose mask has its bit. */
  lemma PacketIsPrinted()
    ensures PathsOf(SampleAdj(), Key(Tile(3, 4), DMA, 1)) == [[
              Through(Key(Tile(3, 4), DMA, 1), Side(East), 3, Packet),
              Leaf(Key(Tile(4, 4), Side(West), 3), Dangling)]]
  {
    var adj, src, beyond := SampleAdj(), EDGES[9].key, Key(Tile(4, 4), Side(West), 3);
    OutOf(9, src);
    LeavesNowhere(beyond);
    OneFirstHop(adj, src, EDGES[9].hop, [Leaf(beyond, Dangling)]);
    assert [Pass(src, EDGES[9].hop)] + [Leaf(beyond, Dangling)] == [Pass(src, EDGES[9].hop), Leaf(beyond, Dangling)];
  }

  /** These four ports are the sources, and no others. */
  lemma SampleSources(k: Key)
    ensures IsSource(SAMPLE, k) <==>
            k in {Key(Tile(1, 4), DMA, 0), Key(Tile(5, 0), DMA, 0), Key(Tile(2, 4), DMA, 0), Key(Tile(3, 4), DMA, 1)}
  {
    assert SlaveSource(SAMPLE.slaves[0], Key(Tile(3, 4), DMA, 1));
    assert CircuitSource(SAMPLE.circuits[0], Key(Tile(1, 4), DMA, 0));
    assert CircuitSource(SAMPLE.circuits[4], Key(Tile(5, 0), DMA, 0));
    assert CircuitSource(SAMPLE.circuits[6], Key(Tile(2, 4), DMA, 0));
  }
}
