/**
 * A routing block without any cycle whose printed paths carry a "loop" label: a stream
 * is split at (1,4) and its halves are merged again at (1,5).
 */
module LoopWitness {
  import opened Basics
  import opened Tiles
  import opened Reach
  import opened Arith
  import opened SwitchGraph
  import opened TraceSources
  import opened LoopLabels
  import opened LoopComponents
  import opened LoopCycles

  const SOURCE: Key := Key(Tile(0, 4), DMA, 0)
  const FORK: Key := Key(Tile(1, 4), Side(West), 0)
  const UPPER: Key := Key(Tile(1, 5), Side(South), 0)
  const LOWER: Key := Key(Tile(1, 5), Side(South), 1)
  const MERGE: Key := Key(Tile(2, 5), Side(West), 0)

  const ENTRY: CircuitConn := CircuitConn(Tile(0, 4), DMA, 0, Side(East), 0)
  const LEFT: CircuitConn := CircuitConn(Tile(1, 4), Side(West), 0, Side(North), 0)
  const RIGHT: CircuitConn := CircuitConn(Tile(1, 4), Side(West), 0, Side(North), 1)
  const EXIT: CircuitConn := CircuitConn(Tile(2, 5), Side(West), 0, DMA, 0)

  const SLOT0: PktSlave := PktSlave(Tile(1, 5), Side(South), 0, 0, 0)
  const SLOT1: PktSlave := PktSlave(Tile(1, 5), Side(South), 1, 0, 0)
  const JOINED: PktMaster := PktMaster(Tile(1, 5), Side(East), 0, 0, 1)

  const DIAMOND: Block := Block([ENTRY, LEFT, RIGHT, EXIT], [SLOT0, SLOT1], [JOINED])

  ghost function DiamondAdj(): Adj {
    AdjacencyOf(Edges(DIAMOND))
  }

  const DIAMOND_EDGES: seq<Edge> := [
    CircuitEdge(ENTRY), CircuitEdge(LEFT), CircuitEdge(RIGHT), CircuitEdge(EXIT),
    PacketEdge(SLOT0, JOINED), PacketEdge(SLOT1, JOINED)]

  /** `adj` has the hops of the block and no others. */
  ghost predicate IsDiamond(adj: Adj) {
    forall k, hop :: hop in Out(adj, k) <==> Edge(k, hop) in DIAMOND_EDGES
  }

  lemma DiamondHops()
    ensures IsDiamond(DiamondAdj())
  {
    forall k, hop
      ensures hop in Out(DiamondAdj(), k) <==> Edge(k, hop) in DIAMOND_EDGES
    {
      AdjacencyIsExact(Edges(DIAMOND), k);
      PacketEdgeExactly(DIAMOND.slaves, DIAMOND.masters, Edge(k, hop));
      assert Pow2(0) == 1;
      assert Feeds(SLOT0, JOINED) && Feeds(SLOT1, JOINED);
      var circuits := CircuitEdges(DIAMOND.circuits);
      assert circuits == [CircuitEdge(ENTRY), CircuitEdge(LEFT), CircuitEdge(RIGHT), CircuitEdge(EXIT)];
    }
  }

  /** Every configured crossing goes north or east. */
  ghost predicate Climbs(adj: Adj) {
    forall k, k' :: Succ(adj, k, k') ==> k.tile.col + k.tile.row < k'.tile.col + k'.tile.row
  }

  lemma {:induction false} ClimbingNeverReturns(adj: Adj, route: seq<Key>, i: nat)
    requires Climbs(adj) && IsRoute(SuccOf(adj), route) && 1 <= i < |route|
    ensures route[0].tile.col + route[0].tile.row < route[i].tile.col + route[i].tile.row
  {
    assert SuccOf(adj)(route[i - 1], route[i - 1 + 1]);
    if i > 1 {
      ClimbingNeverReturns(adj, route, i - 1);
    }
  }

  lemma DiamondClimbs(adj: Adj)
    requires IsDiamond(adj)
    ensures Climbs(adj)
  {
    forall k, k' | Succ(adj, k, k')
      ensures k.tile.col + k.tile.row < k'.tile.col + k'.tile.row
    {
      var hop :| hop in Out(adj, k) && NextKey(hop) == Some(k');
      EdgeClimbs(k, hop, k');
    }
  }

  lemma EdgeClimbs(k: Key, hop: Hop, k': Key)
    requires Edge(k, hop) in DIAMOND_EDGES && NextKey(hop) == Some(k')
    ensures k.tile.col + k.tile.row < k'.tile.col + k'.tile.row
  {
  }

  lemma CrossingOf(adj: Adj, k: Key, hop: Hop, k': Key) returns (c: Crossing)
    requires hop in Out(adj, k) && NextKey(hop) == Some(k')
    ensures c.from == k && IsCrossing(adj, c) && Target(adj, c) == k' && Succ(adj, k, k')
  {
    var i :| 0 <= i < |Out(adj, k)| && Out(adj, k)[i] == hop;
    c := Crossing(k, i);
  }

  /** A branch that a first hop reaches and that drives `merge`, in a graph that climbs. */
  lemma BranchEnters(adj: Adj, first: Crossing, branch: Key, up: Hop, on: Hop, merge: Key) returns (c: Crossing)
    requires Climbs(adj) && IsCrossing(adj, first)
    requires up in Out(adj, Target(adj, first)) && NextKey(up) == Some(branch)
    requires on in Out(adj, branch) && NextKey(on) == Some(merge)
    ensures Followed(adj, first.from, first.index, c) && Outside(adj, c) && Target(adj, c) == merge && c.from == branch
  {
    var fork := Target(adj, first);
    c := CrossingOf(adj, branch, on, merge);
    ReachesSelf(SuccOf(adj), fork);
    assert Succ(adj, fork, branch);
    ReachesOn(SuccOf(adj), fork, fork, branch);
    if Reachable(adj, merge, branch) {
      var route :| IsRoute(SuccOf(adj), route) && route[0] == merge && route[|route| - 1] == branch;
      if |route| > 1 {
        ClimbingNeverReturns(adj, route, |route| - 1);
      }
    }
  }

  /** Wherever a climbing graph splits a stream and merges its branches, a false label is printed. */
  lemma SplitAndMergeIsLabelled(adj: Adj, first: Crossing, b: Key, up: Hop, on: Hop, b': Key, up': Hop, on': Hop,
                                merge: Key)
    returns (i: nat)
    requires Climbs(adj) && !Directional(first.from.ptype) && IsCrossing(adj, first) && b != b'
    requires up in Out(adj, Target(adj, first)) && NextKey(up) == Some(b) && on in Out(adj, b) &&
             NextKey(on) == Some(merge)
    requires up' in Out(adj, Target(adj, first)) && NextKey(up') == Some(b') && on' in Out(adj, b') &&
             NextKey(on') == Some(merge)
    ensures i < |PathsOf(adj, first.from)| && FalseLabel(adj, PathsOf(adj, first.from)[i])
  {
    var c := BranchEnters(adj, first, b, up, on, merge);
    var d := BranchEnters(adj, first, b', up', on', merge);
    ReachesSelf(SuccOf(adj), merge);
    i := FalseLabelIsPrinted(adj, first.from, first.index, c, d);
  }

  lemma DiamondIsLabelled(adj: Adj) returns (i: nat)
    requires IsDiamond(adj)
    ensures i < |PathsOf(adj, SOURCE)| && FalseLabel(adj, PathsOf(adj, SOURCE)[i])
  {
    DiamondClimbs(adj);
    var first := CrossingOf(adj, SOURCE, CircuitEdge(ENTRY).hop, FORK);
    i := SplitAndMergeIsLabelled(adj, first, UPPER, CircuitEdge(LEFT).hop, PacketEdge(SLOT0, JOINED).hop,
                                 LOWER, CircuitEdge(RIGHT).hop, PacketEdge(SLOT1, JOINED).hop, MERGE);
  }

  lemma DiamondHasNoCycle(adj: Adj, k: Key, next: Key)
    requires IsDiamond(adj)
    ensures !OnCycle(adj, k, next)
  {
    DiamondClimbs(adj);
    if route :| IsRoute(SuccOf(adj), route) && |route| >= 2 && route[0] == k == route[|route| - 1] && route[1] == next {
      ClimbingNeverReturns(adj, route, |route| - 1);
    }
  }

  /** A source of the block prints a path with a false loop label, although the block has no cycle at all. */
  lemma MergeIsLabelled() returns (i: nat)
    ensures IsSource(DIAMOND, SOURCE)
    ensures i < |PathsOf(DiamondAdj(), SOURCE)| && FalseLabel(DiamondAdj(), PathsOf(DiamondAdj(), SOURCE)[i])
    ensures forall k, next :: !OnCycle(DiamondAdj(), k, next)
  {
    assert CircuitSource(DIAMOND.circuits[0], SOURCE);
    DiamondHops();
    i := DiamondIsLabelled(DiamondAdj());
    forall k, next
      ensures !OnCycle(DiamondAdj(), k, next)
    {
      DiamondHasNoCycle(DiamondAdj(), k, next);
    }
  }
}
