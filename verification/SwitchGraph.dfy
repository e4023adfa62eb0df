/**
 * The stream-switch configuration of one routing block, and the graph it spans:
 * nodes are slave ports, and a hop leaves a slave port through a master port.
 */
module SwitchGraph {
  import opened Basics
  import opened Arith
  import opened Tiles
  import opened Reach

  /** A port on a side of the tile leads to the neighbour; `Other` is every other port: "DMA", "CORE", "FIFO", ... */
  datatype PortType = Side(dir: Dir) | Other(name: string)

  datatype Key = Key(tile: Tile, ptype: PortType, num: int)

  datatype Mode = Circuit | Packet

  /** A master port that a slave port feeds. */
  datatype Hop = Hop(tile: Tile, mtype: PortType, mport: int, mode: Mode)

  datatype CircuitConn = CircuitConn(tile: Tile, slaveType: PortType, slavePort: int, masterType: PortType,
                                     masterPort: int)
  datatype PktSlave = PktSlave(tile: Tile, ptype: PortType, num: int, msel: nat, arbiter: int)
  datatype PktMaster = PktMaster(tile: Tile, ptype: PortType, num: int, arbiter: int, mselEn: nat)
  datatype Block = Block(circuits: seq<CircuitConn>, slaves: seq<PktSlave>, masters: seq<PktMaster>)

  const DMA: PortType := Other("DMA")

  predicate Directional(t: PortType) {
    t.Side?
  }

  // Packet routing inside a tile -----------------------------------------------

  /** Bit `n` of `word`, as `(word >> n) & 1`. */
  predicate BitSet(word: nat, n: nat) {
    word / Pow2(n) % 2 == 1
  }

  predicate Feeds(ss: PktSlave, mp: PktMaster) {
    mp.tile == ss.tile && mp.arbiter == ss.arbiter && BitSet(mp.mselEn, ss.msel)
  }

  /** The bits of a word: the lowest says whether it is odd, the others are those of its half. */
  lemma {:induction false} BitsOf(word: nat, n: nat)
    ensures BitSet(word, 0) <==> word % 2 == 1
    ensures BitSet(word, n + 1) <==> BitSet(word / 2, n)
  {
    assert Pow2(0) == 1;
    HalfFirst(word, Pow2(n));
  }

  lemma HalfFirst(word: nat, p: nat)
    requires p >= 1
    ensures word / (2 * p) == word / 2 / p
  {
    var q, r := word / 2 / p, word / 2 % p;
    Division(word / 2, p);
    assert word == q * (2 * p) + (2 * r + word % 2);
    QuotientUnique(word, q, 2 * r + word % 2, 2 * p);
  }

  function FedMasters(ss: PktSlave, masters: seq<PktMaster>): seq<PktMaster> {
    if masters == [] then []
    else (if Feeds(ss, masters[0]) then [masters[0]] else []) + FedMasters(ss, masters[1..])
  }

  // The edges of a block, in the order the tool records them ---------------------

  datatype Edge = Edge(key: Key, hop: Hop)

  function CircuitEdge(cc: CircuitConn): Edge {
    Edge(Key(cc.tile, cc.slaveType, cc.slavePort), Hop(cc.tile, cc.masterType, cc.masterPort, Circuit))
  }

  function PacketEdge(ss: PktSlave, mp: PktMaster): Edge {
    Edge(Key(ss.tile, ss.ptype, ss.num), Hop(mp.tile, mp.ptype, mp.num, Packet))
  }

  function CircuitEdges(ccs: seq<CircuitConn>): seq<Edge> {
    seq(|ccs|, i requires 0 <= i < |ccs| => CircuitEdge(ccs[i]))
  }

  function SlaveEdges(ss: PktSlave, mps: seq<PktMaster>): seq<Edge> {
    seq(|mps|, i requires 0 <= i < |mps| => PacketEdge(ss, mps[i]))
  }

  function PacketEdges(slaves: seq<PktSlave>, masters: seq<PktMaster>): seq<Edge> {
    if slaves == [] then []
    else SlaveEdges(slaves[0], FedMasters(slaves[0], masters)) + PacketEdges(slaves[1..], masters)
  }

  /** A packet edge exists exactly where a slave slot selects a master of its tile and arbiter. */
  lemma {:induction false} PacketEdgeExactly(slaves: seq<PktSlave>, masters: seq<PktMaster>, e: Edge)
    ensures e in PacketEdges(slaves, masters) <==>
            exists ss, mp :: ss in slaves && mp in masters && e == PacketEdge(ss, mp)
                             && mp.tile == ss.tile && mp.arbiter == ss.arbiter && BitSet(mp.mselEn, ss.msel)
  {
    if slaves != [] {
      PacketEdgeExactly(slaves[1..], masters, e);
      var fed := FedMasters(slaves[0], masters);
      forall mp
        ensures mp in fed <==> mp in masters && Feeds(slaves[0], mp)
      {
        FedExactly(slaves[0], masters, mp);
      }
      assert slaves == [slaves[0]] + slaves[1..];
      if e in SlaveEdges(slaves[0], fed) {
        var i :| 0 <= i < |fed| && e == PacketEdge(slaves[0], fed[i]);
        assert fed[i] in fed;
      }
      if mp :| mp in fed && e == PacketEdge(slaves[0], mp) {
        var i :| 0 <= i < |fed| && fed[i] == mp;
        assert SlaveEdges(slaves[0], fed)[i] == e;
      }
    }
  }

  lemma {:induction false} FedExactly(ss: PktSlave, masters: seq<PktMaster>, mp: PktMaster)
    ensures mp in FedMasters(ss, masters) <==> mp in masters && Feeds(ss, mp)
  {
    if masters != [] {
      FedExactly(ss, masters[1..], mp);
      assert masters == [masters[0]] + masters[1..];
    }
  }

  lemma SlaveEdgesCons(ss: PktSlave, mp: PktMaster, mps: seq<PktMaster>)
    ensures SlaveEdges(ss, [mp] + mps) == [PacketEdge(ss, mp)] + SlaveEdges(ss, mps)
  {
  }

  /** The edges of one slave slot. */
  method ResolveSlot(ss: PktSlave, masters: seq<PktMaster>) returns (edges: seq<Edge>)
    ensures edges == SlaveEdges(ss, FedMasters(ss, masters))
  {
    edges := [];
    for k := 0 to |masters|
      invariant edges + SlaveEdges(ss, FedMasters(ss, masters[k..])) == SlaveEdges(ss, FedMasters(ss, masters))
    {
      assert masters[k..][1..] == masters[k + 1..];
      if Feeds(ss, masters[k]) {
        SlaveEdgesCons(ss, masters[k], FedMasters(ss, masters[k + 1..]));
        edges := edges + [PacketEdge(ss, masters[k])];
      } else {
        assert FedMasters(ss, masters[k..]) == FedMasters(ss, masters[k + 1..]);
      }
    }
  }

  method ResolvePacketEdges(slaves: seq<PktSlave>, masters: seq<PktMaster>) returns (edges: seq<Edge>)
    ensures edges == PacketEdges(slaves, masters)
  {
    edges := [];
    for i := 0 to |slaves|
      invariant edges + PacketEdges(slaves[i..], masters) == PacketEdges(slaves, masters)
    {
      var rest := slaves[i..];
      assert rest[1..] == slaves[i + 1..] && rest[0] == slaves[i];
      var slot := ResolveSlot(slaves[i], masters);
      assert PacketEdges(rest, masters) == slot + PacketEdges(slaves[i + 1..], masters);
      edges := edges + slot;
    }
  }

  function Edges(b: Block): seq<Edge> {
    CircuitEdges(b.circuits) + PacketEdges(b.slaves, b.masters)
  }

  // Adjacency ------------------------------------------------------------------

  type Adj = map<Key, seq<Hop>>

  function Out(adj: Adj, k: Key): seq<Hop> {
    if k in adj then adj[k] else []
  }

  /** The hops recorded for `k`, in order. */
  function HopsOf(edges: seq<Edge>, k: Key): seq<Hop> {
    if edges == [] then []
    else
      var last := edges[|edges| - 1];
      HopsOf(edges[..|edges| - 1], k) + (if last.key == k then [last.hop] else [])
  }

  function Record(adj: Adj, e: Edge): Adj {
    adj[e.key := Out(adj, e.key) + [e.hop]]
  }

  function AdjacencyOf(edges: seq<Edge>): Adj {
    if edges == [] then map[]
    else Record(AdjacencyOf(edges[..|edges| - 1]), edges[|edges| - 1])
  }

  lemma {:induction false} HopIsRecorded(edges: seq<Edge>, k: Key, hop: Hop)
    ensures hop in HopsOf(edges, k) <==> Edge(k, hop) in edges
  {
    if edges != [] {
      var n := |edges| - 1;
      HopIsRecorded(edges[..n], k, hop);
      assert edges == edges[..n] + [edges[n]];
    }
  }

  /** The adjacency lists, for every key, exactly its hops in order: those of the recorded edges. */
  lemma {:induction false} AdjacencyIsExact(edges: seq<Edge>, k: Key)
    ensures Out(AdjacencyOf(edges), k) == HopsOf(edges, k)
    ensures k in AdjacencyOf(edges) <==> HopsOf(edges, k) != []
    ensures forall hop :: hop in Out(AdjacencyOf(edges), k) <==> Edge(k, hop) in edges
  {
    if edges != [] {
      AdjacencyIsExact(edges[..|edges| - 1], k);
    }
    forall hop
      ensures hop in HopsOf(edges, k) <==> Edge(k, hop) in edges
    {
      HopIsRecorded(edges, k, hop);
    }
  }

  method BuildAdjacency(edges: seq<Edge>) returns (adj: Adj)
    ensures adj == AdjacencyOf(edges)
  {
    adj := map[];
    for i := 0 to |edges|
      invariant adj == AdjacencyOf(edges[..i])
    {
      assert edges[..i + 1][..i] == edges[..i];
      adj := adj[edges[i].key := Out(adj, edges[i].key) + [edges[i].hop]];
    }
    assert edges[..|edges|] == edges;
  }

  // Crossing to the next tile ----------------------------------------------------

  predicate ShimExit(hop: Hop) {
    hop.mtype == Side(South) && hop.tile.row == 0
  }

  /** The slave port a master drives on the neighbouring tile; a shim's south port leaves the array. */
  function NextKey(hop: Hop): Option<Key> {
    if !Directional(hop.mtype) || ShimExit(hop) then None
    else Some(Key(Step(hop.tile, hop.mtype.dir, 1), Side(Opposite(hop.mtype.dir)), hop.mport))
  }

  /**
   * The slave port a hop leads to faces the master that drives it: the master port in its
   * place drives back to where that master is, unless it is the south port of a shim tile.
   */
  lemma HopFacesBack(hop: Hop, k: Key, mode: Mode)
    requires NextKey(hop) == Some(k)
    ensures var back := Hop(k.tile, k.ptype, k.num, mode);
            NextKey(back) == if ShimExit(back) then None else Some(Key(hop.tile, hop.mtype, hop.mport))
  {
    StepBack(hop.tile, hop.mtype.dir, 1, Opposite(hop.mtype.dir));
  }

  /** A hop leads on exactly from a directional port that is not the south port of a tile in row 0. */
  lemma LeadsOnExactly(hop: Hop)
    ensures NextKey(hop).Some? <==>
            exists d :: hop.mtype == Side(d) && !(d == South && hop.tile.row == 0)
  {
  }

  /** No two masters drive one slave port. */
  lemma OneDriver(hop: Hop, hop': Hop)
    requires NextKey(hop).Some? && NextKey(hop) == NextKey(hop')
    ensures hop.tile == hop'.tile && hop.mtype == hop'.mtype && hop.mport == hop'.mport
  {
    var k := NextKey(hop).value;
    StepBack(hop.tile, hop.mtype.dir, 1, Opposite(hop.mtype.dir));
    StepBack(hop'.tile, hop'.mtype.dir, 1, Opposite(hop'.mtype.dir));
  }

  ghost predicate Succ(adj: Adj, k: Key, k': Key) {
    exists hop :: hop in Out(adj, k) && NextKey(hop) == Some(k')
  }

  ghost function SuccOf(adj: Adj): (Key, Key) -> bool {
    (k, k') => Succ(adj, k, k')
  }

  /** Configured hops lead from slave port `a` to slave port `b`. */
  ghost predicate Reachable(adj: Adj, a: Key, b: Key) {
    Reaches(SuccOf(adj), a, b)
  }
}
