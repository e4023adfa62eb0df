/**
 * One flow traced in full. Slave 5 of the shim tile (0,0) feeds a master that points at
 * (0,2), past a row that is not logged; there slave 7 feeds a master without a logged
 * neighbour and one that points nowhere.
 */
module FlowExample {
  import opened Basics
  import opened Tiles
  import opened Reach
  import opened SetFacts
  import opened HwArrows
  import opened HwFlows

  const SHIM: Tile := Tile(0, 0)
  const CORE: Tile := Tile(0, 2)

  /** The names of the ports; only the last two must differ. */
  datatype Names = Names(enter: string, up: string, down: string, out: string, far: string, local: string)

  function Sample(p: Names): Switches {
    Switches([LogTile(SHIM, [Master(p.up, true, Some(5))], [Slave(p.enter, true, Some(5))]),
              LogTile(CORE, [Master(p.out, true, Some(7)), Master(p.local, true, Some(7))],
                      [Slave(p.down, false, Some(7))])],
             [Arrow(SHIM, CORE, p.up, p.down, false), Arrow(CORE, Tile(1, 2), p.out, p.far, true)])
  }

  const FIRST: Node := Node(SHIM, 5)
  const SECOND: Node := Node(CORE, 7)

  lemma BothRead(ms: seq<Master>, index: int)
    requires 1 <= |ms| <= 2 && forall i :: 0 <= i < |ms| ==> ms[i].enabled && ms[i].source == Some(index)
    ensures ReadersIn(ms, index) == ms
  {
    var rest := ms[1..];
    assert rest != [] ==> rest[1..] == [];
    assert ReadersIn(rest, index) == rest;
    assert ms == [ms[0]] + rest;
  }

  lemma ReadersOfTwo(a: LogTile, b: LogTile, n: Node)
    requires a.loc != b.loc && (n.loc == a.loc || n.loc == b.loc)
    ensures Readers([a, b], n) == ReadersIn((if n.loc == a.loc then a else b).masters, n.index)
  {
    var one, log := [a], [a, b];
    assert one[..0] == [] && log[..1] == one;
    assert Readers(one[..0], n) == [];
    assert Readers(one, n) == if n.loc == a.loc then ReadersIn(a.masters, n.index) else [];
  }

  lemma SampleReaders(p: Names)
    ensures Readers(Sample(p).log, FIRST) == [Master(p.up, true, Some(5))]
    ensures Readers(Sample(p).log, SECOND) == [Master(p.out, true, Some(7)), Master(p.local, true, Some(7))]
  {
    var log := Sample(p).log;
    ReadersOfTwo(log[0], log[1], FIRST);
    ReadersOfTwo(log[0], log[1], SECOND);
    BothRead(log[0].masters, 5);
    BothRead(log[1].masters, 7);
  }

  lemma SampleArrows(p: Names)
    requires p.out != p.local
    ensures ArrowOf(Sample(p).arrows, SHIM, p.up) == Some(0) && ArrowOf(Sample(p).arrows, CORE, p.out) == Some(1)
    ensures ArrowOf(Sample(p).arrows, CORE, p.local) == None
  {
    var arrows := Sample(p).arrows;
    assert ArrowFrom(arrows, 0, SHIM, p.up) && ArrowFrom(arrows, 1, CORE, p.out);
  }

  lemma OneSlave(s: Slave, index: int)
    requires s.index == Some(index)
    ensures Indexed([s]) == [(index, s.port)] && TableOf([(index, s.port)]) == [(index, s.port)]
  {
    var slaves, entries := [s], [(index, s.port)];
    assert slaves[..0] == [] && entries[..0] == [];
  }

  lemma LogOfTwo(a: LogTile, b: LogTile)
    requires a.loc != b.loc
    ensures SlaveEntries([a, b], b.loc) == Indexed(b.slaves)
  {
    var log, one := [a, b], [a];
    assert log[..1] == one && one[..0] == [];
    assert SlaveEntries(one, b.loc) == [];
  }

  lemma SampleLands(p: Names)
    ensures Lands(Sample(p), 0) == Some(SECOND) && Lands(Sample(p), 1) == None
  {
    var log := Sample(p).log;
    LogOfTwo(log[0], log[1]);
    OneSlave(log[1].slaves[0], 7);
    assert SlaveTable(log, CORE) == [(7, p.down)];
  }

  lemma OneReader(sw: Switches, node: Node, m: Master)
    ensures Arrows(sw, node, [m]) == if Sends(sw, node, m).Some? then [Sends(sw, node, m).value] else []
  {
    var ms := [m];
    assert ms[..0] == [];
    assert Arrows(sw, node, ms[..0]) == [];
  }

  lemma OneReaderPorts(sw: Switches, node: Node, m: Master)
    ensures Ports(sw, node, [m]) == [(node.loc, m.port)] + FarPort(sw, Sends(sw, node, m))
  {
    var ms := [m];
    assert ms[..0] == [];
    assert Ports(sw, node, ms[..0]) == [];
  }

  lemma TwoReaders(sw: Switches, node: Node, m: Master, m': Master)
    ensures Arrows(sw, node, [m, m'])
            == Arrows(sw, node, [m]) + (if Sends(sw, node, m').Some? then [Sends(sw, node, m').value] else [])
    ensures Ports(sw, node, [m, m'])
            == Ports(sw, node, [m]) + [(node.loc, m'.port)] + FarPort(sw, Sends(sw, node, m'))
  {
    var ms := [m, m'];
    assert ms[..1] == [m];
  }

  lemma OutOfTwo(sw: Switches, node: Node, m: Master, m': Master, ai: int)
    requires Readers(sw.log, node) == [m, m'] && Sends(sw, node, m) == Some(ai) && Sends(sw, node, m').None?
    ensures OutArrows(sw, node) == [ai]
  {
    OneReader(sw, node, m);
    TwoReaders(sw, node, m, m');
  }

  lemma PortsOfTwo(sw: Switches, node: Node, m: Master, m': Master, ai: int)
    requires Readers(sw.log, node) == [m, m'] && Sends(sw, node, m) == Some(ai) && Sends(sw, node, m').None?
    requires 0 <= ai < |sw.arrows| && sw.arrows[ai].dangling
    ensures Ports(sw, node, Readers(sw.log, node)) == [(node.loc, m.port), (node.loc, m'.port)]
  {
    OneReaderPorts(sw, node, m);
    TwoReaders(sw, node, m, m');
  }

  lemma FirstOut(p: Names)
    requires p.out != p.local
    ensures OutArrows(Sample(p), FIRST) == [0]
    ensures Ports(Sample(p), FIRST, Readers(Sample(p).log, FIRST)) == [(SHIM, p.up), (CORE, p.down)]
  {
    var m := Master(p.up, true, Some(5));
    SampleReaders(p);
    SampleArrows(p);
    OneReader(Sample(p), FIRST, m);
    OneReaderPorts(Sample(p), FIRST, m);
    assert FarPort(Sample(p), Some(0)) == [(CORE, p.down)];
  }

  lemma SecondOut(p: Names)
    requires p.out != p.local
    ensures OutArrows(Sample(p), SECOND) == [1]
    ensures Ports(Sample(p), SECOND, Readers(Sample(p).log, SECOND)) == [(CORE, p.out), (CORE, p.local)]
  {
    var m, m' := Master(p.out, true, Some(7)), Master(p.local, true, Some(7));
    SampleReaders(p);
    SampleArrows(p);
    OutOfTwo(Sample(p), SECOND, m, m', 1);
    PortsOfTwo(Sample(p), SECOND, m, m', 1);
  }

  lemma OneTarget(sw: Switches, ai: int)
    requires 0 <= ai < |sw.arrows|
    ensures Targets(sw, [ai]) == if Lands(sw, ai).Some? then [Lands(sw, ai).value] else []
    ensures Hits(sw, [ai]) == Hit(sw, ai)
  {
    var one := [ai];
    assert one[..0] == [];
    assert Targets(sw, one[..0]) == [] && Hits(sw, one[..0]) == [];
  }

  lemma SampleNext(p: Names)
    requires p.out != p.local
    ensures Next(Sample(p), FIRST) == [SECOND] && Next(Sample(p), SECOND) == []
  {
    FirstOut(p);
    SecondOut(p);
    SampleLands(p);
    OneTarget(Sample(p), 0);
    OneTarget(Sample(p), 1);
  }

  // Two nodes, one after the other ------------------------------------------------------------

  lemma ReachedTwo(sw: Switches, a: Node, b: Node, n: Node)
    requires Next(sw, a) == [b] && Next(sw, b) == []
    ensures Reaches(NextOf(sw), a, n) <==> n == a || n == b
  {
    var step := NextOf(sw);
    ReachesSelf(step, a);
    ReachesOn(step, a, a, b);
    if Reaches(step, a, n) {
      assert Closed(step, {a, b});
      ReachesWithin(step, {a, b}, a, n);
    }
  }

  lemma OrderOfTwo(sw: Switches, a: Node, b: Node, order: seq<Node>)
    requires Next(sw, a) == [b] && Next(sw, b) == [] && a != b && BreadthFirst(sw, a, order)
    requires forall n :: n in order <==> Reaches(NextOf(sw), a, n)
    ensures order == [a, b]
  {
    forall n
      ensures n in order <==> n == a || n == b
    {
      ReachedTwo(sw, a, b, n);
    }
    AddNewFirst([a] + NextAlong(sw, order));
    AddNewDistinct([], [a] + NextAlong(sw, order));
    TheTwo(order, a, b);
  }

  lemma ArrowsAlongTwo(sw: Switches, a: Node, b: Node)
    ensures ArrowsAlong(sw, [a, b]) == OutArrows(sw, a) + OutArrows(sw, b)
  {
    var one, two := [a], [a, b];
    assert one[..0] == [] && two[..1] == one;
    assert ArrowsAlong(sw, one[..0]) == [];
    assert ArrowsAlong(sw, one) == OutArrows(sw, a);
  }

  lemma PortsAlongTwo(sw: Switches, a: Node, b: Node)
    ensures PortsAlong(sw, [a, b]) == Ports(sw, a, Readers(sw.log, a)) + Ports(sw, b, Readers(sw.log, b))
  {
    var one, two := [a], [a, b];
    assert one[..0] == [] && two[..1] == one;
    assert PortsAlong(sw, one[..0]) == [];
    assert PortsAlong(sw, one) == Ports(sw, a, Readers(sw.log, a));
  }

  lemma OrderOfFlow(sw: Switches, a: Node, b: Node, port: string, f: Flow)
    requires Next(sw, a) == [b] && Next(sw, b) == [] && a != b && FlowFits(sw, (a, port), f)
    ensures FlowAlong(sw, f, [a, b])
  {
    var order :| FlowAlong(sw, f, order);
    OrderOfTwo(sw, a, b, order);
  }

  /** The flow of a slave that leads to one other. */
  lemma FlowOfTwo(sw: Switches, a: Node, b: Node, port: string, f: Flow)
    requires Next(sw, a) == [b] && Next(sw, b) == [] && a != b && FlowFits(sw, (a, port), f)
    ensures f.arrows == OutArrows(sw, a) + OutArrows(sw, b) && f.tiles == AddNew([a.loc], Hits(sw, f.arrows))
    ensures f.ports != [] && f.ports[0] == (a.loc, port)
    ensures f.ports[1..] == Ports(sw, a, Readers(sw.log, a)) + Ports(sw, b, Readers(sw.log, b))
  {
    OrderOfFlow(sw, a, b, port, f);
    ArrowsAlongTwo(sw, a, b);
    PortsAlongTwo(sw, a, b);
  }

  lemma AddOther(a: Tile, b: Tile)
    requires a != b
    ensures AddNew([a], [b]) == [a, b]
  {
    var more := [b];
    assert more[..0] == [];
    assert AddNew([a], more[..0]) == [a];
  }

  lemma SampleHits(p: Names)
    ensures Hits(Sample(p), [0] + [1]) == [CORE]
  {
    OneTarget(Sample(p), 0);
    OneTarget(Sample(p), 1);
    HitsAppend(Sample(p), [0], [1]);
  }

  lemma SampleTiles(p: Names)
    ensures AddNew([SHIM], Hits(Sample(p), [0] + [1])) == [SHIM, CORE]
  {
    SampleHits(p);
    AddOther(SHIM, CORE);
  }

  lemma PortsInOrder(ports: seq<Port>, a: Port, b: Port, c: Port, d: Port, e: Port)
    requires ports != [] && ports[0] == a && ports[1..] == [b, c] + [d, e]
    ensures ports == [a, b, c, d, e]
  {
    assert ports == [a] + ports[1..];
  }

  /** The arrows and tiles the flow records, in order. */
  lemma SampleFlow(p: Names, f: Flow)
    requires p.out != p.local && FlowFits(Sample(p), (FIRST, p.enter), f)
    ensures f.arrows == [0] + [1] && f.tiles == [SHIM, CORE]
  {
    SampleNext(p);
    FlowOfTwo(Sample(p), FIRST, SECOND, p.enter, f);
    FirstOut(p);
    SecondOut(p);
    SampleTiles(p);
  }

  /** And its ports: where it enters, then each master and, if its arrow ends at a tile, the slave port there. */
  lemma SampleFlowPorts(p: Names, f: Flow)
    requires p.out != p.local && FlowFits(Sample(p), (FIRST, p.enter), f)
    ensures f.ports == [(SHIM, p.enter), (SHIM, p.up), (CORE, p.down), (CORE, p.out), (CORE, p.local)]
  {
    SampleNext(p);
    FlowOfTwo(Sample(p), FIRST, SECOND, p.enter, f);
    FirstOut(p);
    SecondOut(p);
    PortsInOrder(f.ports, (SHIM, p.enter), (SHIM, p.up), (CORE, p.down), (CORE, p.out), (CORE, p.local));
  }
}
