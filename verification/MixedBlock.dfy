/**
 * Classifying the circuit connections of a mixed-direction block: forward
 * breadth-first searches from the enabled shim DMA ports find the input side,
 * and the rest is the output side.
 */
module MixedBlock {
  import opened Basics
  import opened Tiles
  import opened Reach
  import opened SetFacts
  import opened SwitchGraph

  datatype Direction = ShimToAie | AieToShim

  datatype ShimPort = ShimPort(tile: Tile, port: int, direction: Direction)

  function SlaveKey(cc: CircuitConn): Key {
    Key(cc.tile, cc.slaveType, cc.slavePort)
  }

  /** The slave port a connection drives on the neighbouring tile; unlike path tracing, a shim's south port
      is not cut off. */
  function DrivenKey(cc: CircuitConn): Option<Key> {
    if Directional(cc.masterType) then
      Some(Key(Step(cc.tile, cc.masterType.dir, 1), Side(Opposite(cc.masterType.dir)), cc.masterPort))
    else None
  }

  function StartKey(sd: ShimPort): Key {
    Key(sd.tile, Side(South), sd.port)
  }

  /** The slave port a connection drives faces it: the master port in its place drives back. */
  lemma DrivenFacesBack(cc: CircuitConn, k: Key, back: CircuitConn)
    requires DrivenKey(cc) == Some(k)
    requires back.tile == k.tile && back.masterType == k.ptype && back.masterPort == k.num
    ensures DrivenKey(back) == Some(Key(cc.tile, cc.masterType, cc.masterPort))
  {
    StepBack(cc.tile, cc.masterType.dir, 1, Opposite(cc.masterType.dir));
  }

  /** Path tracing goes the same way, except out of a shim's south port. */
  lemma DrivenIsNext(cc: CircuitConn)
    ensures var hop := CircuitEdge(cc).hop;
            NextKey(hop) == if ShimExit(hop) then None else DrivenKey(cc)
  {
  }

  // Which connections a port reaches ---------------------------------------------------

  predicate Drives(conns: seq<CircuitConn>, i: int, j: int) {
    0 <= i < |conns| && 0 <= j < |conns| && DrivenKey(conns[i]) == Some(SlaveKey(conns[j]))
  }

  ghost function DrivesIn(conns: seq<CircuitConn>): (int, int) -> bool {
    (i, j) => Drives(conns, i, j)
  }

  /** A connection fed by `key` leads to connection `ci`. */
  ghost predicate Reached(conns: seq<CircuitConn>, key: Key, ci: int) {
    ReachedFrom(DrivesIn(conns), Elements(ConnsAt(conns, key)), ci)
  }

  /** `s` has the connections fed by `key` and everything they drive. */
  ghost predicate ClosedUnder(conns: seq<CircuitConn>, key: Key, s: set<int>) {
    Elements(ConnsAt(conns, key)) <= s && Closed(DrivesIn(conns), s)
  }

  /** Reaching is the least closed set. */
  lemma ReachedIsIn(conns: seq<CircuitConn>, key: Key, s: set<int>, ci: int)
    requires ClosedUnder(conns, key, s) && Reached(conns, key, ci)
    ensures ci in s
  {
    ReachedWithin(DrivesIn(conns), Elements(ConnsAt(conns, key)), s, ci);
  }

  // The lookup table -------------------------------------------------------------------

  function ConnsAt(conns: seq<CircuitConn>, key: Key): (r: seq<int>)
    ensures forall i :: i in r <==> 0 <= i < |conns| && SlaveKey(conns[i]) == key
    ensures Distinct(r)
  {
    if conns == [] then []
    else
      var n := |conns| - 1;
      var front := ConnsAt(conns[..n], key);
      if SlaveKey(conns[n]) == key then
        DistinctAppend(front, n);
        front + [n]
      else front
  }

  type Table = map<Key, seq<int>>

  function At(table: Table, key: Key): seq<int> {
    if key in table then table[key] else []
  }

  ghost predicate IsTable(conns: seq<CircuitConn>, table: Table) {
    forall key :: At(table, key) == ConnsAt(conns, key)
  }

  method BuildTable(conns: seq<CircuitConn>) returns (table: Table)
    ensures IsTable(conns, table)
  {
    table := map[];
    for n := 0 to |conns|
      invariant IsTable(conns[..n], table)
    {
      assert conns[..n + 1][..n] == conns[..n];
      var key := SlaveKey(conns[n]);
      table := table[key := At(table, key) + [n]];
    }
    assert conns[..|conns|] == conns;
  }

  /** The connections that connection `ci` drives, looked up in the table. */
  function DrivenConns(conns: seq<CircuitConn>, table: Table, ci: int): seq<int>
    requires 0 <= ci < |conns|
  {
    var driven := DrivenKey(conns[ci]);
    if driven.Some? then At(table, driven.value) else []
  }

  lemma LookupIsExact(conns: seq<CircuitConn>, table: Table, ci: int)
    requires IsTable(conns, table) && 0 <= ci < |conns|
    ensures forall j :: j in DrivenConns(conns, table, ci) <==> Drives(conns, ci, j)
  {
  }

  // The searches -----------------------------------------------------------------------

  function Elements(s: seq<int>): (r: set<int>)
    ensures forall i :: i in r <==> i in s
  {
    set i | i in s
  }

  /** Put the connections of `next` that were not seen before at the end of the queue. */
  method Enqueue(next: seq<int>, queue0: seq<int>, visited0: set<int>) returns (queue: seq<int>, visited: set<int>)
    requires Distinct(queue0) && Elements(queue0) <= visited0
    ensures visited == visited0 + Elements(next) && Distinct(queue)
    ensures Elements(queue) == Elements(queue0) + (Elements(next) - visited0)
  {
    queue, visited := queue0, visited0;
    for n := 0 to |next|
      invariant visited == visited0 + Elements(next[..n]) && Distinct(queue)
      invariant Elements(queue) == Elements(queue0) + (Elements(next[..n]) - visited0)
    {
      if next[n] !in visited {
        assert next[n] !in Elements(queue);
        visited := visited + {next[n]};
        queue := queue + [next[n]];
      }
    }
    assert next[..|next|] == next;
  }

  lemma PopElements(queue: seq<int>)
    requires queue != [] && Distinct(queue)
    ensures Distinct(queue[1..]) && Elements(queue[1..]) == Elements(queue) - {queue[0]}
  {
    assert queue == [queue[0]] + queue[1..];
  }

  function Range(n: nat): (r: set<int>)
    ensures forall i :: i in r <==> 0 <= i < n
  {
    if n == 0 then {} else Range(n - 1) + {n - 1}
  }

  /** `reached` has been expanded, `queue` is waiting, and together they are what has been seen. */
  ghost predicate Queued(queue: seq<int>, reached: set<int>, visited: set<int>) {
    Distinct(queue) && reached !! Elements(queue) && visited == reached + Elements(queue)
  }

  lemma QueueStep(queue: seq<int>, reached: set<int>, visited: set<int>, next: seq<int>,
                  queue': seq<int>, visited': set<int>)
    requires Queued(queue, reached, visited) && queue != []
    requires visited' == visited + Elements(next) && Distinct(queue')
    requires Elements(queue') == Elements(queue[1..]) + (Elements(next) - visited)
    ensures Queued(queue', reached + {queue[0]}, visited') && queue[0] !in reached
  {
    PopElements(queue);
    assert queue[0] in Elements(queue);
  }

  /** `reached` has been expanded, `queue` is waiting, `visited` is both. */
  ghost predicate Exploring(conns: seq<CircuitConn>, key: Key, queue: seq<int>, reached: set<int>, visited: set<int>) {
    && Queued(queue, reached, visited) && visited <= Range(|conns|)
    && Searching(DrivesIn(conns), Elements(ConnsAt(conns, key)), queue, reached)
  }

  lemma ExploringStarts(conns: seq<CircuitConn>, key: Key)
    ensures Exploring(conns, key, ConnsAt(conns, key), {}, Elements(ConnsAt(conns, key)))
  {
    SearchStarts(DrivesIn(conns), Elements(ConnsAt(conns, key)), ConnsAt(conns, key));
  }

  lemma ExploringStep(conns: seq<CircuitConn>, key: Key, queue: seq<int>, reached: set<int>, visited: set<int>,
                      next: seq<int>, queue': seq<int>, visited': set<int>)
    requires Exploring(conns, key, queue, reached, visited) && queue != []
    requires forall j :: j in next <==> Drives(conns, queue[0], j)
    requires visited' == visited + Elements(next) && Distinct(queue')
    requires Elements(queue') == Elements(queue[1..]) + (Elements(next) - visited)
    ensures Exploring(conns, key, queue', reached + {queue[0]}, visited')
    ensures queue[0] in Range(|conns|) - reached
  {
    assert queue[0] in Elements(queue);
    QueueStep(queue, reached, visited, next, queue', visited');
    StepOfQueue(conns, queue, reached, visited, next, queue');
    SearchStep(DrivesIn(conns), Elements(ConnsAt(conns, key)), queue, reached, queue');
  }

  /** One search: exactly the connections reached from `key`. */
  method Search(conns: seq<CircuitConn>, table: Table, key: Key) returns (reached: set<int>)
    requires IsTable(conns, table)
    ensures forall ci :: ci in reached <==> Reached(conns, key, ci)
  {
    reached := {};
    var queue := At(table, key);
    var visited := Elements(queue);
    ExploringStarts(conns, key);
    while queue != []
      invariant Exploring(conns, key, queue, reached, visited)
      decreases Range(|conns|) - reached
    {
      var ci := queue[0];
      assert ci in Elements(queue);
      PopElements(queue);
      LookupIsExact(conns, table, ci);
      var next := DrivenConns(conns, table, ci);
      var queue', visited' := Enqueue(next, queue[1..], visited);
      ExploringStep(conns, key, queue, reached, visited, next, queue', visited');
      reached := reached + {ci};
      queue, visited := queue', visited';
    }
    SearchIsExact(DrivesIn(conns), Elements(ConnsAt(conns, key)), reached);
  }

  /** What a connection drives waits unless it was expanded already. */
  lemma StepOfQueue(conns: seq<CircuitConn>, queue: seq<int>, reached: set<int>, visited: set<int>,
                    next: seq<int>, queue': seq<int>)
    requires Queued(queue, reached, visited) && queue != []
    requires forall j :: j in next <==> Drives(conns, queue[0], j)
    requires Elements(queue') == Elements(queue[1..]) + (Elements(next) - visited)
    ensures forall n :: n in queue[1..] ==> n in queue'
    ensures forall n :: n in queue' ==> n in queue[1..] || DrivesIn(conns)(queue[0], n)
    ensures forall n :: DrivesIn(conns)(queue[0], n) ==> n in queue' || n in reached + {queue[0]}
  {
    assert queue == [queue[0]] + queue[1..];
    forall n | n in queue[1..]
      ensures n in queue'
    {
      assert n in Elements(queue');
    }
    forall n | n in queue'
      ensures n in queue[1..] || DrivesIn(conns)(queue[0], n)
    {
      assert n in Elements(queue');
    }
    forall n | DrivesIn(conns)(queue[0], n)
      ensures n in queue' || n in reached + {queue[0]}
    {
      if n !in visited {
        assert n in Elements(queue');
      } else if n in Elements(queue) && n != queue[0] {
        assert n in queue[1..];
      }
    }
  }

  // The classification -------------------------------------------------------------------

  /** Connection `ci` carries data that entered through an enabled input port. */
  ghost predicate IsInput(conns: seq<CircuitConn>, shim: seq<ShimPort>, ci: int) {
    exists n :: 0 <= n < |shim| && InputVia(conns, shim[n], ci)
  }

  ghost predicate InputVia(conns: seq<CircuitConn>, sd: ShimPort, ci: int) {
    sd.direction == ShimToAie && Reached(conns, StartKey(sd), ci)
  }

  method Classify(conns: seq<CircuitConn>, shim: seq<ShimPort>) returns (input: set<int>, output: set<int>)
    ensures forall ci :: ci in input <==> IsInput(conns, shim, ci)
    ensures forall ci :: ci in output <==> 0 <= ci < |conns| && !IsInput(conns, shim, ci)
  {
    var table := BuildTable(conns);
    input := {};
    for n := 0 to |shim|
      invariant forall ci :: ci in input <==> exists m :: 0 <= m < n && InputVia(conns, shim[m], ci)
    {
      if shim[n].direction == ShimToAie {
        var reached := Search(conns, table, StartKey(shim[n]));
        input := input + reached;
      }
    }
    output := Range(|conns|) - input;
  }

  /** The input side is closed under forwarding, so no output connection is fed by an input one. */
  lemma InputFeedsInput(conns: seq<CircuitConn>, shim: seq<ShimPort>, i: int, j: int)
    requires IsInput(conns, shim, i) && Drives(conns, i, j)
    ensures IsInput(conns, shim, j)
  {
    var n :| 0 <= n < |shim| && InputVia(conns, shim[n], i);
    ReachedOn(DrivesIn(conns), Elements(ConnsAt(conns, StartKey(shim[n]))), i, j);
    assert InputVia(conns, shim[n], j);
  }

  /** It is the least such set: any closed set that contains the connections of every enabled input port contains it. */
  lemma InputIsLeast(conns: seq<CircuitConn>, shim: seq<ShimPort>, s: set<int>, ci: int)
    requires forall n :: 0 <= n < |shim| && shim[n].direction == ShimToAie ==> ClosedUnder(conns, StartKey(shim[n]), s)
    requires IsInput(conns, shim, ci)
    ensures ci in s
  {
    var n :| 0 <= n < |shim| && InputVia(conns, shim[n], ci);
    ReachedIsIn(conns, StartKey(shim[n]), s, ci);
  }

  /** Connection `i` takes its data from the SOUTH port that `sd` enables. */
  predicate TakesFrom(conns: seq<CircuitConn>, i: int, sd: ShimPort) {
    && 0 <= i < |conns|
    && conns[i].tile == sd.tile && conns[i].slaveType == Side(South) && conns[i].slavePort == sd.port
  }

  ghost predicate FedBy(conns: seq<CircuitConn>, sd: ShimPort, ci: int) {
    sd.direction == ShimToAie && exists i :: TakesFrom(conns, i, sd) && Reaches(DrivesIn(conns), i, ci)
  }

  lemma ViaExactly(conns: seq<CircuitConn>, sd: ShimPort, ci: int)
    ensures InputVia(conns, sd, ci) <==> FedBy(conns, sd, ci)
  {
    var starts := Elements(ConnsAt(conns, StartKey(sd)));
    assert forall i :: i in starts <==> TakesFrom(conns, i, sd);
    if InputVia(conns, sd, ci) {
      var i := StartOf(DrivesIn(conns), starts, ci);
      assert TakesFrom(conns, i, sd);
    }
    if FedBy(conns, sd, ci) {
      var i :| TakesFrom(conns, i, sd) && Reaches(DrivesIn(conns), i, ci);
      assert i in starts;
    }
  }

  /** A connection is on the input side exactly when one fed by the SOUTH port of an enabled input leads to it. */
  lemma InputExactly(conns: seq<CircuitConn>, shim: seq<ShimPort>, ci: int)
    ensures IsInput(conns, shim, ci) <==> exists n :: 0 <= n < |shim| && FedBy(conns, shim[n], ci)
  {
    forall n | 0 <= n < |shim|
      ensures InputVia(conns, shim[n], ci) <==> FedBy(conns, shim[n], ci)
    {
      ViaExactly(conns, shim[n], ci);
    }
  }

  /** In at (1,0), west to (0,0) and north; a second stream comes down to (2,0) and leaves. */
  const WESTWARD: seq<CircuitConn> := [
    CircuitConn(Tile(1, 0), Side(South), 3, Side(West), 0),
    CircuitConn(Tile(0, 0), Side(East), 0, Side(North), 0),
    CircuitConn(Tile(2, 0), Side(North), 0, Side(South), 2)]

  const PORTS: seq<ShimPort> := [ShimPort(Tile(1, 0), 3, ShimToAie), ShimPort(Tile(2, 0), 2, AieToShim)]

  lemma WestwardDrives(i: int, j: int)
    ensures Drives(WESTWARD, i, j) <==> i == 0 && j == 1
  {
  }

  lemma WestwardTakes(i: int)
    ensures TakesFrom(WESTWARD, i, PORTS[0]) <==> i == 0
  {
  }

  lemma NothingElse(step: (int, int) -> bool)
    requires step == DrivesIn(WESTWARD)
    ensures !Reaches(step, 0, 2)
  {
    forall i, j | i in {0, 1} && step(i, j)
      ensures j in {0, 1}
    {
      WestwardDrives(i, j);
    }
    if Reaches(step, 0, 2) {
      ReachesWithin(step, {0, 1}, 0, 2);
    }
  }

  lemma NotFed(sd: ShimPort)
    requires sd in PORTS
    ensures !FedBy(WESTWARD, sd, 2)
  {
    if sd == PORTS[0] && FedBy(WESTWARD, sd, 2) {
      var i :| TakesFrom(WESTWARD, i, sd) && Reaches(DrivesIn(WESTWARD), i, 2);
      WestwardTakes(i);
      NothingElse(DrivesIn(WESTWARD));
    }
  }

  lemma BothFed()
    ensures FedBy(WESTWARD, PORTS[0], 0) && FedBy(WESTWARD, PORTS[0], 1)
  {
    var step := DrivesIn(WESTWARD);
    WestwardTakes(0);
    WestwardDrives(0, 1);
    ReachesSelf(step, 0);
    ReachesOn(step, 0, 0, 1);
  }

  lemma NoneFed(conns: seq<CircuitConn>, shim: seq<ShimPort>, ci: int)
    requires forall sd :: sd in shim ==> !FedBy(conns, sd, ci)
    ensures !IsInput(conns, shim, ci)
  {
    InputExactly(conns, shim, ci);
  }

  lemma FedIsInput(conns: seq<CircuitConn>, shim: seq<ShimPort>, ci: int, n: nat)
    requires n < |shim| && FedBy(conns, shim[n], ci)
    ensures IsInput(conns, shim, ci)
  {
    InputExactly(conns, shim, ci);
  }

  /** The first two connections are on the input side. */
  lemma WestwardIsInput()
    ensures IsInput(WESTWARD, PORTS, 0) && IsInput(WESTWARD, PORTS, 1)
  {
    BothFed();
    FedIsInput(WESTWARD, PORTS, 0, 0);
    FedIsInput(WESTWARD, PORTS, 1, 0);
  }

  /** The third is not. */
  lemma DownwardIsOutput()
    ensures !IsInput(WESTWARD, PORTS, 2)
  {
    forall sd | sd in PORTS
      ensures !FedBy(WESTWARD, sd, 2)
    {
      NotFed(sd);
    }
    NoneFed(WESTWARD, PORTS, 2);
  }
}
