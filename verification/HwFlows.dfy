/**
 * Stream flows of a hardware log: a breadth-first search from every enabled shim
 * SOUTH slave, following slave index -> masters reading it -> arrow -> slave on
 * the next tile.
 */
module HwFlows {
  import opened Basics
  import opened Tiles
  import opened SetFacts
  import opened Reach
  import opened HwPorts
  import opened HwArrows

  /** A slave of a tile. */
  datatype Node = Node(loc: Tile, index: int)

  // The slaves of a tile ------------------------------------------------------------------

  /** The slaves with an index in one log entry, in order. */
  function Indexed(slaves: seq<Slave>): seq<(int, string)> {
    if slaves == [] then []
    else
      var last := slaves[|slaves| - 1];
      Indexed(slaves[..|slaves| - 1]) + (if last.index.Some? then [(last.index.value, last.port)] else [])
  }

  /** The same over all log entries for the tile at `loc`. */
  function SlaveEntries(log: seq<LogTile>, loc: Tile): seq<(int, string)> {
    if log == [] then []
    else
      var n := |log| - 1;
      SlaveEntries(log[..n], loc) + (if log[n].loc == loc then Indexed(log[n].slaves) else [])
  }

  /** A dictionary in insertion order. */
  type SlaveList = seq<(int, string)>

  /** A dictionary update: a known index keeps its place. */
  function PutSlave(list: SlaveList, index: int, port: string): SlaveList {
    if list == [] then [(index, port)]
    else if list[0].0 == index then [(index, port)] + list[1..]
    else [list[0]] + PutSlave(list[1..], index, port)
  }

  /** The dictionary after the given entries. */
  function TableOf(entries: seq<(int, string)>): SlaveList {
    if entries == [] then []
    else
      var last := entries[|entries| - 1];
      PutSlave(TableOf(entries[..|entries| - 1]), last.0, last.1)
  }

  function SlaveTable(log: seq<LogTile>, loc: Tile): SlaveList {
    TableOf(SlaveEntries(log, loc))
  }

  /** The first slave with the given port name. */
  function IndexOf(list: SlaveList, port: string): Option<int> {
    if list == [] then None
    else if list[0].1 == port then Some(list[0].0)
    else IndexOf(list[1..], port)
  }

  /** The indices of the entries in the order they are first seen. */
  function FirstSeen(entries: seq<(int, string)>): seq<int> {
    if entries == [] then []
    else
      var seen, last := FirstSeen(entries[..|entries| - 1]), entries[|entries| - 1].0;
      if last in seen then seen else seen + [last]
  }

  /** The port written last for an index. */
  function LastPort(entries: seq<(int, string)>, index: int): Option<string> {
    if entries == [] then None
    else if entries[|entries| - 1].0 == index then Some(entries[|entries| - 1].1)
    else LastPort(entries[..|entries| - 1], index)
  }

  lemma {:induction false} PutSlaveAt(list: SlaveList, index: int, port: string, k: nat)
    requires k < |list| && list[k].0 == index && forall j :: 0 <= j < k ==> list[j].0 != index
    ensures PutSlave(list, index, port) == list[k := (index, port)]
  {
    if k > 0 {
      PutSlaveAt(list[1..], index, port, k - 1);
    }
  }

  lemma {:induction false} PutSlaveNew(list: SlaveList, index: int, port: string)
    requires forall j :: 0 <= j < |list| ==> list[j].0 != index
    ensures PutSlave(list, index, port) == list + [(index, port)]
  {
    if list != [] {
      PutSlaveNew(list[1..], index, port);
    }
  }

  lemma {:induction false} FirstSeenDistinct(entries: seq<(int, string)>)
    ensures Distinct(FirstSeen(entries))
  {
    if entries != [] {
      var seen, last := FirstSeen(entries[..|entries| - 1]), entries[|entries| - 1].0;
      FirstSeenDistinct(entries[..|entries| - 1]);
      if last !in seen {
        DistinctAppend(seen, last);
      }
    }
  }

  /** `list` holds the given indices in order, each with the port written last. */
  ghost predicate Tabulates(list: SlaveList, entries: seq<(int, string)>) {
    && |list| == |FirstSeen(entries)|
    && forall k :: 0 <= k < |list| ==>
         list[k].0 == FirstSeen(entries)[k] && LastPort(entries, list[k].0) == Some(list[k].1)
  }

  /** The dictionary lists the indices in the order first seen, each with the port written last. */
  lemma {:induction false} TableIsExact(entries: seq<(int, string)>)
    ensures Tabulates(TableOf(entries), entries)
  {
    if entries != [] {
      var front, last := entries[..|entries| - 1], entries[|entries| - 1];
      TableIsExact(front);
      FirstSeenDistinct(front);
      var list, seen := TableOf(front), FirstSeen(front);
      if last.0 in seen {
        var k :| 0 <= k < |seen| && seen[k] == last.0;
        PutSlaveAt(list, last.0, last.1, k);
      } else {
        PutSlaveNew(list, last.0, last.1);
      }
    }
  }

  /** `index` is the earliest index whose port, as written last, is `port`. */
  ghost predicate Chosen(entries: seq<(int, string)>, port: string, index: int) {
    exists k :: ChosenAt(entries, port, index, k)
  }

  ghost predicate ChosenAt(entries: seq<(int, string)>, port: string, index: int, k: int) {
    var seen := FirstSeen(entries);
    && 0 <= k < |seen| && seen[k] == index && LastPort(entries, index) == Some(port)
    && forall j :: 0 <= j < k ==> LastPort(entries, seen[j]) != Some(port)
  }

  lemma {:induction false} IndexOfIsFirst(list: SlaveList, port: string)
    ensures IndexOf(list, port).None? <==> forall k :: 0 <= k < |list| ==> list[k].1 != port
    ensures IndexOf(list, port).Some? ==>
              exists k :: 0 <= k < |list| && list[k] == (IndexOf(list, port).value, port)
                          && forall j :: 0 <= j < k ==> list[j].1 != port
  {
    if list != [] && list[0].1 != port {
      IndexOfIsFirst(list[1..], port);
      assert forall k :: 0 <= k < |list| - 1 ==> list[1..][k] == list[k + 1];
      if IndexOf(list, port).Some? {
        var k :| 0 <= k < |list[1..]| && list[1..][k] == (IndexOf(list, port).value, port)
                 && forall j :: 0 <= j < k ==> list[1..][j].1 != port;
        assert list[k + 1] == (IndexOf(list, port).value, port);
        assert forall j :: 0 < j < k + 1 ==> list[j] == list[1..][j - 1];
      } else {
        assert forall k :: 0 < k < |list| ==> list[k] == list[1..][k - 1];
      }
    }
  }

  lemma ChosenIsUnique(entries: seq<(int, string)>, port: string, i: int, j: int)
    requires Chosen(entries, port, i) && Chosen(entries, port, j)
    ensures i == j
  {
    var k :| ChosenAt(entries, port, i, k);
    var l :| ChosenAt(entries, port, j, l);
  }

  lemma IndexOfExactly(entries: seq<(int, string)>, port: string, index: int)
    ensures IndexOf(TableOf(entries), port) == Some(index) <==> Chosen(entries, port, index)
  {
    var list := TableOf(entries);
    TableIsExact(entries);
    if Chosen(entries, port, index) {
      var k :| ChosenAt(entries, port, index, k);
      assert list[k].1 == port;
    }
    IndexOfIsFirst(list, port);
    if IndexOf(list, port).Some? {
      var k :| 0 <= k < |list| && list[k] == (IndexOf(list, port).value, port)
               && forall j :: 0 <= j < k ==> list[j].1 != port;
      assert ChosenAt(entries, port, IndexOf(list, port).value, k);
      if Chosen(entries, port, index) {
        ChosenIsUnique(entries, port, index, IndexOf(list, port).value);
      }
    }
  }

  // The masters of a tile -------------------------------------------------------------------

  function ReadersIn(masters: seq<Master>, index: int): seq<Master> {
    if masters == [] then []
    else
      (if masters[0].enabled && masters[0].source == Some(index) then [masters[0]] else []) +
        ReadersIn(masters[1..], index)
  }

  /** The enabled masters of the node's tile whose configuration names the node's index. */
  function Readers(log: seq<LogTile>, node: Node): seq<Master> {
    if log == [] then []
    else
      var n := |log| - 1;
      Readers(log[..n], node) + (if log[n].loc == node.loc then ReadersIn(log[n].masters, node.index) else [])
  }

  /** Entry `i` of the log has `m` as an enabled master of the node's tile that reads the node. */
  predicate Reads(log: seq<LogTile>, i: int, m: Master, node: Node) {
    0 <= i < |log| && log[i].loc == node.loc && m in log[i].masters && m.enabled && m.source == Some(node.index)
  }

  lemma {:induction false} ReadersInExactly(masters: seq<Master>, index: int, m: Master)
    ensures m in ReadersIn(masters, index) <==> m in masters && m.enabled && m.source == Some(index)
  {
    if masters != [] {
      ReadersInExactly(masters[1..], index, m);
      assert masters == [masters[0]] + masters[1..];
    }
  }

  lemma {:induction false} ReadersExactly(log: seq<LogTile>, node: Node, m: Master)
    ensures m in Readers(log, node) <==> exists i :: Reads(log, i, m, node)
  {
    if log != [] {
      var n := |log| - 1;
      ReadersExactly(log[..n], node, m);
      ReadersInExactly(log[n].masters, node.index, m);
      if i :| Reads(log[..n], i, m, node) {
        assert Reads(log, i, m, node);
      }
      if i :| Reads(log, i, m, node) {
        if i < n {
          assert Reads(log[..n], i, m, node);
        }
      }
      if log[n].loc == node.loc && m in ReadersIn(log[n].masters, node.index) {
        assert Reads(log, n, m, node);
      }
    }
  }

  // The arrow of a master ---------------------------------------------------------------------

  predicate ArrowFrom(arrows: seq<Arrow>, i: int, loc: Tile, port: string) {
    0 <= i < |arrows| && arrows[i].from == loc && arrows[i].port == port
  }

  /** Arrow `i` is the last one of its tile and port. */
  ghost predicate LastArrow(arrows: seq<Arrow>, i: int, loc: Tile, port: string) {
    ArrowFrom(arrows, i, loc, port) && forall j :: i < j < |arrows| ==> !ArrowFrom(arrows, j, loc, port)
  }

  /** The arrow recorded for a master, as the dictionary keeps it: the last one. */
  function ArrowOf(arrows: seq<Arrow>, loc: Tile, port: string): (r: Option<int>)
    ensures r.Some? ==> LastArrow(arrows, r.value, loc, port)
    ensures r.None? ==> forall i :: !ArrowFrom(arrows, i, loc, port)
  {
    if arrows == [] then None
    else
      var n := |arrows| - 1;
      var r := if arrows[n].from == loc && arrows[n].port == port then Some(n) else ArrowOf(arrows[..n], loc, port);
      assert forall i :: 0 <= i < n ==> (ArrowFrom(arrows, i, loc, port) <==> ArrowFrom(arrows[..n], i, loc, port));
      r
  }

  // The graph -----------------------------------------------------------------------------

  datatype Switches = Switches(log: seq<LogTile>, arrows: seq<Arrow>)

  /** The arrow a master sends on, if it has one. */
  function Sends(sw: Switches, node: Node, m: Master): Option<int> {
    ArrowOf(sw.arrows, node.loc, m.port)
  }

  /** The slave an arrow ends at, if it does not dangle and the tile has a slave of that name. */
  function Lands(sw: Switches, ai: int): Option<Node>
    requires 0 <= ai < |sw.arrows|
  {
    var a := sw.arrows[ai];
    if a.dangling then None
    else
      var index := IndexOf(SlaveTable(sw.log, a.to), a.slavePort);
      if index.None? then None else Some(Node(a.to, index.value))
  }

  /** The arrows leaving a node and the nodes they reach, master by master. */
  function Arrows(sw: Switches, node: Node, masters: seq<Master>): (r: seq<int>)
    ensures forall i :: 0 <= i < |r| ==> 0 <= r[i] < |sw.arrows|
  {
    if masters == [] then []
    else
      var ai := Sends(sw, node, masters[|masters| - 1]);
      Arrows(sw, node, masters[..|masters| - 1]) + (if ai.Some? then [ai.value] else [])
  }

  function Targets(sw: Switches, ais: seq<int>): seq<Node>
    requires forall i :: 0 <= i < |ais| ==> 0 <= ais[i] < |sw.arrows|
  {
    if ais == [] then []
    else
      var node := Lands(sw, ais[|ais| - 1]);
      Targets(sw, ais[..|ais| - 1]) + (if node.Some? then [node.value] else [])
  }

  function OutArrows(sw: Switches, node: Node): (r: seq<int>)
    ensures forall i :: 0 <= i < |r| ==> 0 <= r[i] < |sw.arrows|
  {
    Arrows(sw, node, Readers(sw.log, node))
  }

  function Next(sw: Switches, node: Node): seq<Node> {
    Targets(sw, OutArrows(sw, node))
  }

  ghost function NextOf(sw: Switches): (Node, Node) -> bool {
    (n, m) => m in Next(sw, n)
  }

  // What the graph is -----------------------------------------------------------------------

  /** An arrow ends at the slave that its tile's log entries call by the arrow's slave name. */
  lemma LandsExactly(sw: Switches, ai: int, n: Node)
    requires 0 <= ai < |sw.arrows|
    ensures var a := sw.arrows[ai];
            Lands(sw, ai) == Some(n) <==>
            !a.dangling && n.loc == a.to && Chosen(SlaveEntries(sw.log, a.to), a.slavePort, n.index)
  {
    var a := sw.arrows[ai];
    IndexOfExactly(SlaveEntries(sw.log, a.to), a.slavePort, n.index);
  }

  lemma {:induction false} ArrowsExactly(sw: Switches, node: Node, masters: seq<Master>, ai: int)
    ensures ai in Arrows(sw, node, masters) <==> exists m :: m in masters && LastArrow(sw.arrows, ai, node.loc, m.port)
  {
    if masters != [] {
      var n := |masters| - 1;
      ArrowsExactly(sw, node, masters[..n], ai);
      assert masters == masters[..n] + [masters[n]];
      LastIsOnly(sw.arrows, node.loc, masters[n].port, ai);
    }
  }

  lemma LastIsOnly(arrows: seq<Arrow>, loc: Tile, port: string, ai: int)
    ensures ArrowOf(arrows, loc, port) == Some(ai) <==> LastArrow(arrows, ai, loc, port)
  {
    var r := ArrowOf(arrows, loc, port);
    if LastArrow(arrows, ai, loc, port) && r.Some? {
      assert ArrowFrom(arrows, r.value, loc, port);
    }
  }

  /** Arrow `ai` is the last one of the tile and port of a master that reads the node. */
  ghost predicate ReadAndSent(sw: Switches, node: Node, ai: int) {
    exists i, m :: Reads(sw.log, i, m, node) && LastArrow(sw.arrows, ai, node.loc, m.port)
  }

  /** The arrows that leave a node are the last ones of the masters that read it. */
  lemma OutArrowsExactly(sw: Switches, node: Node, ai: int)
    ensures ai in OutArrows(sw, node) <==> ReadAndSent(sw, node, ai)
  {
    ArrowsExactly(sw, node, Readers(sw.log, node), ai);
    if m :| m in Readers(sw.log, node) && LastArrow(sw.arrows, ai, node.loc, m.port) {
      ReadersExactly(sw.log, node, m);
      var i :| Reads(sw.log, i, m, node);
    }
    if i, m :| Reads(sw.log, i, m, node) && LastArrow(sw.arrows, ai, node.loc, m.port) {
      ReadersExactly(sw.log, node, m);
    }
  }

  lemma {:induction false} TargetsExactly(sw: Switches, ais: seq<int>, n: Node)
    requires forall i :: 0 <= i < |ais| ==> 0 <= ais[i] < |sw.arrows|
    ensures n in Targets(sw, ais) <==> exists i :: 0 <= i < |ais| && Lands(sw, ais[i]) == Some(n)
  {
    if ais != [] {
      var k := |ais| - 1;
      TargetsExactly(sw, ais[..k], n);
      if i :| 0 <= i < |ais| && Lands(sw, ais[i]) == Some(n) {
        if i < k {
          assert ais[..k][i] == ais[i];
        }
      }
    }
  }

  /** A step leads from a slave over the last arrow of a master that reads it to the slave that arrow names. */
  ghost predicate Forwards(sw: Switches, n: Node, m: Node) {
    exists ai :: ForwardsBy(sw, n, m, ai)
  }

  ghost predicate ForwardsBy(sw: Switches, n: Node, m: Node, ai: int) {
    && 0 <= ai < |sw.arrows| && ReadAndSent(sw, n, ai) && !sw.arrows[ai].dangling && m.loc == sw.arrows[ai].to
    && Chosen(SlaveEntries(sw.log, m.loc), sw.arrows[ai].slavePort, m.index)
  }

  lemma NextExactly(sw: Switches, n: Node, m: Node)
    ensures NextOf(sw)(n, m) <==> Forwards(sw, n, m)
  {
    var ais := OutArrows(sw, n);
    TargetsExactly(sw, ais, m);
    if i :| 0 <= i < |ais| && Lands(sw, ais[i]) == Some(m) {
      assert ais[i] in ais;
      OutArrowsExactly(sw, n, ais[i]);
      LandsExactly(sw, ais[i], m);
      assert ForwardsBy(sw, n, m, ais[i]);
    }
    if ai :| ForwardsBy(sw, n, m, ai) {
      OutArrowsExactly(sw, n, ai);
      LandsExactly(sw, ai, m);
      var i :| 0 <= i < |ais| && ais[i] == ai;
      assert Lands(sw, ais[i]) == Some(m);
    }
  }

  // Finitely many nodes --------------------------------------------------------------------

  function Ends(sw: Switches, n: nat): set<Node>
    requires n <= |sw.arrows|
  {
    if n == 0 then {}
    else
      var node := Lands(sw, n - 1);
      Ends(sw, n - 1) + (if node.Some? then {node.value} else {})
  }

  lemma {:induction false} LandsAmongEnds(sw: Switches, n: nat, ai: int)
    requires n <= |sw.arrows| && 0 <= ai < n && Lands(sw, ai).Some?
    ensures Lands(sw, ai).value in Ends(sw, n)
  {
    if ai < n - 1 {
      LandsAmongEnds(sw, n - 1, ai);
    }
  }

  lemma {:induction false} TargetsAmongEnds(sw: Switches, ais: seq<int>)
    requires forall i :: 0 <= i < |ais| ==> 0 <= ais[i] < |sw.arrows|
    ensures forall n :: n in Targets(sw, ais) ==> n in Ends(sw, |sw.arrows|)
  {
    if ais != [] {
      var n := |ais| - 1;
      TargetsAmongEnds(sw, ais[..n]);
      if Lands(sw, ais[n]).Some? {
        LandsAmongEnds(sw, |sw.arrows|, ais[n]);
      }
    }
  }

  // The search -----------------------------------------------------------------------------

  /** A port of a tile, as the display lists name it. */
  type Port = (Tile, string)

  /** The ports shown for the masters that read a node: each master, then the slave port its arrow points at. */
  function Ports(sw: Switches, node: Node, masters: seq<Master>): seq<Port> {
    if masters == [] then []
    else
      var m := masters[|masters| - 1];
      Ports(sw, node, masters[..|masters| - 1]) + [(node.loc, m.port)] + FarPort(sw, Sends(sw, node, m))
  }

  function FarPort(sw: Switches, ai: Option<int>): seq<Port>
    requires ai.Some? ==> 0 <= ai.value < |sw.arrows|
  {
    if ai.None? || sw.arrows[ai.value].dangling then []
    else [(sw.arrows[ai.value].to, sw.arrows[ai.value].slavePort)]
  }

  /** The tiles that arrows point at. */
  function Hits(sw: Switches, ais: seq<int>): seq<Tile>
    requires forall i :: 0 <= i < |ais| ==> 0 <= ais[i] < |sw.arrows|
  {
    if ais == [] then []
    else Hits(sw, ais[..|ais| - 1]) + Hit(sw, ais[|ais| - 1])
  }

  function Hit(sw: Switches, ai: int): seq<Tile>
    requires 0 <= ai < |sw.arrows|
  {
    if sw.arrows[ai].dangling then [] else [sw.arrows[ai].to]
  }

  /** Expand one node: record the arrows of its masters, what they show, and queue the slaves they land on. */
  method Expand(sw: Switches, node: Node, masters: seq<Master>, tiles0: seq<Tile>)
    returns (ais: seq<int>, next: seq<Node>, ports: seq<Port>, tiles: seq<Tile>)
    ensures ais == Arrows(sw, node, masters) && next == Targets(sw, ais)
    ensures ports == Ports(sw, node, masters) && tiles == AddNew(tiles0, Hits(sw, ais))
  {
    ais, next, ports, tiles := [], [], [], tiles0;
    for i := 0 to |masters|
      invariant ais == Arrows(sw, node, masters[..i]) && next == Targets(sw, ais)
      invariant ports == Ports(sw, node, masters[..i]) && tiles == AddNew(tiles0, Hits(sw, ais))
    {
      OneMoreMaster(sw, node, masters, i);
      ports := ports + [(node.loc, masters[i].port)];
      var ai := Sends(sw, node, masters[i]);
      if ai.Some? {
        OneMoreArrow(sw, ais, ai.value, tiles0);
        ais := ais + [ai.value];
        var a := sw.arrows[ai.value];
        if !a.dangling {
          if a.to !in tiles {
            tiles := tiles + [a.to];
          }
          ports := ports + [(a.to, a.slavePort)];
        }
        var landed := Lands(sw, ai.value);
        if landed.Some? {
          next := next + [landed.value];
        }
      }
    }
    assert masters[..|masters|] == masters;
  }

  lemma OneMoreMaster(sw: Switches, node: Node, masters: seq<Master>, i: nat)
    requires i < |masters|
    ensures var ai := Sends(sw, node, masters[i]);
            && Arrows(sw, node, masters[..i + 1]) == Arrows(sw, node, masters[..i])
                                                     + (if ai.Some? then [ai.value] else [])
            && Ports(sw, node, masters[..i + 1]) == Ports(sw, node, masters[..i]) + [(node.loc, masters[i].port)]
                                                    + FarPort(sw, ai)
  {
    assert masters[..i + 1][..i] == masters[..i];
  }

  lemma OneMoreArrow(sw: Switches, ais: seq<int>, ai: int, tiles: seq<Tile>)
    requires 0 <= ai < |sw.arrows| && forall i :: 0 <= i < |ais| ==> 0 <= ais[i] < |sw.arrows|
    ensures Targets(sw, ais + [ai]) == Targets(sw, ais) + (if Lands(sw, ai).Some? then [Lands(sw, ai).value] else [])
    ensures AddNew(tiles, Hits(sw, ais + [ai])) == AddNew(AddNew(tiles, Hits(sw, ais)), Hit(sw, ai))
  {
    assert (ais + [ai])[..|ais|] == ais;
    AddNewTwice(tiles, Hits(sw, ais), Hit(sw, ai));
  }

  // The order of the search ------------------------------------------------------------------

  /** What the given nodes lead to, node by node: everything the search queues after its start. */
  function NextAlong(sw: Switches, order: seq<Node>): seq<Node> {
    if order == [] then [] else NextAlong(sw, order[..|order| - 1]) + Next(sw, order[|order| - 1])
  }

  function ArrowsAlong(sw: Switches, order: seq<Node>): (r: seq<int>)
    ensures forall i :: 0 <= i < |r| ==> 0 <= r[i] < |sw.arrows|
  {
    if order == [] then [] else ArrowsAlong(sw, order[..|order| - 1]) + OutArrows(sw, order[|order| - 1])
  }

  function PortsAlong(sw: Switches, order: seq<Node>): seq<Port> {
    if order == [] then []
    else
      var last := order[|order| - 1];
      PortsAlong(sw, order[..|order| - 1]) + Ports(sw, last, Readers(sw.log, last))
  }

  /** Breadth first: the start and what each expanded node leads to, in turn, without repeats. */
  ghost predicate BreadthFirst(sw: Switches, start: Node, order: seq<Node>) {
    order == AddNew([], [start] + NextAlong(sw, order))
  }

  /** `queued` have been taken from the queue so far; they are expanded in `order`, and `queue` is the rest. */
  ghost predicate InTurn(sw: Switches, start: Node, order: seq<Node>, queued: seq<Node>, queue: seq<Node>) {
    order == AddNew([], queued) && [start] + NextAlong(sw, order) == queued + queue
  }

  lemma TakeTurn(sw: Switches, start: Node, order: seq<Node>, queued: seq<Node>, queue: seq<Node>)
    requires InTurn(sw, start, order, queued, queue) && queue != []
    ensures queue[0] in order ==> InTurn(sw, start, order, queued + [queue[0]], queue[1..])
    ensures queue[0] !in order ==>
              InTurn(sw, start, order + [queue[0]], queued + [queue[0]], queue[1..] + Next(sw, queue[0]))
  {
    var node, before, next := queue[0], NextAlong(sw, order), Next(sw, queue[0]);
    AddNewOne([], queued, node);
    assert (order + [node])[..|order|] == order;
    TakeFirst(start, before, queued, queue, next);
  }

  /** What a flow keeps of a search that expanded `order`. */
  ghost predicate Keeps(sw: Switches, order: seq<Node>, ais: seq<int>, ports: seq<Port>, tiles: seq<Tile>,
                        start: Tile) {
    && ais == ArrowsAlong(sw, order) && ports == PortsAlong(sw, order)
    && tiles == AddNew([start], Hits(sw, ais))
  }

  lemma {:induction false} HitsAppend(sw: Switches, a: seq<int>, b: seq<int>)
    requires forall i :: 0 <= i < |a| ==> 0 <= a[i] < |sw.arrows|
    requires forall i :: 0 <= i < |b| ==> 0 <= b[i] < |sw.arrows|
    ensures Hits(sw, a + b) == Hits(sw, a) + Hits(sw, b)
  {
    if b == [] {
      assert a + b == a;
    } else {
      HitsAppend(sw, a, b[..|b| - 1]);
      assert (a + b)[..|a + b| - 1] == a + b[..|b| - 1];
    }
  }

  lemma KeepsMore(sw: Switches, order: seq<Node>, ais: seq<int>, ports: seq<Port>, tiles: seq<Tile>, start: Tile,
                  node: Node)
    requires Keeps(sw, order, ais, ports, tiles, start)
    ensures var more := OutArrows(sw, node);
            Keeps(sw, order + [node], ais + more, ports + Ports(sw, node, Readers(sw.log, node)),
                  AddNew(tiles, Hits(sw, more)), start)
  {
    var more := OutArrows(sw, node);
    assert (order + [node])[..|order|] == order;
    HitsAppend(sw, ais, more);
    AddNewTwice([start], Hits(sw, ais), Hits(sw, more));
  }

  /** An arrow is recorded exactly when it leaves one of the nodes. */
  lemma {:induction false} AlongExactly(sw: Switches, order: seq<Node>, ai: int)
    ensures ai in ArrowsAlong(sw, order) <==> exists n :: n in order && ai in OutArrows(sw, n)
  {
    if order != [] {
      var n := |order| - 1;
      AlongExactly(sw, order[..n], ai);
      assert order == order[..n] + [order[n]];
    }
  }

  /** Exactly what `start` reaches, breadth first. */
  ghost predicate Searched(sw: Switches, start: Node, order: seq<Node>) {
    BreadthFirst(sw, start, order) && forall n :: n in order <==> Reaches(NextOf(sw), start, n)
  }

  /** All nodes a search from `start` can meet. */
  ghost function Universe(sw: Switches, start: Node): set<Node> {
    Ends(sw, |sw.arrows|) + {start}
  }

  lemma NextInUniverse(sw: Switches, start: Node, node: Node)
    ensures forall n :: n in Next(sw, node) ==> n in Universe(sw, start)
  {
    TargetsAmongEnds(sw, OutArrows(sw, node));
  }

  lemma QueueInUniverse(all: set<Node>, queue: seq<Node>, more: seq<Node>)
    requires (forall n :: n in queue ==> n in all) && (forall n :: n in more ==> n in all) && queue != []
    ensures forall n :: n in queue[1..] + more ==> n in all
  {
  }

  /**
   * The flow of one shim slave: exactly the reachable slaves are expanded, breadth
   * first, and the arrows, ports and tiles of their masters are kept in that order.
   */
  method TraceFlow(sw: Switches, start: Node)
    returns (ais: seq<int>, ports: seq<Port>, tiles: seq<Tile>)
    ensures exists order :: Searched(sw, start, order) && Keeps(sw, order, ais, ports, tiles, start.loc)
  {
    ais, ports, tiles := [], [], [start.loc];
    ghost var order: seq<Node> := [];
    var visited: set<Node> := {};
    var queue := [start];
    ghost var queued: seq<Node> := [];
    ghost var all, step := Universe(sw, start), NextOf(sw);
    SearchStarts(step, {start}, queue);
    while queue != []
      invariant Searching(step, {start}, queue, visited)
      invariant visited <= all && (forall n :: n in queue ==> n in all) && forall n :: n in order <==> n in visited
      invariant InTurn(sw, start, order, queued, queue) && Keeps(sw, order, ais, ports, tiles, start.loc)
      decreases all - visited, |queue|
    {
      var node := queue[0];
      TakeTurn(sw, start, order, queued, queue);
      queued := queued + [node];
      if node in visited {
        SkipStep(step, {start}, queue, visited);
        queue := queue[1..];
      } else {
        assert node in all - visited;
        NextInUniverse(sw, start, node);
        KeepsMore(sw, order, ais, ports, tiles, start.loc, node);
        var more, nodes, shown;
        more, nodes, shown, tiles := Expand(sw, node, Readers(sw.log, node), tiles);
        SearchStep(step, {start}, queue, visited, queue[1..] + nodes);
        QueueInUniverse(all, queue, nodes);
        visited, order := visited + {node}, order + [node];
        ais, ports := ais + more, ports + shown;
        queue := queue[1..] + nodes;
      }
    }
    SearchIsExact(step, {start}, visited);
    forall n
      ensures n in visited <==> Reaches(step, start, n)
    {
      ReachedFromOne(step, start, n);
    }
    assert queued + [] == queued;
    assert Searched(sw, start, order);
  }

  // All flows ------------------------------------------------------------------------------

  /** One logical stream: the shim slave it enters by, and the arrows, ports and tiles it uses. */
  datatype Flow = Flow(start: Node, port: string, arrows: seq<int>, ports: seq<Port>, tiles: seq<Tile>)

  predicate EntersBy(tile: LogTile, s: Slave) {
    tile.loc.row == 0 && s.enabled && DirName(South) <= s.port && s.index.Some?
  }

  function TileEntries(tile: LogTile, slaves: seq<Slave>): seq<(Node, string)> {
    if slaves == [] then []
    else
      var s := slaves[|slaves| - 1];
      TileEntries(tile, slaves[..|slaves| - 1])
      + (if EntersBy(tile, s) then [(Node(tile.loc, s.index.value), s.port)] else [])
  }

  /** The enabled shim SOUTH slaves, in log order. */
  function Entries(log: seq<LogTile>): seq<(Node, string)> {
    if log == [] then []
    else Entries(log[..|log| - 1]) + TileEntries(log[|log| - 1], log[|log| - 1].slaves)
  }

  /** A flow keeps what the breadth-first search of everything its entry reaches finds, in that order. */
  ghost predicate FlowFits(sw: Switches, entry: (Node, string), f: Flow) {
    f.start == entry.0 && f.port == entry.1 && exists order :: FlowAlong(sw, f, order)
  }

  ghost predicate FlowAlong(sw: Switches, f: Flow, order: seq<Node>) {
    && Searched(sw, f.start, order)
    && f.ports != [] && f.ports[0] == (f.start.loc, f.port)
    && Keeps(sw, order, f.arrows, f.ports[1..], f.tiles, f.start.loc)
  }

  ghost predicate FlowsFit(sw: Switches, entries: seq<(Node, string)>, flows: seq<Flow>) {
    InPairs(FitOf(sw), entries, flows)
  }

  ghost function FitOf(sw: Switches): ((Node, string), Flow) -> bool {
    (entry, f) => FlowFits(sw, entry, f)
  }

  lemma FlowsFitAppend(sw: Switches, es: seq<(Node, string)>, flows: seq<Flow>, fs: seq<(Node, string)>,
                       more: seq<Flow>)
    requires FlowsFit(sw, es, flows) && FlowsFit(sw, fs, more)
    ensures FlowsFit(sw, es + fs, flows + more)
  {
    PairsAppend(FitOf(sw), es, flows, fs, more);
  }

  lemma OneFlowFits(sw: Switches, entry: (Node, string), f: Flow)
    requires FlowFits(sw, entry, f)
    ensures FlowsFit(sw, [entry], [f])
  {
  }

  method TraceEntry(sw: Switches, start: Node, port: string) returns (f: Flow)
    ensures FlowFits(sw, (start, port), f)
  {
    var ais, ports, tiles := TraceFlow(sw, start);
    ghost var order :| Searched(sw, start, order) && Keeps(sw, order, ais, ports, tiles, start.loc);
    f := Flow(start, port, ais, [(start.loc, port)] + ports, tiles);
    assert f.ports[1..] == ports;
    assert FlowAlong(sw, f, order);
  }

  method TraceTile(sw: Switches, tile: LogTile) returns (flows: seq<Flow>)
    ensures FlowsFit(sw, TileEntries(tile, tile.slaves), flows)
  {
    flows := [];
    for i := 0 to |tile.slaves|
      invariant FlowsFit(sw, TileEntries(tile, tile.slaves[..i]), flows)
    {
      assert tile.slaves[..i + 1][..i] == tile.slaves[..i];
      var s := tile.slaves[i];
      if EntersBy(tile, s) {
        var start := Node(tile.loc, s.index.value);
        var f := TraceEntry(sw, start, s.port);
        OneFlowFits(sw, (start, s.port), f);
        FlowsFitAppend(sw, TileEntries(tile, tile.slaves[..i]), flows, [(start, s.port)], [f]);
        flows := flows + [f];
      }
    }
    assert tile.slaves[..|tile.slaves|] == tile.slaves;
  }

  /** One flow per enabled shim SOUTH slave, in log order; none at all for a log without tiles or arrows. */
  method TraceShimFlows(sw: Switches) returns (flows: seq<Flow>)
    ensures sw.log == [] || sw.arrows == [] ==> flows == []
    ensures sw.log != [] && sw.arrows != [] ==> FlowsFit(sw, Entries(sw.log), flows)
  {
    flows := [];
    if sw.log == [] || sw.arrows == [] {
      return;
    }
    for i := 0 to |sw.log|
      invariant FlowsFit(sw, Entries(sw.log[..i]), flows)
    {
      assert sw.log[..i + 1][..i] == sw.log[..i];
      var more := TraceTile(sw, sw.log[i]);
      FlowsFitAppend(sw, Entries(sw.log[..i]), flows, TileEntries(sw.log[i], sw.log[i].slaves), more);
      flows := flows + more;
    }
    assert sw.log[..|sw.log|] == sw.log;
  }

  // The arrows of the log ----------------------------------------------------------------------

  lemma {:induction false} TileSendersExactly(loc: Tile, masters: seq<Master>, s: Sender)
    ensures s in TileSenders(loc, masters) <==> s.loc == loc && s.master in masters && HasArrow(s.master)
  {
    if masters != [] {
      var n := |masters| - 1;
      TileSendersExactly(loc, masters[..n], s);
      assert masters == masters[..n] + [masters[n]];
    }
  }

  lemma {:induction false} SendersExactly(log: seq<LogTile>, s: Sender)
    ensures s in Senders(log) <==>
            exists i :: 0 <= i < |log| && log[i].loc == s.loc && s.master in log[i].masters && HasArrow(s.master)
  {
    if log != [] {
      var n := |log| - 1;
      SendersExactly(log[..n], s);
      TileSendersExactly(log[n].loc, log[n].masters, s);
      if i :| 0 <= i < n && log[..n][i].loc == s.loc && s.master in log[..n][i].masters && HasArrow(s.master) {
        assert log[i] == log[..n][i];
      }
      if i :| 0 <= i < |log| && log[i].loc == s.loc && s.master in log[i].masters && HasArrow(s.master) {
        if i < n {
          assert log[..n][i] == log[i];
        }
      }
    }
  }

  /** Every enabled directional master that reads a slave has an arrow to the nearest logged tile, and it
      leaves that slave. */
  lemma ReaderHasArrow(sw: Switches, node: Node, i: int, m: Master) returns (ai: int)
    requires ArrowsFit(Logged(sw.log), Senders(sw.log), sw.arrows)
    requires Reads(sw.log, i, m, node) && HasArrow(m)
    ensures 0 <= ai < |sw.arrows| && ai in OutArrows(sw, node)
    ensures ArrowFits(Logged(sw.log), node.loc, m, sw.arrows[ai])
  {
    var senders := Senders(sw.log);
    SendersExactly(sw.log, Sender(node.loc, m));
    var k :| 0 <= k < |senders| && senders[k] == Sender(node.loc, m);
    assert ArrowFits(Logged(sw.log), node.loc, m, sw.arrows[k]);
    assert ArrowFrom(sw.arrows, k, node.loc, m.port);
    ai := ArrowOf(sw.arrows, node.loc, m.port).value;
    assert ArrowFits(Logged(sw.log), senders[ai].loc, senders[ai].master, sw.arrows[ai]);
    SameFit(Logged(sw.log), node.loc, senders[ai].loc, senders[ai].master, m, sw.arrows[ai]);
    OutArrowsExactly(sw, node, ai);
  }

  /** Masters of one tile with the same port name call for the same arrow. */
  lemma SameFit(tiles: set<Tile>, loc: Tile, loc': Tile, m: Master, m': Master, a: Arrow)
    requires ArrowFits(tiles, loc', m, a) && a.from == loc && a.port == m'.port
    ensures ArrowFits(tiles, loc, m', a)
  {
  }

  /** The arrow made for master `k` leaves the slave it reads exactly when no later arrow has its tile and port. */
  lemma ArrowLeavesExactly(sw: Switches, k: int, index: int)
    requires ArrowsFit(Logged(sw.log), Senders(sw.log), sw.arrows) && 0 <= k < |sw.arrows|
    requires Senders(sw.log)[k].master.source == Some(index)
    ensures var a := sw.arrows[k];
            k in OutArrows(sw, Node(a.from, index)) <==>
            forall j :: k < j < |sw.arrows| ==> !ArrowFrom(sw.arrows, j, a.from, a.port)
  {
    var s, a := Senders(sw.log)[k], sw.arrows[k];
    assert ArrowFits(Logged(sw.log), s.loc, s.master, a);
    SendersExactly(sw.log, s);
    var i :| 0 <= i < |sw.log| && sw.log[i].loc == s.loc && s.master in sw.log[i].masters && HasArrow(s.master);
    assert Reads(sw.log, i, s.master, Node(a.from, index));
    OutArrowsExactly(sw, Node(a.from, index), k);
  }

  /** Two arrows share a tile and a port: the tile is logged twice, or repeats a master name. */
  ghost predicate SharedArrow(arrows: seq<Arrow>, k: int) {
    exists j :: 0 <= k < j < |arrows| && ArrowFrom(arrows, j, arrows[k].from, arrows[k].port)
  }

  /** Every arrow whose master names a slave leaves that slave exactly when no such arrow is shadowed by a later one. */
  lemma AllArrowsLeaveExactly(sw: Switches)
    requires ArrowsFit(Logged(sw.log), Senders(sw.log), sw.arrows)
    ensures (forall k :: 0 <= k < |sw.arrows| ==> LeavesItsSlave(sw, k))
            <==> (forall k :: 0 <= k < |sw.arrows| && Senders(sw.log)[k].master.source.Some? ==>
                  !SharedArrow(sw.arrows, k))
  {
    forall k | 0 <= k < |sw.arrows|
      ensures LeavesItsSlave(sw, k) <==> (Senders(sw.log)[k].master.source.Some? ==> !SharedArrow(sw.arrows, k))
    {
      if Senders(sw.log)[k].master.source.Some? {
        ArrowLeavesExactly(sw, k, Senders(sw.log)[k].master.source.value);
      }
    }
  }

  ghost predicate LeavesItsSlave(sw: Switches, k: int)
    requires 0 <= k < |sw.arrows| == |Senders(sw.log)|
  {
    var source := Senders(sw.log)[k].master.source;
    source.Some? ==> k in OutArrows(sw, Node(sw.arrows[k].from, source.value))
  }

  /** A tile that is logged twice: its first arrow leaves no slave, although its master reads one. */
  lemma LoggedTwiceHidesArrow(sw: Switches, loc: Tile, m: Master)
    requires sw.log == [LogTile(loc, [m], []), LogTile(loc, [m], [])] && m == Master("EAST0", true, Some(0))
    requires ArrowsFit(Logged(sw.log), Senders(sw.log), sw.arrows)
    ensures |sw.arrows| == 2 && Reads(sw.log, 0, m, Node(loc, 0)) && 0 !in OutArrows(sw, Node(loc, 0))
  {
    DirOfName(East, "0");
    assert HasArrow(m);
    assert [m][..0] == [] && sw.log[..1][..0] == [];
    assert TileSenders(loc, [m]) == [Sender(loc, m)];
    assert Senders(sw.log[..1]) == [Sender(loc, m)];
    assert Senders(sw.log) == [Sender(loc, m), Sender(loc, m)];
    assert ArrowFits(Logged(sw.log), loc, m, sw.arrows[0]) && ArrowFits(Logged(sw.log), loc, m, sw.arrows[1]);
    assert ArrowFrom(sw.arrows, 1, loc, m.port);
    ArrowLeavesExactly(sw, 0, 0);
  }

  /** The flows of a log and its own arrows. */
  method TraceLog(log: seq<LogTile>) returns (arrows: seq<Arrow>, flows: seq<Flow>)
    ensures ArrowsFit(Logged(log), Senders(log), arrows)
    ensures arrows == [] ==> flows == []
    ensures arrows != [] ==> FlowsFit(Switches(log, arrows), Entries(log), flows)
  {
    arrows := BuildArrows(log);
    flows := TraceShimFlows(Switches(log, arrows));
  }

  /** A flow has an arrow exactly when it leaves a slave that its entry reaches. */
  lemma FlowArrowsExactly(sw: Switches, entry: (Node, string), f: Flow, ai: int)
    requires FlowFits(sw, entry, f)
    ensures ai in f.arrows <==> exists n :: Reaches(NextOf(sw), f.start, n) && ai in OutArrows(sw, n)
  {
    var order :| FlowAlong(sw, f, order);
    AlongExactly(sw, order, ai);
  }

  /** On a flow of a log, every enabled directional master that reads a reached slave has its arrow among the flow's. */
  lemma FlowHasItsArrows(sw: Switches, entry: (Node, string), f: Flow, node: Node, i: int, m: Master) returns (ai: int)
    requires ArrowsFit(Logged(sw.log), Senders(sw.log), sw.arrows) && FlowFits(sw, entry, f)
    requires Reaches(NextOf(sw), f.start, node) && Reads(sw.log, i, m, node) && HasArrow(m)
    ensures ai in f.arrows && 0 <= ai < |sw.arrows| && ArrowFits(Logged(sw.log), node.loc, m, sw.arrows[ai])
  {
    ai := ReaderHasArrow(sw, node, i, m);
    FlowArrowsExactly(sw, entry, f, ai);
  }

  predicate ArrivesAt(sw: Switches, ai: int, t: Tile) {
    0 <= ai < |sw.arrows| && !sw.arrows[ai].dangling && sw.arrows[ai].to == t
  }

  /** Its tiles are the shim tile and the tiles its arrows point at, each once. */
  lemma FlowTilesExactly(sw: Switches, entry: (Node, string), f: Flow, t: Tile)
    requires FlowFits(sw, entry, f)
    ensures Distinct(f.tiles)
    ensures t in f.tiles <==> t == f.start.loc || exists ai :: ai in f.arrows && ArrivesAt(sw, ai, t)
  {
    var order :| FlowAlong(sw, f, order);
    AddNewDistinct([f.start.loc], Hits(sw, f.arrows));
    AddNewHas([f.start.loc], Hits(sw, f.arrows), t);
    HitsExactly(sw, f.arrows, t);
  }

  lemma {:induction false} HitsExactly(sw: Switches, ais: seq<int>, t: Tile)
    requires forall i :: 0 <= i < |ais| ==> 0 <= ais[i] < |sw.arrows|
    ensures t in Hits(sw, ais) <==> exists ai :: ai in ais && ArrivesAt(sw, ai, t)
  {
    if ais != [] {
      var init, last := ais[..|ais| - 1], ais[|ais| - 1];
      HitsExactly(sw, init, t);
      assert ais == init + [last];
      assert t in Hit(sw, last) <==> ArrivesAt(sw, last, t);
    }
  }

  // Where flows start ------------------------------------------------------------------------

  /** Slave `s` of the log entry `tile` starts a flow at `n` by `port`. */
  predicate StartsAt(tile: LogTile, s: Slave, n: Node, port: string) {
    && tile.loc == n.loc && n.loc.row == 0
    && s == Slave(port, true, Some(n.index)) && "SOUTH" <= port
  }

  ghost predicate StartIn(log: seq<LogTile>, i: int, n: Node, port: string) {
    0 <= i < |log| && exists s :: s in log[i].slaves && StartsAt(log[i], s, n, port)
  }

  lemma EntersByExactly(tile: LogTile, s: Slave, n: Node, port: string)
    ensures EntersBy(tile, s) && (Node(tile.loc, s.index.value), s.port) == (n, port) <==> StartsAt(tile, s, n, port)
  {
  }

  lemma {:induction false} TileEntriesExactly(tile: LogTile, slaves: seq<Slave>, n: Node, port: string)
    ensures (n, port) in TileEntries(tile, slaves) <==> exists s :: s in slaves && StartsAt(tile, s, n, port)
  {
    if slaves != [] {
      var k := |slaves| - 1;
      TileEntriesExactly(tile, slaves[..k], n, port);
      EntersByExactly(tile, slaves[k], n, port);
      assert slaves == slaves[..k] + [slaves[k]];
    }
  }

  /** Flows start at the enabled and indexed slaves of row 0 whose port begins with SOUTH, and nowhere else. */
  lemma {:induction false} EntriesExactly(log: seq<LogTile>, n: Node, port: string)
    ensures (n, port) in Entries(log) <==> exists i :: StartIn(log, i, n, port)
  {
    if log != [] {
      var k := |log| - 1;
      EntriesExactly(log[..k], n, port);
      TileEntriesExactly(log[k], log[k].slaves, n, port);
      assert log == log[..k] + [log[k]];
      if i :| StartIn(log, i, n, port) && i < k {
        assert StartIn(log[..k], i, n, port);
      }
      if i :| StartIn(log[..k], i, n, port) {
        assert StartIn(log, i, n, port);
      }
      if (n, port) in TileEntries(log[k], log[k].slaves) {
        assert StartIn(log, k, n, port);
      }
    }
  }

  // What a flow shows ---------------------------------------------------------------------------

  /** Log entry `i` of the tile has a slave with that index and port, enabled or not. */
  ghost predicate HasSlave(log: seq<LogTile>, loc: Tile, i: int, index: int, port: string) {
    && 0 <= i < |log| && log[i].loc == loc
    && exists s :: s in log[i].slaves && s.index == Some(index) && s.port == port
  }

  lemma {:induction false} IndexedExactly(slaves: seq<Slave>, index: int, port: string)
    ensures (index, port) in Indexed(slaves) <==> exists s :: s in slaves && s.index == Some(index) && s.port == port
  {
    if slaves != [] {
      var n := |slaves| - 1;
      IndexedExactly(slaves[..n], index, port);
      assert slaves == slaves[..n] + [slaves[n]];
    }
  }

  /** The slave dictionary of a tile is made from all its slaves that have an index, enabled or not. */
  lemma {:induction false} SlaveEntriesExactly(log: seq<LogTile>, loc: Tile, index: int, port: string)
    ensures (index, port) in SlaveEntries(log, loc) <==> exists i :: HasSlave(log, loc, i, index, port)
  {
    if log != [] {
      var n := |log| - 1;
      SlaveEntriesExactly(log[..n], loc, index, port);
      IndexedExactly(log[n].slaves, index, port);
      if i :| HasSlave(log[..n], loc, i, index, port) {
        assert HasSlave(log, loc, i, index, port);
      }
      if i :| HasSlave(log, loc, i, index, port) && i < n {
        assert HasSlave(log[..n], loc, i, index, port);
      }
      if log[n].loc == loc && (index, port) in Indexed(log[n].slaves) {
        assert HasSlave(log, loc, n, index, port);
      }
    }
  }
}
