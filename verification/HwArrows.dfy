/** Inter-tile arrows of a hardware log: each enabled directional master points at the nearest logged tile. */
module HwArrows {
  import opened Basics
  import opened Tiles
  import opened HwPorts

  /** `source` is the slave index in the master's `config` field, if that field is present and is a number. */
  datatype Master = Master(port: string, enabled: bool, source: Option<int>)

  /** A slave entry; `index` may be missing. */
  datatype Slave = Slave(port: string, enabled: bool, index: Option<int>)

  datatype LogTile = LogTile(loc: Tile, masters: seq<Master>, slaves: seq<Slave>)

  datatype Arrow = Arrow(from: Tile, to: Tile, port: string, slavePort: string, dangling: bool)

  // The scan -------------------------------------------------------------------------

  function Logged(log: seq<LogTile>): (r: set<Tile>)
    ensures forall t :: t in r <==> exists i :: 0 <= i < |log| && log[i].loc == t
  {
    set i | 0 <= i < |log| :: log[i].loc
  }

  /** `t` is the first logged tile beyond `from` in direction `d`, `n` steps away. */
  ghost predicate NearestAt(tiles: set<Tile>, from: Tile, d: Dir, n: int) {
    n >= 1 && Step(from, d, n) in tiles && forall m :: 1 <= m < n ==> Step(from, d, m) !in tiles
  }

  ghost predicate NothingBeyond(tiles: set<Tile>, from: Tile, d: Dir) {
    forall n :: n >= 1 ==> Step(from, d, n) !in tiles
  }

  /** Scan at most `span` steps, as the tool does. */
  method Scan(tiles: set<Tile>, from: Tile, d: Dir, span: nat) returns (hit: Option<Tile>)
    ensures hit.Some? ==> exists n :: NearestAt(tiles, from, d, n) && n <= span && hit.value == Step(from, d, n)
    ensures hit.None? ==> forall n :: 1 <= n <= span ==> Step(from, d, n) !in tiles
  {
    var n := 1;
    while n <= span
      invariant 1 <= n <= span + 1
      invariant forall m :: 1 <= m < n ==> Step(from, d, m) !in tiles
    {
      if Step(from, d, n) in tiles {
        assert NearestAt(tiles, from, d, n);
        return Some(Step(from, d, n));
      }
      n := n + 1;
    }
    hit := None;
  }

  // The scan limit ---------------------------------------------------------------------

  function Max(a: int, b: int): int { if a >= b then a else b }

  function MaxOf(xs: seq<int>): (r: int)
    requires xs != []
    ensures r in xs && forall x :: x in xs ==> x <= r
  {
    if |xs| == 1 then xs[0]
    else
      assert xs == [xs[0]] + xs[1..];
      Max(xs[0], MaxOf(xs[1..]))
  }

  function MinOf(xs: seq<int>): (r: int)
    requires xs != []
    ensures r in xs && forall x :: x in xs ==> r <= x
  {
    if |xs| == 1 then xs[0]
    else
      assert xs == [xs[0]] + xs[1..];
      var r := MinOf(xs[1..]);
      if xs[0] <= r then xs[0] else r
  }

  function Cols(log: seq<LogTile>): (r: seq<int>)
    ensures |r| == |log| && forall i :: 0 <= i < |log| ==> r[i] == log[i].loc.col
  {
    seq(|log|, i requires 0 <= i < |log| => log[i].loc.col)
  }

  function Rows(log: seq<LogTile>): (r: seq<int>)
    ensures |r| == |log| && forall i :: 0 <= i < |log| ==> r[i] == log[i].loc.row
  {
    seq(|log|, i requires 0 <= i < |log| => log[i].loc.row)
  }

  /** The larger side of the bounding box, at least 1. */
  function MaxSpan(log: seq<LogTile>): nat
    requires log != []
  {
    Max(Max(MaxOf(Cols(log)) - MinOf(Cols(log)), MaxOf(Rows(log)) - MinOf(Rows(log))), 1)
  }

  /** No logged tile is further than the limit from another one along a row or a column. */
  lemma SpanReachesAll(log: seq<LogTile>, i: nat, d: Dir, n: int)
    requires i < |log| && n >= 1 && Step(log[i].loc, d, n) in Logged(log)
    ensures n <= MaxSpan(log)
  {
    var j :| 0 <= j < |log| && log[j].loc == Step(log[i].loc, d, n);
    assert Cols(log)[i] in Cols(log) && Cols(log)[j] in Cols(log);
    assert Rows(log)[i] in Rows(log) && Rows(log)[j] in Rows(log);
  }

  // The arrows ---------------------------------------------------------------------------

  /** What the arrow of a master must be: towards the nearest logged tile, or dangling if there is none. */
  ghost predicate ArrowFits(tiles: set<Tile>, from: Tile, m: Master, a: Arrow) {
    && DirOf(m.port).Some?
    && var d := DirOf(m.port).value;
       && a.from == from && a.port == m.port && a.slavePort == SlaveName(d, PortNum(m.port))
       && (if a.dangling then NothingBeyond(tiles, from, d) && a.to == Step(from, d, 1)
           else exists n :: NearestAt(tiles, from, d, n) && a.to == Step(from, d, n))
  }

  predicate HasArrow(m: Master) {
    m.enabled && DirOf(m.port).Some?
  }

  method ArrowFor(log: seq<LogTile>, i: nat, m: Master, tiles: set<Tile>, span: nat) returns (a: Arrow)
    requires i < |log| && HasArrow(m) && tiles == Logged(log) && span == MaxSpan(log)
    ensures ArrowFits(tiles, log[i].loc, m, a)
  {
    var from, d := log[i].loc, DirOf(m.port).value;
    var hit := Scan(tiles, from, d, span);
    if hit.None? {
      forall n | n >= 1
        ensures Step(from, d, n) !in tiles
      {
        if Step(from, d, n) in tiles {
          SpanReachesAll(log, i, d, n);
        }
      }
      a := Arrow(from, Step(from, d, 1), m.port, SlaveName(d, PortNum(m.port)), true);
    } else {
      a := Arrow(from, hit.value, m.port, SlaveName(d, PortNum(m.port)), false);
    }
  }

  /** There is only one arrow a master can have. */
  lemma ArrowIsUnique(tiles: set<Tile>, from: Tile, m: Master, a: Arrow, b: Arrow)
    requires ArrowFits(tiles, from, m, a) && ArrowFits(tiles, from, m, b)
    ensures a == b
  {
    var d := DirOf(m.port).value;
    if !a.dangling && !b.dangling {
      var n :| NearestAt(tiles, from, d, n) && a.to == Step(from, d, n);
      var k :| NearestAt(tiles, from, d, k) && b.to == Step(from, d, k);
      assert n == k;
    }
  }

  datatype Sender = Sender(loc: Tile, master: Master)

  function TileSenders(loc: Tile, masters: seq<Master>): seq<Sender> {
    if masters == [] then []
    else
      var last := masters[|masters| - 1];
      TileSenders(loc, masters[..|masters| - 1]) + (if HasArrow(last) then [Sender(loc, last)] else [])
  }

  /** The masters that get an arrow, tile by tile, in log order. */
  function Senders(log: seq<LogTile>): seq<Sender> {
    if log == [] then []
    else Senders(log[..|log| - 1]) + TileSenders(log[|log| - 1].loc, log[|log| - 1].masters)
  }

  /** One fitting arrow for each sender. */
  ghost predicate ArrowsFit(tiles: set<Tile>, senders: seq<Sender>, arrows: seq<Arrow>) {
    && |arrows| == |senders|
    && forall k :: 0 <= k < |arrows| ==> ArrowFits(tiles, senders[k].loc, senders[k].master, arrows[k])
  }

  lemma ArrowsFitAppend(tiles: set<Tile>, ss: seq<Sender>, arrows: seq<Arrow>, ts: seq<Sender>, more: seq<Arrow>)
    requires ArrowsFit(tiles, ss, arrows) && ArrowsFit(tiles, ts, more)
    ensures ArrowsFit(tiles, ss + ts, arrows + more)
  {
    var all, senders := arrows + more, ss + ts;
    forall k | 0 <= k < |all|
      ensures ArrowFits(tiles, senders[k].loc, senders[k].master, all[k])
    {
      if k < |arrows| {
        assert all[k] == arrows[k] && senders[k] == ss[k];
      } else {
        assert all[k] == more[k - |arrows|] && senders[k] == ts[k - |arrows|];
      }
    }
  }

  method ArrowsOfTile(log: seq<LogTile>, i: nat, tiles: set<Tile>, span: nat) returns (arrows: seq<Arrow>)
    requires i < |log| && tiles == Logged(log) && span == MaxSpan(log)
    ensures ArrowsFit(tiles, TileSenders(log[i].loc, log[i].masters), arrows)
  {
    arrows := [];
    var masters := log[i].masters;
    for k := 0 to |masters|
      invariant ArrowsFit(tiles, TileSenders(log[i].loc, masters[..k]), arrows)
    {
      assert masters[..k + 1][..k] == masters[..k];
      if masters[k].enabled && DirOf(masters[k].port).Some? {
        var a := ArrowFor(log, i, masters[k], tiles, span);
        arrows := arrows + [a];
      }
    }
    assert masters[..|masters|] == masters;
  }

  /** One arrow for every enabled directional master, in log order, each to the nearest logged tile. */
  method BuildArrows(log: seq<LogTile>) returns (arrows: seq<Arrow>)
    ensures ArrowsFit(Logged(log), Senders(log), arrows)
  {
    arrows := [];
    if log == [] {
      return;
    }
    var tiles, span := Logged(log), MaxSpan(log);
    for i := 0 to |log|
      invariant ArrowsFit(tiles, Senders(log[..i]), arrows)
    {
      assert log[..i + 1][..i] == log[..i];
      var more := ArrowsOfTile(log, i, tiles, span);
      ArrowsFitAppend(tiles, Senders(log[..i]), arrows, TileSenders(log[i].loc, log[i].masters), more);
      arrows := arrows + more;
    }
    assert log[..|log|] == log;
  }

  // Arrows in both directions --------------------------------------------------------------

  /** Nearest is mutual: looking back from the nearest tile, the first logged tile is where one started. */
  lemma NearestIsMutual(tiles: set<Tile>, from: Tile, d: Dir, n: int)
    requires NearestAt(tiles, from, d, n) && from in tiles
    ensures NearestAt(tiles, Step(from, d, n), Opposite(d), n) && Step(Step(from, d, n), Opposite(d), n) == from
  {
    var to := Step(from, d, n);
    StepBack(from, d, n, Opposite(d));
    forall m | 1 <= m < n
      ensures Step(to, Opposite(d), m) !in tiles
    {
      StepBack(Step(from, d, n - m), d, m, Opposite(d));
      StepsAdd(from, d, n - m, m);
    }
  }

  /**
   * The slave port an arrow ends at faces the tile it comes from: a master of that name
   * there has an arrow straight back, to a slave port in the first one's direction.
   */
  lemma ArrowsFaceEachOther(tiles: set<Tile>, from: Tile, m: Master, a: Arrow, back: Master, b: Arrow)
    requires from in tiles && ArrowFits(tiles, from, m, a) && !a.dangling
    requires back.port == a.slavePort && ArrowFits(tiles, a.to, back, b)
    ensures !b.dangling && b.to == from
    ensures DirOf(b.slavePort) == DirOf(m.port) && PortNum(b.slavePort) == PortNum(m.port)
  {
    var d, num := DirOf(m.port).value, PortNum(m.port);
    var n :| NearestAt(tiles, from, d, n) && a.to == Step(from, d, n);
    NearestIsMutual(tiles, from, d, n);
    StepBack(from, d, n, Opposite(d));
    SlaveNameReadsBack(d, num);
    SlaveNameReadsBack(Opposite(d), num);
    if !b.dangling {
      var k :| NearestAt(tiles, a.to, Opposite(d), k) && b.to == Step(a.to, Opposite(d), k);
      assert n == k;
    }
  }

  /** A west master at (3,4) with logged tiles at (1,4) and (4,4) points at (1,4). */
  lemma WestArrow(tiles: set<Tile>, m: Master, a: Arrow)
    requires forall t :: t in tiles <==> t == Tile(1, 4) || t == Tile(3, 4) || t == Tile(4, 4)
    requires DirOf(m.port) == Some(West) && ArrowFits(tiles, Tile(3, 4), m, a)
    ensures a.from == Tile(3, 4) && a.to == Tile(1, 4) && !a.dangling
  {
    assert NearestAt(tiles, Tile(3, 4), West, 2);
  }

  /** Without a logged tile ahead the arrow is a stub to the neighbour: one step back is where it comes from. */
  lemma StubIsNeighbour(tiles: set<Tile>, from: Tile, m: Master, a: Arrow)
    requires ArrowFits(tiles, from, m, a)
    ensures var d := DirOf(m.port).value;
            a.dangling ==> a.to !in tiles && a.to != from && Step(a.to, Opposite(d), 1) == from
  {
    var d := DirOf(m.port).value;
    StepBack(from, d, 1, Opposite(d));
  }
}
