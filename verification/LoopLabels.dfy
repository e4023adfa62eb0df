/**
 * When a "loop" label is printed at all. The tool prints it when the next slave port
 * was already visited by any branch of the same first hop.
 */
module LoopLabels {
  import opened Basics
  import opened Reach
  import opened SetFacts
  import opened SwitchGraph
  import opened TracePaths
  import opened TraceSources

  predicate EndsInLoop(p: Path) {
    |p| > 0 && p[|p| - 1].Leaf? && p[|p| - 1].why == Loop
  }

  predicate NoLabel(paths: seq<Path>) {
    forall i :: 0 <= i < |paths| ==> !EndsInLoop(paths[i])
  }

  ghost function LoopEnds(paths: seq<Path>): nat {
    if paths == [] then 0 else (if EndsInLoop(paths[0]) then 1 else 0) + LoopEnds(paths[1..])
  }

  lemma {:induction false} LoopEndsAppend(ps: seq<Path>, qs: seq<Path>)
    ensures LoopEnds(ps + qs) == LoopEnds(ps) + LoopEnds(qs)
  {
    if ps == [] {
      assert ps + qs == qs;
    } else {
      LoopEndsAppend(ps[1..], qs);
      assert (ps + qs)[1..] == ps[1..] + qs;
    }
  }

  lemma {:induction false} LoopEndsPrefixed(step: PathStep, paths: seq<Path>)
    requires forall i :: 0 <= i < |paths| ==> paths[i] != []
    ensures LoopEnds(Prefixed(step, paths)) == LoopEnds(paths)
  {
    if paths != [] {
      var all := Prefixed(step, paths);
      assert all[1..] == Prefixed(step, paths[1..]);
      assert all[0][|all[0]| - 1] == paths[0][|paths[0]| - 1];
      LoopEndsPrefixed(step, paths[1..]);
    }
  }

  lemma {:induction false} NoLoopEnds(paths: seq<Path>)
    ensures LoopEnds(paths) == 0 <==> NoLabel(paths)
  {
    if paths != [] {
      NoLoopEnds(paths[1..]);
      assert forall i :: 0 <= i < |paths| - 1 ==> paths[1..][i] == paths[i + 1];
      assert forall i :: 0 < i < |paths| ==> paths[i] == paths[1..][i - 1];
    }
  }

  lemma PathsNotEmpty(adj: Adj, hop: Hop, visited: set<Key>)
    ensures forall i :: 0 <= i < |Follow(adj, hop, visited).paths| ==> Follow(adj, hop, visited).paths[i] != []
  {
    FollowIsWalk(adj, hop, visited);
  }

  lemma LoopEndsOfEach(adj: Adj, k: Key, hops: seq<Hop>, visited: set<Key>)
    requires hops != []
    ensures var first := Follow(adj, hops[0], visited);
            LoopEnds(FollowEach(adj, k, hops, visited).paths)
            == LoopEnds(first.paths) + LoopEnds(FollowEach(adj, k, hops[1..], first.visited).paths)
  {
    var first := Follow(adj, hops[0], visited);
    var rest := FollowEach(adj, k, hops[1..], first.visited);
    PathsNotEmpty(adj, hops[0], visited);
    LoopEndsPrefixed(Pass(k, hops[0]), first.paths);
    LoopEndsAppend(Prefixed(Pass(k, hops[0]), first.paths), rest.paths);
  }

  // Crossings ------------------------------------------------------------------------------

  /** Hop number `index` out of slave port `from`. */
  datatype Crossing = Crossing(from: Key, index: nat)

  /** It crosses to another tile. */
  predicate IsCrossing(adj: Adj, c: Crossing) {
    c.index < |Out(adj, c.from)| && NextKey(Out(adj, c.from)[c.index]).Some?
  }

  function Target(adj: Adj, c: Crossing): Key {
    if IsCrossing(adj, c) then NextKey(Out(adj, c.from)[c.index]).value else c.from
  }

  /** The crossings out of `k` from hop `n` on. */
  function CrossingsAt(adj: Adj, k: Key, n: nat): (r: set<Crossing>)
    ensures forall c :: c in r <==> IsCrossing(adj, c) && c.from == k && n <= c.index
  {
    set i | n <= i < |Out(adj, k)| && IsCrossing(adj, Crossing(k, i)) :: Crossing(k, i)
  }

  function CrossingsOf(adj: Adj, ks: set<Key>): (r: set<Crossing>)
    ensures forall c :: c in r <==> IsCrossing(adj, c) && c.from in ks
  {
    set k, i | k in ks && 0 <= i < |Out(adj, k)| && IsCrossing(adj, Crossing(k, i)) :: Crossing(k, i)
  }

  lemma NextCrossing(adj: Adj, k: Key, n: nat)
    requires n < |Out(adj, k)|
    ensures |CrossingsAt(adj, k, n)| == One(NextKey(Out(adj, k)[n]).Some?) + |CrossingsAt(adj, k, n + 1)|
  {
    if NextKey(Out(adj, k)[n]).Some? {
      assert CrossingsAt(adj, k, n) == {Crossing(k, n)} + CrossingsAt(adj, k, n + 1);
    } else {
      assert CrossingsAt(adj, k, n) == CrossingsAt(adj, k, n + 1);
    }
  }

  lemma CrossingsSplit(adj: Adj, a: set<Key>, b: set<Key>)
    requires a !! b
    ensures |CrossingsOf(adj, a + b)| == |CrossingsOf(adj, a)| + |CrossingsOf(adj, b)|
  {
    assert CrossingsOf(adj, a + b) == CrossingsOf(adj, a) + CrossingsOf(adj, b);
  }

  lemma MorePorts(adj: Adj, a: set<Key>, b: set<Key>, c: set<Key>)
    requires a <= b <= c
    ensures |c - a| == |c - b| + |b - a|
    ensures |CrossingsOf(adj, c - a)| == |CrossingsOf(adj, c - b)| + |CrossingsOf(adj, b - a)|
  {
    assert c - a == (c - b) + (b - a);
    CrossingsSplit(adj, c - b, b - a);
  }

  lemma OnePortMore(adj: Adj, k: Key, a: set<Key>, c: set<Key>)
    requires k !in a && a + {k} <= c
    ensures |c - a| == |c - (a + {k})| + 1
    ensures |CrossingsOf(adj, c - a)| == |CrossingsOf(adj, c - (a + {k}))| + |CrossingsAt(adj, k, 0)|
  {
    assert a + {k} - a == {k} && CrossingsOf(adj, {k}) == CrossingsAt(adj, k, 0);
    MorePorts(adj, a, a + {k}, c);
  }

  // How many labels ------------------------------------------------------------------------

  /** Every crossing out of a port entered either enters a new slave port or ends a path in a loop label. */
  lemma {:induction false} LoopsCount(adj: Adj, hop: Hop, visited: set<Key>)
    ensures var r := Follow(adj, hop, visited);
            LoopEnds(r.paths) + |r.visited - visited|
            == One(NextKey(hop).Some?) + |CrossingsOf(adj, r.visited - visited)|
    decreases adj.Keys - visited, 1, 0
  {
    var r := Follow(adj, hop, visited);
    if NextKey(hop).Some? && NextKey(hop).value !in visited {
      var k := NextKey(hop).value;
      if Out(adj, k) == [] {
        OnePortMore(adj, k, visited, r.visited);
        assert CrossingsAt(adj, k, 0) == {} && CrossingsOf(adj, {}) == {};
        assert r.visited - (visited + {k}) == {};
      } else {
        assert k in adj.Keys - visited && k !in adj.Keys - (visited + {k});
        assert Out(adj, k)[0..] == Out(adj, k);
        LoopsCountEach(adj, k, 0, visited + {k});
        OnePortMore(adj, k, visited, r.visited);
      }
    } else {
      assert r.visited - visited == {};
      assert CrossingsOf(adj, {}) == {};
    }
  }

  lemma {:induction false} LoopsCountEach(adj: Adj, k: Key, n: nat, visited: set<Key>)
    requires n <= |Out(adj, k)|
    ensures var r := FollowEach(adj, k, Out(adj, k)[n..], visited);
            LoopEnds(r.paths) + |r.visited - visited|
            == |CrossingsAt(adj, k, n)| + |CrossingsOf(adj, r.visited - visited)|
    decreases adj.Keys - visited, 2, |Out(adj, k)| - n
  {
    var hops := Out(adj, k)[n..];
    if hops == [] {
      assert visited - visited == {};
      assert CrossingsAt(adj, k, n) == {} && CrossingsOf(adj, {}) == {};
    } else {
      assert hops[1..] == Out(adj, k)[n + 1..];
      var first := Follow(adj, hops[0], visited);
      assert adj.Keys - first.visited <= adj.Keys - visited;
      var rest := FollowEach(adj, k, hops[1..], first.visited);
      LoopsCount(adj, hops[0], visited);
      LoopsCountEach(adj, k, n + 1, first.visited);
      LoopEndsOfEach(adj, k, hops, visited);
      NextCrossing(adj, k, n);
      MorePorts(adj, visited, first.visited, rest.visited);
    }
  }

  // The first hops of a source -----------------------------------------------------------------

  /** The search of one first hop visits, besides its source, exactly what the hop reaches. */
  lemma VisitedExactly(adj: Adj, src: Key, hop: Hop)
    requires !Directional(src.ptype) && hop in Out(adj, src) && NextKey(hop).Some?
    ensures forall k :: k in Follow(adj, hop, {src}).visited - {src} <==> Reachable(adj, NextKey(hop).value, k)
  {
    var k0 := NextKey(hop).value;
    ReachesSelf(SuccOf(adj), k0);
    FollowReaches(adj, hop, {src}, k0);
    assert Succ(adj, src, k0);
    forall k | Reachable(adj, k0, k)
      ensures k in Follow(adj, hop, {src}).visited - {src}
    {
      var route :| IsRoute(SuccOf(adj), route) && route[0] == k0 && route[|route| - 1] == k;
      var walk := [src] + route;
      forall i | 0 <= i < |walk| - 1
        ensures SuccOf(adj)(walk[i], walk[i + 1])
      {
        if i > 0 {
          assert SuccOf(adj)(route[i - 1], route[i - 1 + 1]);
        }
      }
      WalkIsVisited(adj, src, hop, walk, |walk| - 1);
    }
  }

  /** The crossings that matter to first hop `h` of `src`: that hop and every crossing out of a port it reaches. */
  ghost predicate Followed(adj: Adj, src: Key, h: nat, c: Crossing) {
    var first := Crossing(src, h);
    IsCrossing(adj, first) && IsCrossing(adj, c) && (c == first || Reachable(adj, Target(adj, first), c.from))
  }

  /** No slave port is entered by two of them. */
  ghost predicate PortsEnteredOnce(adj: Adj, src: Key, h: nat) {
    forall c, d :: Followed(adj, src, h, c) && Followed(adj, src, h, d) && Target(adj, c) == Target(adj, d) ==> c == d
  }

  /** The same crossings as a finite set. */
  ghost function FollowedSet(adj: Adj, src: Key, h: nat): (r: set<Crossing>)
    requires !Directional(src.ptype) && IsCrossing(adj, Crossing(src, h))
    ensures forall c :: c in r <==> Followed(adj, src, h, c)
    ensures var hop := Out(adj, src)[h];
            |r| == 1 + |CrossingsOf(adj, Follow(adj, hop, {src}).visited - {src})|
  {
    var hop := Out(adj, src)[h];
    var entered := Follow(adj, hop, {src}).visited - {src};
    VisitedExactly(adj, src, hop);
    var r := {Crossing(src, h)} + CrossingsOf(adj, entered);
    assert Crossing(src, h) !in CrossingsOf(adj, entered);
    r
  }

  /** A port is entered by the first hop or out of a port that it reaches. */
  lemma EnteredBySome(adj: Adj, src: Key, h: nat, k: Key) returns (c: Crossing)
    requires !Directional(src.ptype) && IsCrossing(adj, Crossing(src, h))
    requires Reachable(adj, Target(adj, Crossing(src, h)), k)
    ensures Followed(adj, src, h, c) && Target(adj, c) == k
  {
    var k0 := Target(adj, Crossing(src, h));
    var route :| IsRoute(SuccOf(adj), route) && route[0] == k0 && route[|route| - 1] == k;
    if |route| == 1 {
      c := Crossing(src, h);
    } else {
      var n := |route| - 2;
      assert SuccOf(adj)(route[n], route[n + 1]);
      var next :| next in Out(adj, route[n]) && NextKey(next) == Some(k);
      var i :| 0 <= i < |Out(adj, route[n])| && Out(adj, route[n])[i] == next;
      RouteReaches(SuccOf(adj), route, 0, n);
      c := Crossing(route[n], i);
    }
  }

  ghost function TargetIn(adj: Adj): Crossing -> Key {
    c => Target(adj, c)
  }

  lemma TargetsAreOnto(adj: Adj, src: Key, h: nat)
    requires !Directional(src.ptype) && IsCrossing(adj, Crossing(src, h))
    ensures Onto(FollowedSet(adj, src, h), Follow(adj, Out(adj, src)[h], {src}).visited - {src}, TargetIn(adj))
  {
    var hop := Out(adj, src)[h];
    var entered := Follow(adj, hop, {src}).visited - {src};
    var f, all := TargetIn(adj), FollowedSet(adj, src, h);
    VisitedExactly(adj, src, hop);
    ReachesSelf(SuccOf(adj), NextKey(hop).value);
    forall c | c in all
      ensures f(c) in entered
    {
      if c != Crossing(src, h) {
        assert Succ(adj, c.from, Target(adj, c));
        ReachesOn(SuccOf(adj), NextKey(hop).value, c.from, Target(adj, c));
      }
    }
    forall k | k in entered
      ensures exists c :: c in all && f(c) == k
    {
      var c := EnteredBySome(adj, src, h, k);
      assert c in all && f(c) == k;
    }
  }

  /** No path of a first hop carries a loop label exactly when no reachable slave port is entered by two crossings. */
  lemma NoLabelExactly(adj: Adj, src: Key, h: nat)
    requires !Directional(src.ptype) && h < |Out(adj, src)|
    ensures NoLabel(PathsByHop(adj, src, Out(adj, src)[h])) <==> PortsEnteredOnce(adj, src, h)
  {
    var hop := Out(adj, src)[h];
    var r := Follow(adj, hop, {src});
    PathsNotEmpty(adj, hop, {src});
    LoopEndsPrefixed(Pass(src, hop), r.paths);
    NoLoopEnds(PathsByHop(adj, src, hop));
    LoopsCount(adj, hop, {src});
    if NextKey(hop).Some? {
      TargetsAreOnto(adj, src, h);
      OntoCount(FollowedSet(adj, src, h), r.visited - {src}, TargetIn(adj));
      OneToOneIsOnce(adj, src, h);
    } else {
      assert r.visited - {src} == {};
    }
  }

  lemma OneToOneIsOnce(adj: Adj, src: Key, h: nat)
    requires !Directional(src.ptype) && IsCrossing(adj, Crossing(src, h))
    ensures OneToOne(FollowedSet(adj, src, h), TargetIn(adj)) <==> PortsEnteredOnce(adj, src, h)
  {
    var all, f := FollowedSet(adj, src, h), TargetIn(adj);
    if OneToOne(all, f) {
      forall c, d | Followed(adj, src, h, c) && Followed(adj, src, h, d) && Target(adj, c) == Target(adj, d)
        ensures c == d
      {
        assert c in all && d in all && f(c) == f(d);
      }
    }
  }
}
