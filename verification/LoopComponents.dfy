/**
 * Cycles and strongly connected components of the switch graph, and what the
 * depth-first search does to them: every crossing that enters a component from outside
 * either opens it or ends a path in a loop label that lies on no cycle.
 */
module LoopComponents {
  import opened Basics
  import opened Reach
  import opened SwitchGraph
  import opened TracePaths
  import opened LoopLabels

  // Cycles ---------------------------------------------------------------------------------

  /** A closed walk leaves `k` by going to `next`. */
  ghost predicate OnCycle(adj: Adj, k: Key, next: Key) {
    exists route :: IsRoute(SuccOf(adj), route) && |route| >= 2 && route[0] == k == route[|route| - 1] &&
                    route[1] == next
  }

  /** A configured step lies on a cycle exactly when it can be walked back. */
  lemma OnCycleExactly(adj: Adj, k: Key, next: Key)
    requires Succ(adj, k, next)
    ensures OnCycle(adj, k, next) <==> Reachable(adj, next, k)
  {
    if route :| IsRoute(SuccOf(adj), route) && |route| >= 2 && route[0] == k == route[|route| - 1] && route[1] == next {
      RouteReaches(SuccOf(adj), route, 1, |route| - 1);
    }
    if Reachable(adj, next, k) {
      var back :| IsRoute(SuccOf(adj), back) && back[0] == next && back[|back| - 1] == k;
      var route := [k] + back;
      forall i | 0 <= i < |route| - 1
        ensures SuccOf(adj)(route[i], route[i + 1])
      {
        if i > 0 {
          assert SuccOf(adj)(back[i - 1], back[i - 1 + 1]);
        }
      }
    }
  }

  /** The loop label at the end of `p` is false: the step it stands for lies on no cycle. */
  ghost predicate FalseLabel(adj: Adj, p: Path) {
    && |p| >= 2 && EndsInLoop(p) && Driven(p[|p| - 1].key).Some?
    && !OnCycle(adj, p[|p| - 2].key, Driven(p[|p| - 1].key).value)
  }

  ghost predicate NoFalseLabel(adj: Adj, paths: seq<Path>) {
    forall i :: 0 <= i < |paths| ==> !FalseLabel(adj, paths[i])
  }

  // Counting false labels --------------------------------------------------------------------

  /** The label at the end of `p`, a path out of `from`, cannot be walked back. */
  ghost predicate FalseEnd(adj: Adj, from: Key, p: Path) {
    && EndsInLoop(p) && Driven(p[|p| - 1].key).Some?
    && !Reachable(adj, Driven(p[|p| - 1].key).value, if |p| >= 2 then p[|p| - 2].key else from)
  }

  ghost function FalseEnds(adj: Adj, from: Key, paths: seq<Path>): nat {
    if paths == [] then 0 else One(FalseEnd(adj, from, paths[0])) + FalseEnds(adj, from, paths[1..])
  }

  lemma {:induction false} FalseEndsAppend(adj: Adj, from: Key, ps: seq<Path>, qs: seq<Path>)
    ensures FalseEnds(adj, from, ps + qs) == FalseEnds(adj, from, ps) + FalseEnds(adj, from, qs)
  {
    if ps == [] {
      assert ps + qs == qs;
    } else {
      FalseEndsAppend(adj, from, ps[1..], qs);
      assert (ps + qs)[1..] == ps[1..] + qs;
    }
  }

  /** A path that is continued backwards by a step out of `k` comes out of `k`. */
  lemma {:induction false} FalseEndsPrefixed(adj: Adj, from: Key, k: Key, hop: Hop, paths: seq<Path>)
    requires forall i :: 0 <= i < |paths| ==> paths[i] != []
    ensures FalseEnds(adj, from, Prefixed(Pass(k, hop), paths)) == FalseEnds(adj, k, paths)
  {
    if paths != [] {
      var all := Prefixed(Pass(k, hop), paths);
      assert all[1..] == Prefixed(Pass(k, hop), paths[1..]);
      var p, q := paths[0], all[0];
      assert q == [Pass(k, hop)] + p;
      assert q[|q| - 1] == p[|p| - 1] && q[|q| - 2].key == if |p| >= 2 then p[|p| - 2].key else k;
      FalseEndsPrefixed(adj, from, k, hop, paths[1..]);
    }
  }

  lemma FalseEndsOfEach(adj: Adj, from: Key, k: Key, hops: seq<Hop>, visited: set<Key>)
    requires hops != []
    ensures var first := Follow(adj, hops[0], visited);
            FalseEnds(adj, from, FollowEach(adj, k, hops, visited).paths)
            == FalseEnds(adj, k, first.paths) + FalseEnds(adj, from, FollowEach(adj, k, hops[1..], first.visited).paths)
  {
    var first := Follow(adj, hops[0], visited);
    var rest := FollowEach(adj, k, hops[1..], first.visited);
    PathsNotEmpty(adj, hops[0], visited);
    FalseEndsPrefixed(adj, from, k, hops[0], first.paths);
    FalseEndsAppend(adj, from, Prefixed(Pass(k, hops[0]), first.paths), rest.paths);
  }

  lemma {:induction false} NoFalseEnds(adj: Adj, from: Key, paths: seq<Path>)
    ensures FalseEnds(adj, from, paths) == 0 <==> forall i :: 0 <= i < |paths| ==> !FalseEnd(adj, from, paths[i])
  {
    if paths != [] {
      NoFalseEnds(adj, from, paths[1..]);
      assert forall i :: 0 <= i < |paths| - 1 ==> paths[1..][i] == paths[i + 1];
      assert forall i :: 0 < i < |paths| ==> paths[i] == paths[1..][i - 1];
    }
  }

  // Strongly connected components --------------------------------------------------------------

  ghost predicate Mutual(adj: Adj, a: Key, b: Key) {
    Reachable(adj, a, b) && Reachable(adj, b, a)
  }

  lemma MutualThrough(adj: Adj, a: Key, b: Key, c: Key)
    requires Mutual(adj, a, b) && Mutual(adj, b, c)
    ensures Mutual(adj, a, c)
  {
    ReachesThrough(SuccOf(adj), a, b, c);
    ReachesThrough(SuccOf(adj), c, b, a);
  }

  /** The component of `k` within `all`. */
  ghost function Component(adj: Adj, all: set<Key>, k: Key): set<Key> {
    set q | q in all && Mutual(adj, q, k)
  }

  ghost function Components(adj: Adj, all: set<Key>, ks: set<Key>): set<set<Key>> {
    set k | k in ks :: Component(adj, all, k)
  }

  lemma SameComponent(adj: Adj, all: set<Key>, a: Key, b: Key)
    requires a in all && b in all
    ensures Component(adj, all, a) == Component(adj, all, b) <==> Mutual(adj, a, b)
  {
    ReachesSelf(SuccOf(adj), a);
    if Component(adj, all, a) == Component(adj, all, b) {
      assert a in Component(adj, all, a);
    }
    if Mutual(adj, a, b) {
      forall q | q in all
        ensures Mutual(adj, q, a) <==> Mutual(adj, q, b)
      {
        if Mutual(adj, q, a) {
          MutualThrough(adj, q, a, b);
        }
        if Mutual(adj, q, b) {
          MutualThrough(adj, q, b, a);
        }
      }
    }
  }

  // What the depth-first search keeps -----------------------------------------------------------

  /** A visited port of an unfinished component still leads to `q`, the port whose hops are being followed. */
  ghost predicate OnStack(adj: Adj, visited: set<Key>, q: Key) {
    forall v, u :: v in visited && u !in visited && Mutual(adj, v, u) ==> Reachable(adj, v, q)
  }

  /** A route that starts in `s` and ends outside leaves it somewhere. */
  lemma {:induction false} LeavesAt(s: set<Key>, route: seq<Key>) returns (i: nat)
    requires |route| > 0 && route[0] in s && route[|route| - 1] !in s
    ensures 0 < i < |route| && route[i - 1] in s && route[i] !in s
    decreases |route|
  {
    if route[|route| - 2] in s {
      i := |route| - 1;
    } else {
      i := LeavesAt(s, route[..|route| - 1]);
    }
  }

  lemma StackKept(adj: Adj, q: Key, hop: Hop, visited: set<Key>)
    requires OnStack(adj, visited, q)
    ensures OnStack(adj, Follow(adj, hop, visited).visited, q)
  {
    var after := Follow(adj, hop, visited).visited;
    FollowCloses(adj, hop, visited);
    forall v, u | v in after && u !in after && Mutual(adj, v, u)
      ensures Reachable(adj, v, q)
    {
      if v !in visited {
        BackThroughVisited(adj, q, visited, after, v, u);
      }
    }
  }

  /** A newly visited port whose component is unfinished goes on through a port visited before. */
  lemma BackThroughVisited(adj: Adj, q: Key, visited: set<Key>, after: set<Key>, v: Key, u: Key)
    requires OnStack(adj, visited, q) && visited <= after && AllClosed(adj, after - visited, after)
    requires v in after - visited && u !in after && Mutual(adj, v, u)
    ensures Reachable(adj, v, q)
  {
    var route :| IsRoute(SuccOf(adj), route) && route[0] == v && route[|route| - 1] == u;
    var i := LeavesAt(after - visited, route);
    var w := route[i];
    assert w in after by {
      assert SuccOf(adj)(route[i - 1], route[i - 1 + 1]);
      var next :| next in Out(adj, route[i - 1]) && NextKey(next) == Some(w);
      var j :| 0 <= j < |Out(adj, route[i - 1])| && Out(adj, route[i - 1])[j] == next;
      assert LeadsInto(Out(adj, route[i - 1])[j], after);
    }
    RouteReaches(SuccOf(adj), route, 0, i);
    RouteReaches(SuccOf(adj), route, i, |route| - 1);
    ReachesThrough(SuccOf(adj), u, v, w);
    assert Mutual(adj, w, u);
    ReachesThrough(SuccOf(adj), v, w, q);
  }

  lemma StackGrows(adj: Adj, q: Key, k: Key, visited: set<Key>)
    requires OnStack(adj, visited, q) && Succ(adj, q, k)
    ensures OnStack(adj, visited + {k}, k)
  {
    ReachesSelf(SuccOf(adj), k);
    forall v, u | v in visited + {k} && u !in visited + {k} && Mutual(adj, v, u)
      ensures Reachable(adj, v, k)
    {
      if v in visited {
        ReachesOn(SuccOf(adj), v, q, k);
      }
    }
  }

  /** A crossing that cannot be walked back: it enters a component from outside. */
  ghost predicate Outside(adj: Adj, c: Crossing) {
    IsCrossing(adj, c) && !Reachable(adj, Target(adj, c), c.from)
  }

  /** A new port opens a new component exactly when it is entered from outside. */
  lemma NewComponent(adj: Adj, all: set<Key>, c: Crossing, visited: set<Key>)
    requires OnStack(adj, visited, c.from) && c.from in visited && visited <= all
    requires IsCrossing(adj, c) && Target(adj, c) in all - visited
    ensures |Components(adj, all, visited + {Target(adj, c)})| == |Components(adj, all, visited)| + One(Outside(adj, c))
  {
    var q, k := c.from, Target(adj, c);
    assert Succ(adj, q, k);
    var before := Components(adj, all, visited);
    assert Components(adj, all, visited + {k}) == before + {Component(adj, all, k)};
    if Outside(adj, c) {
      if Component(adj, all, k) in before {
        var v :| v in visited && Component(adj, all, v) == Component(adj, all, k);
        SameComponent(adj, all, v, k);
        ReachesThrough(SuccOf(adj), k, v, q);
      }
    } else {
      ReachesSelf(SuccOf(adj), q);
      ReachesOn(SuccOf(adj), q, q, k);
      SameComponent(adj, all, q, k);
    }
  }

  // The count ------------------------------------------------------------------------------------

  ghost function OutsideAt(adj: Adj, k: Key, n: nat): set<Crossing> {
    set c | c in CrossingsAt(adj, k, n) && Outside(adj, c)
  }

  ghost function OutsideOf(adj: Adj, ks: set<Key>): set<Crossing> {
    set c | c in CrossingsOf(adj, ks) && Outside(adj, c)
  }

  lemma NextOutside(adj: Adj, k: Key, n: nat)
    requires n < |Out(adj, k)|
    ensures |OutsideAt(adj, k, n)| == One(Outside(adj, Crossing(k, n))) + |OutsideAt(adj, k, n + 1)|
  {
    if Outside(adj, Crossing(k, n)) {
      assert OutsideAt(adj, k, n) == {Crossing(k, n)} + OutsideAt(adj, k, n + 1);
    } else {
      assert OutsideAt(adj, k, n) == OutsideAt(adj, k, n + 1);
    }
  }

  lemma OutsideSplit(adj: Adj, a: set<Key>, b: set<Key>, c: set<Key>)
    requires a <= b <= c
    ensures |OutsideOf(adj, c - a)| == |OutsideOf(adj, c - b)| + |OutsideOf(adj, b - a)|
  {
    assert OutsideOf(adj, c - a) == OutsideOf(adj, c - b) + OutsideOf(adj, b - a);
  }

  lemma OutsideOneMore(adj: Adj, k: Key, a: set<Key>, c: set<Key>)
    requires k !in a && a + {k} <= c
    ensures |OutsideOf(adj, c - a)| == |OutsideOf(adj, c - (a + {k}))| + |OutsideAt(adj, k, 0)|
  {
    assert a + {k} - a == {k};
    assert OutsideOf(adj, {k}) == OutsideAt(adj, k, 0);
    OutsideSplit(adj, a, a + {k}, c);
  }

  /** Every crossing from outside that is followed either opens a new component or ends a path in a false label. */
  lemma {:induction false} FalseCount(adj: Adj, all: set<Key>, c: Crossing, visited: set<Key>)
    requires c.index < |Out(adj, c.from)| && c.from in visited && OnStack(adj, visited, c.from)
    requires Follow(adj, Out(adj, c.from)[c.index], visited).visited <= all
    ensures var r := Follow(adj, Out(adj, c.from)[c.index], visited);
            FalseEnds(adj, c.from, r.paths) + |Components(adj, all, r.visited)|
            == |Components(adj, all, visited)| + One(Outside(adj, c)) + |OutsideOf(adj, r.visited - visited)|
    decreases adj.Keys - visited, 1, 0
  {
    var q, hop := c.from, Out(adj, c.from)[c.index];
    var r := Follow(adj, hop, visited);
    if NextKey(hop).Some? && NextKey(hop).value !in visited {
      var k := NextKey(hop).value;
      assert Target(adj, c) == k && Succ(adj, q, k);
      NewComponent(adj, all, c, visited);
      OutsideOneMore(adj, k, visited, r.visited);
      if Out(adj, k) == [] {
        DanglingCount(adj, q, k, visited);
      } else {
        assert k in adj.Keys - visited && k !in adj.Keys - (visited + {k});
        StackGrows(adj, q, k, visited);
        assert Out(adj, k)[0..] == Out(adj, k);
        FalseCountEach(adj, all, q, k, 0, visited + {k});
      }
    } else {
      assert r.visited - visited == {} && OutsideOf(adj, {}) == {};
      SingleCount(adj, c, visited);
    }
  }

  lemma DanglingCount(adj: Adj, q: Key, k: Key, visited: set<Key>)
    requires Out(adj, k) == []
    ensures FalseEnds(adj, q, [[Leaf(k, Dangling)]]) == 0
    ensures OutsideAt(adj, k, 0) == {} && OutsideOf(adj, visited + {k} - (visited + {k})) == {}
  {
    assert [[Leaf(k, Dangling)]][1..] == [];
  }

  lemma SingleCount(adj: Adj, c: Crossing, visited: set<Key>)
    requires c.index < |Out(adj, c.from)|
    requires var hop := Out(adj, c.from)[c.index]; NextKey(hop).Some? ==> NextKey(hop).value in visited
    ensures FalseEnds(adj, c.from, Follow(adj, Out(adj, c.from)[c.index], visited).paths) == One(Outside(adj, c))
  {
    var hop := Out(adj, c.from)[c.index];
    var paths := Follow(adj, hop, visited).paths;
    assert |paths| == 1 && |paths[0]| == 1 && paths[1..] == [];
    if NextKey(hop).Some? {
      assert Driven(MasterKey(hop)) == NextKey(hop);
    }
  }

  lemma {:induction false} FalseCountEach(adj: Adj, all: set<Key>, from: Key, k: Key, n: nat, visited: set<Key>)
    requires n <= |Out(adj, k)| && k in visited && OnStack(adj, visited, k)
    requires FollowEach(adj, k, Out(adj, k)[n..], visited).visited <= all
    ensures var r := FollowEach(adj, k, Out(adj, k)[n..], visited);
            FalseEnds(adj, from, r.paths) + |Components(adj, all, r.visited)|
            == |Components(adj, all, visited)| + |OutsideAt(adj, k, n)| + |OutsideOf(adj, r.visited - visited)|
    decreases adj.Keys - visited, 2, |Out(adj, k)| - n
  {
    var hops := Out(adj, k)[n..];
    if hops == [] {
      assert visited - visited == {};
      assert OutsideAt(adj, k, n) == {} && OutsideOf(adj, {}) == {};
    } else {
      assert hops[0] == Out(adj, k)[n] && hops[1..] == Out(adj, k)[n + 1..];
      var first := Follow(adj, hops[0], visited);
      assert adj.Keys - first.visited <= adj.Keys - visited;
      var rest := FollowEach(adj, k, hops[1..], first.visited);
      FalseCount(adj, all, Crossing(k, n), visited);
      StackKept(adj, k, hops[0], visited);
      FalseCountEach(adj, all, from, k, n + 1, first.visited);
      FalseEndsOfEach(adj, from, k, hops, visited);
      NextOutside(adj, k, n);
      OutsideSplit(adj, visited, first.visited, rest.visited);
    }
  }
}
