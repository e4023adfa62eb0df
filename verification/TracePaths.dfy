/**
 * Path tracing through the stream switches: a depth-first search from every
 * source, in which all branches of one first hop share the visited set.
 */
module TracePaths {
  import opened Basics
  import opened Tiles
  import opened Reach
  import opened SetFacts
  import opened SwitchGraph

  /** Why a path ends. `Loop` is what the tool prints when the next slave port was visited before. */
  datatype Why = Endpoint | ShimOut | Loop | Dangling

  /** A step of a printed path: through a slave port and out of a master, or the end. */
  datatype PathStep = Through(key: Key, mtype: PortType, mport: int, mode: Mode) | Leaf(key: Key, why: Why)

  type Path = seq<PathStep>

  function Pass(k: Key, hop: Hop): PathStep {
    Through(k, hop.mtype, hop.mport, hop.mode)
  }

  function MasterKey(hop: Hop): Key {
    Key(hop.tile, hop.mtype, hop.mport)
  }

  function Prefixed(step: PathStep, paths: seq<Path>): (r: seq<Path>)
    ensures |r| == |paths|
    ensures forall i :: 0 <= i < |paths| ==> r[i] == [step] + paths[i]
  {
    seq(|paths|, i requires 0 <= i < |paths| => [step] + paths[i])
  }

  // The search -------------------------------------------------------------------

  datatype Found = Found(paths: seq<Path>, visited: set<Key>)

  /** Every path that starts with `hop`, and the slave ports visited by then. */
  function Follow(adj: Adj, hop: Hop, visited: set<Key>): (r: Found)
    ensures visited <= r.visited
    decreases adj.Keys - visited, 1, 0
  {
    if !Directional(hop.mtype) then Found([[Leaf(MasterKey(hop), Endpoint)]], visited)
    else if ShimExit(hop) then Found([[Leaf(MasterKey(hop), ShimOut)]], visited)
    else
      var k := NextKey(hop).value;
      if k in visited then Found([[Leaf(MasterKey(hop), Loop)]], visited)
      else if Out(adj, k) == [] then Found([[Leaf(k, Dangling)]], visited + {k})
      else
        assert k in adj.Keys - visited && k !in adj.Keys - (visited + {k});
        FollowEach(adj, k, Out(adj, k), visited + {k})
  }

  /** The same for several hops out of slave port `k`, each seeing what the earlier ones visited. */
  function FollowEach(adj: Adj, k: Key, hops: seq<Hop>, visited: set<Key>): (r: Found)
    ensures visited <= r.visited
    decreases adj.Keys - visited, 2, |hops|
  {
    if hops == [] then Found([], visited)
    else
      var first := Follow(adj, hops[0], visited);
      assert adj.Keys - first.visited <= adj.Keys - visited;
      var rest := FollowEach(adj, k, hops[1..], first.visited);
      Found(Prefixed(Pass(k, hops[0]), first.paths) + rest.paths, rest.visited)
  }

  /** `follow`, with the shared visited set passed in and out. */
  method FollowHop(adj: Adj, hop: Hop, visited0: set<Key>) returns (paths: seq<Path>, visited: set<Key>)
    ensures Found(paths, visited) == Follow(adj, hop, visited0)
    decreases adj.Keys - visited0
  {
    visited := visited0;
    if !Directional(hop.mtype) {
      return [[Leaf(MasterKey(hop), Endpoint)]], visited;
    }
    if hop.mtype == Side(South) && hop.tile.row == 0 {
      return [[Leaf(MasterKey(hop), ShimOut)]], visited;
    }
    var k := Key(Step(hop.tile, hop.mtype.dir, 1), Side(Opposite(hop.mtype.dir)), hop.mport);
    if k in visited {
      return [[Leaf(MasterKey(hop), Loop)]], visited;
    }
    visited := visited + {k};
    var nexts := Out(adj, k);
    if nexts == [] {
      return [[Leaf(k, Dangling)]], visited;
    }
    paths := [];
    assert k in adj.Keys - visited0;
    ghost var all := FollowEach(adj, k, nexts, visited);
    for i := 0 to |nexts|
      invariant visited0 + {k} <= visited
      invariant all.visited == FollowEach(adj, k, nexts[i..], visited).visited
      invariant all.paths == paths + FollowEach(adj, k, nexts[i..], visited).paths
    {
      assert nexts[i..][1..] == nexts[i + 1..];
      assert k !in adj.Keys - visited;
      var sub: seq<Path>;
      sub, visited := FollowHop(adj, nexts[i], visited);
      paths := paths + Prefixed(Pass(k, nexts[i]), sub);
    }
  }

  // Every path is a walk ----------------------------------------------------------------

  ghost predicate LeafFits(adj: Adj, hop: Hop, key: Key, why: Why) {
    match why
    case Endpoint => !Directional(hop.mtype) && key == MasterKey(hop)
    case ShimOut => ShimExit(hop) && key == MasterKey(hop)
    case Loop => key == MasterKey(hop) && NextKey(hop).Some?
    case Dangling => NextKey(hop) == Some(key) && Out(adj, key) == []
  }

  /** `p` follows configured hops from `hop` to an end of a possible kind. */
  ghost predicate PathFrom(adj: Adj, hop: Hop, p: Path)
    decreases |p|
  {
    && |p| > 0
    && match p[0]
       case Leaf(key, why) => |p| == 1 && LeafFits(adj, hop, key, why)
       case Through(k, _, _, _) => NextKey(hop) == Some(k) && PathThrough(adj, k, p, Out(adj, k))
  }

  /** `p` leaves slave port `k` by one of `hops` and goes on as a path. */
  ghost predicate PathThrough(adj: Adj, k: Key, p: Path, hops: seq<Hop>)
    decreases |p|, 0
  {
    |p| > 0 && exists next :: next in hops && p[0] == Pass(k, next) && PathFrom(adj, next, p[1..])
  }

  ghost predicate AllFrom(adj: Adj, hop: Hop, paths: seq<Path>) {
    forall i :: 0 <= i < |paths| ==> PathFrom(adj, hop, paths[i])
  }

  ghost predicate AllThrough(adj: Adj, k: Key, paths: seq<Path>, hops: seq<Hop>) {
    forall i :: 0 <= i < |paths| ==> PathThrough(adj, k, paths[i], hops)
  }

  lemma {:induction false} FollowIsWalk(adj: Adj, hop: Hop, visited: set<Key>)
    ensures AllFrom(adj, hop, Follow(adj, hop, visited).paths)
    decreases adj.Keys - visited, 1, 0
  {
    if NextKey(hop).Some? {
      var k := NextKey(hop).value;
      if k !in visited && Out(adj, k) != [] {
        assert k in adj.Keys - visited && k !in adj.Keys - (visited + {k});
        FollowEachIsWalk(adj, k, Out(adj, k), visited + {k});
      }
    }
  }

  lemma {:induction false} FollowEachIsWalk(adj: Adj, k: Key, hops: seq<Hop>, visited: set<Key>)
    ensures AllThrough(adj, k, FollowEach(adj, k, hops, visited).paths, hops)
    decreases adj.Keys - visited, 2, |hops|
  {
    if hops != [] {
      var first := Follow(adj, hops[0], visited);
      var r := FollowEach(adj, k, hops, visited);
      assert adj.Keys - first.visited <= adj.Keys - visited;
      FollowIsWalk(adj, hops[0], visited);
      FollowEachIsWalk(adj, k, hops[1..], first.visited);
      var n := |first.paths|;
      forall i | 0 <= i < |r.paths|
        ensures PathThrough(adj, k, r.paths[i], hops)
      {
        if i < n {
          assert r.paths[i][1..] == first.paths[i];
        } else {
          var rest := FollowEach(adj, k, hops[1..], first.visited);
          assert r.paths[i] == rest.paths[i - n];
          assert PathThrough(adj, k, rest.paths[i - n], hops[1..]);
        }
      }
    }
  }

  // What a path knows when it ends -------------------------------------------------------

  ghost predicate Passes(p: Path, k: Key) {
    exists t :: t in p && t.Through? && t.key == k
  }

  /** `p` passes slave port `k` or is left dangling at it. */
  ghost predicate Enters(p: Path, k: Key) {
    exists t :: t in p && (t.Through? || t.why == Dangling) && t.key == k
  }

  /** One of the first `n` paths enters `k`. */
  ghost predicate EnteredBy(paths: seq<Path>, n: int, k: Key)
    requires n <= |paths|
  {
    exists j :: 0 <= j < n && Enters(paths[j], k)
  }

  /** What path `i` knows: what was visited at first, what earlier paths entered and what it passes itself. */
  ghost predicate KnownTo(paths: seq<Path>, visited: set<Key>, i: int, k: Key)
    requires 0 <= i < |paths|
  {
    k in visited || EnteredBy(paths, i, k) || Passes(paths[i], k)
  }

  /** The slave port a master port drives. */
  function Driven(master: Key): Option<Key> {
    NextKey(Hop(master.tile, master.ptype, master.num, Circuit))
  }

  /** A path ends in `Loop` if it would enter a slave port it knows, and is left dangling only at one it does not. */
  ghost predicate EndFits(paths: seq<Path>, visited: set<Key>, i: int)
    requires 0 <= i < |paths|
  {
    |paths[i]| > 0 && paths[i][|paths[i]| - 1].Leaf? &&
    var end := paths[i][|paths[i]| - 1];
    && (end.why == Loop ==> Driven(end.key).Some? && KnownTo(paths, visited, i, Driven(end.key).value))
    && (end.why == Dangling ==> !KnownTo(paths, visited, i, end.key))
  }

  ghost predicate AllEndsFit(paths: seq<Path>, visited: set<Key>) {
    forall i :: 0 <= i < |paths| ==> EndFits(paths, visited, i)
  }

  lemma EntersPrefixed(k: Key, hop: Hop, p: Path, q: Key)
    ensures Enters([Pass(k, hop)] + p, q) <==> q == k || Enters(p, q)
    ensures Passes([Pass(k, hop)] + p, q) <==> q == k || Passes(p, q)
  {
    var all := [Pass(k, hop)] + p;
    assert all[0] == Pass(k, hop) && Pass(k, hop) in all;
    assert forall t :: t in p ==> t in all;
  }

  /** What the first `n` paths of two groups enter besides `k`. */
  lemma EnteredByParts(k: Key, hop: Hop, first: seq<Path>, rest: seq<Path>, n: nat, q: Key)
    requires n <= |first| + |rest| && q != k
    ensures EnteredBy(Prefixed(Pass(k, hop), first) + rest, n, q)
            <==> if n <= |first| then EnteredBy(first, n, q)
                 else EnteredBy(first, |first|, q) || EnteredBy(rest, n - |first|, q)
  {
    var all := Prefixed(Pass(k, hop), first) + rest;
    forall j | 0 <= j < |all|
      ensures Enters(all[j], q) <==> if j < |first| then Enters(first[j], q) else Enters(rest[j - |first|], q)
    {
      if j < |first| {
        EntersPrefixed(k, hop, first[j], q);
      }
    }
    if j :| 0 <= j < n - |first| && Enters(rest[j], q) {
      assert Enters(all[|first| + j], q);
    }
    if j :| 0 <= j < |first| && j < n && Enters(first[j], q) {
      assert Enters(all[j], q);
    }
  }

  /** `visited'` is `visited` and what `paths` enter. */
  ghost predicate VisitedAfter(visited: set<Key>, paths: seq<Path>, visited': set<Key>) {
    forall q :: q in visited' <==> q in visited || EnteredBy(paths, |paths|, q)
  }

  /** The shared visited set is what was visited at first and what the paths entered. */
  lemma {:induction false} FollowVisits(adj: Adj, hop: Hop, visited: set<Key>)
    ensures var r := Follow(adj, hop, visited); VisitedAfter(visited, r.paths, r.visited)
    decreases adj.Keys - visited, 1, 0
  {
    var r := Follow(adj, hop, visited);
    if NextKey(hop).Some? && NextKey(hop).value !in visited && Out(adj, NextKey(hop).value) != [] {
      var k := NextKey(hop).value;
      assert k in adj.Keys - visited && k !in adj.Keys - (visited + {k});
      FollowEachVisits(adj, k, Out(adj, k), visited + {k});
      FirstEnters(adj, k, Out(adj, k), visited + {k});
    } else {
      var t := r.paths[0][0];
      assert r.paths == [[t]] && t in [t];
      assert forall q :: Enters([t], q) <==> (t.Through? || t.why == Dangling) && t.key == q;
      assert forall q :: EnteredBy(r.paths, 1, q) <==> Enters(r.paths[0], q);
    }
  }

  /** A port with ways out is entered by its first path. */
  lemma FirstEnters(adj: Adj, k: Key, hops: seq<Hop>, visited: set<Key>)
    requires hops != []
    ensures var r := FollowEach(adj, k, hops, visited); EnteredBy(r.paths, |r.paths|, k)
  {
    var r := FollowEach(adj, k, hops, visited);
    FollowCovers(adj, hops[0], visited);
    var first := Follow(adj, hops[0], visited).paths;
    assert r.paths[0] == [Pass(k, hops[0])] + first[0];
    EntersPrefixed(k, hops[0], first[0], k);
  }

  lemma {:induction false} FollowEachVisits(adj: Adj, k: Key, hops: seq<Hop>, visited: set<Key>)
    requires k in visited
    ensures var r := FollowEach(adj, k, hops, visited); VisitedAfter(visited, r.paths, r.visited)
    decreases adj.Keys - visited, 2, |hops|
  {
    if hops != [] {
      var first := Follow(adj, hops[0], visited);
      assert adj.Keys - first.visited <= adj.Keys - visited;
      var rest := FollowEach(adj, k, hops[1..], first.visited);
      FollowVisits(adj, hops[0], visited);
      FollowEachVisits(adj, k, hops[1..], first.visited);
      VisitedByParts(k, hops[0], visited, first.paths, first.visited, rest.paths, rest.visited);
    }
  }

  lemma VisitedByParts(k: Key, hop: Hop, visited: set<Key>, first: seq<Path>, after: set<Key>, rest: seq<Path>,
                       last: set<Key>)
    requires k in visited && VisitedAfter(visited, first, after) && VisitedAfter(after, rest, last)
    ensures VisitedAfter(visited, Prefixed(Pass(k, hop), first) + rest, last)
  {
    forall q | q != k
      ensures q in last <==> q in visited || EnteredBy(Prefixed(Pass(k, hop), first) + rest, |first| + |rest|, q)
    {
      EnteredByParts(k, hop, first, rest, |first| + |rest|, q);
    }
  }

  // Which end a path has ------------------------------------------------------------------

  /**
   * A path ends in `Loop` exactly when it would enter a slave port that was visited at
   * first, was entered by an earlier path or lies on the path itself.
   */
  lemma {:induction false} FollowEndsFit(adj: Adj, hop: Hop, visited: set<Key>)
    ensures AllEndsFit(Follow(adj, hop, visited).paths, visited)
    decreases adj.Keys - visited, 1, 0
  {
    var paths := Follow(adj, hop, visited).paths;
    if NextKey(hop).Some? && NextKey(hop).value !in visited && Out(adj, NextKey(hop).value) != [] {
      var k := NextKey(hop).value;
      assert k in adj.Keys - visited && k !in adj.Keys - (visited + {k});
      FollowEachEndsFit(adj, k, Out(adj, k), visited + {k});
      FollowEachIsWalk(adj, k, Out(adj, k), visited + {k});
      forall i | 0 <= i < |paths|
        ensures EndFits(paths, visited, i)
      {
        assert PathThrough(adj, k, paths[i], Out(adj, k));
        KnownPort(k, paths, visited, i);
      }
    } else {
      assert |paths| == 1 && |paths[0]| == 1;
    }
  }

  /** A path that passes `k` knows it anyway. */
  lemma KnownPort(k: Key, paths: seq<Path>, visited: set<Key>, i: nat)
    requires i < |paths| && |paths[i]| > 0 && paths[i][0].Through? && paths[i][0].key == k
    requires EndFits(paths, visited + {k}, i)
    ensures EndFits(paths, visited, i)
  {
    assert paths[i][0] in paths[i];
    assert Passes(paths[i], k);
    assert forall q :: KnownTo(paths, visited + {k}, i, q) <==> KnownTo(paths, visited, i, q);
  }

  lemma {:induction false} FollowEachEndsFit(adj: Adj, k: Key, hops: seq<Hop>, visited: set<Key>)
    requires k in visited
    ensures AllEndsFit(FollowEach(adj, k, hops, visited).paths, visited)
    decreases adj.Keys - visited, 2, |hops|
  {
    if hops != [] {
      var first := Follow(adj, hops[0], visited);
      assert adj.Keys - first.visited <= adj.Keys - visited;
      FollowEndsFit(adj, hops[0], visited);
      FollowEachEndsFit(adj, k, hops[1..], first.visited);
      FollowVisits(adj, hops[0], visited);
      EndsFitByParts(k, hops[0], visited, first.paths, first.visited,
                     FollowEach(adj, k, hops[1..], first.visited).paths);
    }
  }

  lemma EndsFitByParts(k: Key, hop: Hop, visited: set<Key>, first: seq<Path>, after: set<Key>, rest: seq<Path>)
    requires k in visited && VisitedAfter(visited, first, after)
    requires AllEndsFit(first, visited) && AllEndsFit(rest, after)
    ensures AllEndsFit(Prefixed(Pass(k, hop), first) + rest, visited)
  {
    var all := Prefixed(Pass(k, hop), first) + rest;
    forall i | 0 <= i < |all|
      ensures EndFits(all, visited, i)
    {
      if i < |first| {
        assert EndFits(first, visited, i);
        assert all[i][|all[i]| - 1] == first[i][|first[i]| - 1];
        forall q
          ensures KnownTo(all, visited, i, q) <==> KnownTo(first, visited, i, q)
        {
          KnownInFirst(k, hop, visited, first, rest, i, q);
        }
      } else {
        assert EndFits(rest, after, i - |first|);
        forall q
          ensures KnownTo(all, visited, i, q) <==> KnownTo(rest, after, i - |first|, q)
        {
          KnownInRest(k, hop, visited, first, after, rest, i - |first|, q);
        }
      }
    }
  }

  lemma KnownInFirst(k: Key, hop: Hop, visited: set<Key>, first: seq<Path>, rest: seq<Path>, i: nat, q: Key)
    requires k in visited && i < |first|
    ensures KnownTo(Prefixed(Pass(k, hop), first) + rest, visited, i, q) <==> KnownTo(first, visited, i, q)
  {
    if q != k {
      EnteredByParts(k, hop, first, rest, i, q);
      EntersPrefixed(k, hop, first[i], q);
    }
  }

  lemma KnownInRest(k: Key, hop: Hop, visited: set<Key>, first: seq<Path>, after: set<Key>, rest: seq<Path>, i: nat,
                    q: Key)
    requires k in visited && VisitedAfter(visited, first, after) && i < |rest|
    ensures KnownTo(Prefixed(Pass(k, hop), first) + rest, visited, |first| + i, q) <==> KnownTo(rest, after, i, q)
  {
    if q != k {
      EnteredByParts(k, hop, first, rest, |first| + i, q);
    }
  }

  /** Every path is a walk, and its end is the one that what was seen before it calls for. */
  lemma FollowIsSound(adj: Adj, hop: Hop, visited: set<Key>)
    ensures AllFrom(adj, hop, Follow(adj, hop, visited).paths)
    ensures AllEndsFit(Follow(adj, hop, visited).paths, visited)
  {
    FollowIsWalk(adj, hop, visited);
    FollowEndsFit(adj, hop, visited);
  }

  // Nothing reachable is missed ------------------------------------------------------

  ghost predicate Shown(paths: seq<Path>, step: PathStep) {
    exists i :: 0 <= i < |paths| && step in paths[i]
  }

  /** Slave port `k` and every way out of it appear on the paths. */
  ghost predicate Covered(adj: Adj, paths: seq<Path>, k: Key) {
    if Out(adj, k) == [] then Shown(paths, Leaf(k, Dangling))
    else forall next :: next in Out(adj, k) ==> Shown(paths, Pass(k, next))
  }

  lemma ShownAfterPrefix(step: PathStep, paths: seq<Path>, rest: seq<Path>, t: PathStep)
    requires Shown(paths, t)
    ensures Shown(Prefixed(step, paths) + rest, t)
  {
    var i :| 0 <= i < |paths| && t in paths[i];
    var all := Prefixed(step, paths) + rest;
    assert all[i] == [step] + paths[i];
    assert t in all[i];
  }

  lemma ShownAfterAppend(front: seq<Path>, paths: seq<Path>, t: PathStep)
    requires Shown(paths, t)
    ensures Shown(front + paths, t)
  {
    var i :| 0 <= i < |paths| && t in paths[i];
    assert (front + paths)[|front| + i] == paths[i];
  }

  lemma {:induction false} FollowCovers(adj: Adj, hop: Hop, visited: set<Key>)
    ensures var r := Follow(adj, hop, visited);
            r.paths != [] && forall k :: k in r.visited - visited ==> Covered(adj, r.paths, k)
    decreases adj.Keys - visited, 1, 0
  {
    if NextKey(hop).Some? {
      var k := NextKey(hop).value;
      if k !in visited {
        if Out(adj, k) == [] {
          assert Shown([[Leaf(k, Dangling)]], Leaf(k, Dangling)) by {
            assert Leaf(k, Dangling) in [[Leaf(k, Dangling)]][0];
          }
        } else {
          assert k in adj.Keys - visited && k !in adj.Keys - (visited + {k});
          FollowEachCovers(adj, k, Out(adj, k), visited + {k});
        }
      }
    }
  }

  lemma {:induction false} FollowEachCovers(adj: Adj, k: Key, hops: seq<Hop>, visited: set<Key>)
    ensures var r := FollowEach(adj, k, hops, visited);
            && (hops != [] ==> r.paths != [])
            && (forall next :: next in hops ==> Shown(r.paths, Pass(k, next)))
            && (forall q :: q in r.visited - visited ==> Covered(adj, r.paths, q))
    decreases adj.Keys - visited, 2, |hops|
  {
    if hops != [] {
      var first := Follow(adj, hops[0], visited);
      assert adj.Keys - first.visited <= adj.Keys - visited;
      var rest := FollowEach(adj, k, hops[1..], first.visited);
      var step := Pass(k, hops[0]);
      var paths := Prefixed(step, first.paths) + rest.paths;
      FollowCovers(adj, hops[0], visited);
      FollowEachCovers(adj, k, hops[1..], first.visited);
      assert Shown(paths, step) by {
        assert paths[0] == [step] + first.paths[0];
        assert step in paths[0];
      }
      forall next | next in hops
        ensures Shown(paths, Pass(k, next))
      {
        if next in hops[1..] {
          ShownAfterAppend(Prefixed(step, first.paths), rest.paths, Pass(k, next));
        }
      }
      forall q | q in rest.visited - visited
        ensures Covered(adj, paths, q)
      {
        CoveredByParts(adj, step, first.paths, rest.paths, q);
      }
    }
  }

  lemma CoveredByParts(adj: Adj, step: PathStep, first: seq<Path>, rest: seq<Path>, q: Key)
    requires Covered(adj, first, q) || Covered(adj, rest, q)
    ensures Covered(adj, Prefixed(step, first) + rest, q)
  {
    var wanted := if Out(adj, q) == [] then {Leaf(q, Dangling)} else set next | next in Out(adj, q) :: Pass(q, next);
    forall t | t in wanted
      ensures Shown(Prefixed(step, first) + rest, t)
    {
      if Shown(first, t) {
        ShownAfterPrefix(step, first, rest, t);
      } else {
        ShownAfterAppend(Prefixed(step, first), rest, t);
      }
    }
    if Out(adj, q) != [] {
      forall next | next in Out(adj, q)
        ensures Shown(Prefixed(step, first) + rest, Pass(q, next))
      {
        assert Pass(q, next) in wanted;
      }
    }
  }

  /** `seen` contains whatever `hop` leads to. */
  ghost predicate LeadsInto(hop: Hop, seen: set<Key>) {
    NextKey(hop).Some? ==> NextKey(hop).value in seen
  }

  ghost predicate AllLeadInto(hops: seq<Hop>, seen: set<Key>) {
    forall i :: 0 <= i < |hops| ==> LeadsInto(hops[i], seen)
  }

  ghost predicate AllClosed(adj: Adj, ks: set<Key>, seen: set<Key>) {
    forall k :: k in ks ==> AllLeadInto(Out(adj, k), seen)
  }

  lemma {:induction false} FollowCloses(adj: Adj, hop: Hop, visited: set<Key>)
    ensures var r := Follow(adj, hop, visited);
            LeadsInto(hop, r.visited) && AllClosed(adj, r.visited - visited, r.visited)
    decreases adj.Keys - visited, 1, 0
  {
    if NextKey(hop).Some? {
      var k := NextKey(hop).value;
      if k !in visited && Out(adj, k) != [] {
        assert k in adj.Keys - visited && k !in adj.Keys - (visited + {k});
        FollowEachCloses(adj, k, Out(adj, k), visited + {k});
      }
    }
  }

  lemma {:induction false} FollowEachCloses(adj: Adj, k: Key, hops: seq<Hop>, visited: set<Key>)
    ensures var r := FollowEach(adj, k, hops, visited);
            AllLeadInto(hops, r.visited) && AllClosed(adj, r.visited - visited, r.visited)
    decreases adj.Keys - visited, 2, |hops|
  {
    if hops != [] {
      var first := Follow(adj, hops[0], visited);
      assert adj.Keys - first.visited <= adj.Keys - visited;
      var rest := FollowEach(adj, k, hops[1..], first.visited);
      FollowCloses(adj, hops[0], visited);
      FollowEachCloses(adj, k, hops[1..], first.visited);
      forall q | q in rest.visited - visited
        ensures AllLeadInto(Out(adj, q), rest.visited)
      {
        if q in first.visited {
          assert AllLeadInto(Out(adj, q), first.visited);
        }
      }
    }
  }

  lemma {:induction false} FollowReaches(adj: Adj, hop: Hop, visited: set<Key>, a: Key)
    requires NextKey(hop).Some? ==> Reachable(adj, a, NextKey(hop).value)
    ensures forall k :: k in Follow(adj, hop, visited).visited - visited ==> Reachable(adj, a, k)
    decreases adj.Keys - visited, 1, 0
  {
    if NextKey(hop).Some? {
      var k := NextKey(hop).value;
      if k !in visited && Out(adj, k) != [] {
        assert k in adj.Keys - visited && k !in adj.Keys - (visited + {k});
        FollowEachReaches(adj, k, Out(adj, k), visited + {k}, a);
      }
    }
  }

  lemma {:induction false} FollowEachReaches(adj: Adj, k: Key, hops: seq<Hop>, visited: set<Key>, a: Key)
    requires Reachable(adj, a, k) && forall next :: next in hops ==> next in Out(adj, k)
    ensures forall q :: q in FollowEach(adj, k, hops, visited).visited - visited ==> Reachable(adj, a, q)
    decreases adj.Keys - visited, 2, |hops|
  {
    if hops != [] {
      var first := Follow(adj, hops[0], visited);
      assert adj.Keys - first.visited <= adj.Keys - visited;
      if NextKey(hops[0]).Some? {
        assert Succ(adj, k, NextKey(hops[0]).value);
        ReachesOn(SuccOf(adj), a, k, NextKey(hops[0]).value);
      }
      FollowReaches(adj, hops[0], visited, a);
      FollowEachReaches(adj, k, hops[1..], first.visited, a);
    }
  }

  // How many paths ---------------------------------------------------------------------

  /** The slave ports whose hops are followed, in the order they are entered. */
  ghost function Expanded(adj: Adj, hop: Hop, visited: set<Key>): seq<Key>
    decreases adj.Keys - visited, 1, 0
  {
    if NextKey(hop).None? then []
    else
      var k := NextKey(hop).value;
      if k in visited || Out(adj, k) == [] then []
      else
        assert k in adj.Keys - visited && k !in adj.Keys - (visited + {k});
        [k] + ExpandedEach(adj, k, Out(adj, k), visited + {k})
  }

  ghost function ExpandedEach(adj: Adj, k: Key, hops: seq<Hop>, visited: set<Key>): seq<Key>
    decreases adj.Keys - visited, 2, |hops|
  {
    if hops == [] then []
    else
      var first := Follow(adj, hops[0], visited);
      assert adj.Keys - first.visited <= adj.Keys - visited;
      Expanded(adj, hops[0], visited) + ExpandedEach(adj, k, hops[1..], first.visited)
  }

  lemma {:induction false} ExpandedIsNew(adj: Adj, hop: Hop, visited: set<Key>)
    ensures var ks := Expanded(adj, hop, visited);
            Distinct(ks) && forall i :: 0 <= i < |ks| ==> ks[i] in Follow(adj, hop, visited).visited - visited
    decreases adj.Keys - visited, 1, 0
  {
    if NextKey(hop).Some? {
      var k := NextKey(hop).value;
      if k !in visited && Out(adj, k) != [] {
        assert k in adj.Keys - visited && k !in adj.Keys - (visited + {k});
        ExpandedEachIsNew(adj, k, Out(adj, k), visited + {k});
      }
    }
  }

  lemma {:induction false} ExpandedEachIsNew(adj: Adj, k: Key, hops: seq<Hop>, visited: set<Key>)
    ensures var ks := ExpandedEach(adj, k, hops, visited);
            Distinct(ks) && forall i :: 0 <= i < |ks| ==> ks[i] in FollowEach(adj, k, hops, visited).visited - visited
    decreases adj.Keys - visited, 2, |hops|
  {
    if hops != [] {
      var first := Follow(adj, hops[0], visited);
      assert adj.Keys - first.visited <= adj.Keys - visited;
      ExpandedIsNew(adj, hops[0], visited);
      ExpandedEachIsNew(adj, k, hops[1..], first.visited);
    }
  }

  /** The number of hops out of the given slave ports. */
  ghost function WaysOut(adj: Adj, ks: seq<Key>): nat {
    if ks == [] then 0 else |Out(adj, ks[0])| + WaysOut(adj, ks[1..])
  }

  lemma {:induction false} WaysOutAppend(adj: Adj, ks: seq<Key>, ls: seq<Key>)
    ensures WaysOut(adj, ks + ls) == WaysOut(adj, ks) + WaysOut(adj, ls)
  {
    if ks == [] {
      assert ks + ls == ls;
    } else {
      WaysOutAppend(adj, ks[1..], ls);
      assert (ks + ls)[1..] == ks[1..] + ls;
    }
  }

  /** Each expanded port with n hops turns one path into n: the count is exact. */
  lemma {:induction false} PathCount(adj: Adj, hop: Hop, visited: set<Key>)
    ensures |Follow(adj, hop, visited).paths| + |Expanded(adj, hop, visited)|
         == 1 + WaysOut(adj, Expanded(adj, hop, visited))
    decreases adj.Keys - visited, 1, 0
  {
    if NextKey(hop).Some? {
      var k := NextKey(hop).value;
      if k !in visited && Out(adj, k) != [] {
        assert k in adj.Keys - visited && k !in adj.Keys - (visited + {k});
        PathCountEach(adj, k, Out(adj, k), visited + {k});
        WaysOutAppend(adj, [k], ExpandedEach(adj, k, Out(adj, k), visited + {k}));
      }
    }
  }

  lemma {:induction false} PathCountEach(adj: Adj, k: Key, hops: seq<Hop>, visited: set<Key>)
    ensures |FollowEach(adj, k, hops, visited).paths| + |ExpandedEach(adj, k, hops, visited)|
         == |hops| + WaysOut(adj, ExpandedEach(adj, k, hops, visited))
    decreases adj.Keys - visited, 2, |hops|
  {
    if hops != [] {
      var first := Follow(adj, hops[0], visited);
      assert adj.Keys - first.visited <= adj.Keys - visited;
      PathCount(adj, hops[0], visited);
      PathCountEach(adj, k, hops[1..], first.visited);
      WaysOutAppend(adj, Expanded(adj, hops[0], visited), ExpandedEach(adj, k, hops[1..], first.visited));
    }
  }

  /** Distinct slave ports together have at most all the recorded edges. */
  lemma {:induction false} WaysOutBounded(edges: seq<Edge>, ks: seq<Key>)
    requires Distinct(ks)
    ensures WaysOut(AdjacencyOf(edges), ks) <= |edges|
  {
    if edges == [] {
      NoWaysOut(ks);
    } else {
      var n := |edges| - 1;
      WaysOutBounded(edges[..n], ks);
      WaysOutOneMore(edges, ks);
    }
  }

  lemma {:induction false} NoWaysOut(ks: seq<Key>)
    ensures WaysOut(map[], ks) == 0
  {
    if ks != [] {
      NoWaysOut(ks[1..]);
    }
  }

  lemma {:induction false} WaysOutOneMore(edges: seq<Edge>, ks: seq<Key>)
    requires edges != [] && Distinct(ks)
    ensures WaysOut(AdjacencyOf(edges), ks)
         == WaysOut(AdjacencyOf(edges[..|edges| - 1]), ks) + if edges[|edges| - 1].key in ks then 1 else 0
  {
    if ks != [] {
      WaysOutOneMore(edges, ks[1..]);
      assert ks == [ks[0]] + ks[1..];
    }
  }

  /** One first hop never prints more than one path plus one per configured edge, cyclic or not. */
  lemma PathsAreLinear(edges: seq<Edge>, hop: Hop, visited: set<Key>)
    ensures |Follow(AdjacencyOf(edges), hop, visited).paths| <= 1 + |edges|
  {
    var adj := AdjacencyOf(edges);
    PathCount(adj, hop, visited);
    ExpandedIsNew(adj, hop, visited);
    WaysOutBounded(edges, Expanded(adj, hop, visited));
  }
}
