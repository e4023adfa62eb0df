/** The paths of one first hop form a tree: they part at a slave port and never meet again. */
module PathTree {
  import opened Basics
  import opened SwitchGraph
  import opened TracePaths
  import opened TraceSources

  /** Step `a` of `p` passes slave port `q`. */
  predicate PassesAt(p: Path, a: int, q: Key) {
    0 <= a < |p| && p[a].Through? && p[a].key == q
  }

  /** Two paths that pass one port, or one path that passes it twice, have come the same way. */
  ghost predicate SameWay(paths: seq<Path>, i: int, a: int, j: int, b: int, q: Key)
    requires 0 <= i < |paths| && 0 <= j < |paths|
  {
    PassesAt(paths[i], a, q) && PassesAt(paths[j], b, q) ==> a == b && paths[i][..a] == paths[j][..b]
  }

  ghost predicate IsTree(paths: seq<Path>) {
    forall i, a, j, b, q :: 0 <= i < |paths| && 0 <= j < |paths| ==> SameWay(paths, i, a, j, b, q)
  }

  /** Every port that is passed is new, and visited afterwards. */
  ghost predicate PassesNew(paths: seq<Path>, visited: set<Key>, after: set<Key>) {
    forall i, a, q :: 0 <= i < |paths| && PassesAt(paths[i], a, q) ==> q in after - visited
  }

  /** The same for paths that all start at `k`. */
  ghost predicate PassesNewFrom(k: Key, paths: seq<Path>, visited: set<Key>, after: set<Key>) {
    && (forall i :: 0 <= i < |paths| ==> PassesAt(paths[i], 0, k))
    && (forall i, a, q :: 0 <= i < |paths| && a > 0 && PassesAt(paths[i], a, q) ==> q in after - visited)
  }

  lemma {:induction false} FollowIsTree(adj: Adj, hop: Hop, visited: set<Key>)
    ensures var r := Follow(adj, hop, visited); PassesNew(r.paths, visited, r.visited) && IsTree(r.paths)
    decreases adj.Keys - visited, 1, 0
  {
    if NextKey(hop).Some? && NextKey(hop).value !in visited && Out(adj, NextKey(hop).value) != [] {
      var k := NextKey(hop).value;
      assert k in adj.Keys - visited && k !in adj.Keys - (visited + {k});
      FollowEachIsTree(adj, k, Out(adj, k), visited + {k});
      NewWithStart(k, Follow(adj, hop, visited).paths, visited, Follow(adj, hop, visited).visited);
    } else {
      var r := Follow(adj, hop, visited);
      assert |r.paths| == 1 && |r.paths[0]| == 1 && r.paths[0][0].Leaf?;
    }
  }

  lemma NewWithStart(k: Key, paths: seq<Path>, visited: set<Key>, after: set<Key>)
    requires k in after - visited && PassesNewFrom(k, paths, visited + {k}, after)
    ensures PassesNew(paths, visited, after)
  {
    forall i, a, q | 0 <= i < |paths| && PassesAt(paths[i], a, q)
      ensures q in after - visited
    {
      assert PassesAt(paths[i], 0, k);
    }
  }

  lemma {:induction false} FollowEachIsTree(adj: Adj, k: Key, hops: seq<Hop>, visited: set<Key>)
    requires k in visited
    ensures var r := FollowEach(adj, k, hops, visited); PassesNewFrom(k, r.paths, visited, r.visited) && IsTree(r.paths)
    decreases adj.Keys - visited, 2, |hops|
  {
    if hops != [] {
      var first := Follow(adj, hops[0], visited);
      assert adj.Keys - first.visited <= adj.Keys - visited;
      var rest := FollowEach(adj, k, hops[1..], first.visited);
      FollowIsTree(adj, hops[0], visited);
      FollowEachIsTree(adj, k, hops[1..], first.visited);
      NewByParts(k, hops[0], visited, first.paths, first.visited, rest.paths, rest.visited);
      TreeByParts(k, hops[0], visited, first.paths, first.visited, rest.paths, rest.visited);
    }
  }

  /** Step `a` of a path that got a first step is step `a - 1` of the path. */
  lemma PassesPrefixed(k: Key, hop: Hop, p: Path, a: int, q: Key)
    ensures PassesAt([Pass(k, hop)] + p, a, q) <==> (a == 0 && q == k) || (a > 0 && PassesAt(p, a - 1, q))
  {
  }

  lemma NewByParts(k: Key, hop: Hop, visited: set<Key>, first: seq<Path>, after: set<Key>, rest: seq<Path>,
                   last: set<Key>)
    requires visited <= after <= last
    requires PassesNew(first, visited, after) && PassesNewFrom(k, rest, after, last)
    ensures PassesNewFrom(k, Prefixed(Pass(k, hop), first) + rest, visited, last)
  {
    var all := Prefixed(Pass(k, hop), first) + rest;
    forall i | 0 <= i < |all|
      ensures PassesAt(all[i], 0, k)
    {
      if i >= |first| {
        assert all[i] == rest[i - |first|] && PassesAt(rest[i - |first|], 0, k);
      }
    }
    forall i, a, q | 0 <= i < |all| && a > 0 && PassesAt(all[i], a, q)
      ensures q in last - visited
    {
      if i < |first| {
        PassesPrefixed(k, hop, first[i], a, q);
        assert PassesAt(first[i], a - 1, q);
      } else {
        assert PassesAt(rest[i - |first|], a, q);
      }
    }
  }

  lemma TreeByParts(k: Key, hop: Hop, visited: set<Key>, first: seq<Path>, after: set<Key>, rest: seq<Path>,
                    last: set<Key>)
    requires k in visited && visited <= after <= last
    requires PassesNew(first, visited, after) && IsTree(first)
    requires PassesNewFrom(k, rest, after, last) && IsTree(rest)
    ensures IsTree(Prefixed(Pass(k, hop), first) + rest)
  {
    var all := Prefixed(Pass(k, hop), first) + rest;
    NewByParts(k, hop, visited, first, after, rest, last);
    forall i, a, j, b, q | 0 <= i < |all| && 0 <= j < |all|
      ensures SameWay(all, i, a, j, b, q)
    {
      if PassesAt(all[i], a, q) && PassesAt(all[j], b, q) {
        if q == k {
          assert PassesAt(all[i], 0, k) && PassesAt(all[j], 0, k);
        } else {
          AwayFromStart(k, hop, visited, first, after, rest, last, i, a, j, b, q);
        }
      }
    }
  }

  lemma AwayFromStart(k: Key, hop: Hop, visited: set<Key>, first: seq<Path>, after: set<Key>, rest: seq<Path>,
                      last: set<Key>, i: int, a: int, j: int, b: int, q: Key)
    requires PassesNew(first, visited, after) && IsTree(first)
    requires PassesNewFrom(k, rest, after, last) && IsTree(rest)
    requires 0 <= i < |first| + |rest| && 0 <= j < |first| + |rest| && q != k
    requires var all := Prefixed(Pass(k, hop), first) + rest; PassesAt(all[i], a, q) && PassesAt(all[j], b, q)
    ensures var all := Prefixed(Pass(k, hop), first) + rest; a == b && all[i][..a] == all[j][..b]
  {
    var all := Prefixed(Pass(k, hop), first) + rest;
    WhichPart(k, hop, visited, first, after, rest, last, i, a, q);
    WhichPart(k, hop, visited, first, after, rest, last, j, b, q);
    if i < |first| {
      PassesPrefixed(k, hop, first[i], a, q);
      PassesPrefixed(k, hop, first[j], b, q);
      assert SameWay(first, i, a - 1, j, b - 1, q);
      assert all[i][..a] == [Pass(k, hop)] + first[i][..a - 1];
      assert all[j][..b] == [Pass(k, hop)] + first[j][..b - 1];
    } else {
      assert SameWay(rest, i - |first|, a, j - |first|, b, q);
    }
  }

  /** Away from the common start, what the first group passes is visited by the time the second one starts. */
  lemma WhichPart(k: Key, hop: Hop, visited: set<Key>, first: seq<Path>, after: set<Key>, rest: seq<Path>,
                  last: set<Key>, i: int, a: int, q: Key)
    requires PassesNew(first, visited, after) && PassesNewFrom(k, rest, after, last)
    requires 0 <= i < |first| + |rest| && q != k && PassesAt((Prefixed(Pass(k, hop), first) + rest)[i], a, q)
    ensures i < |first| <==> q in after
  {
    if i < |first| {
      PassesPrefixed(k, hop, first[i], a, q);
      assert PassesAt(first[i], a - 1, q);
    } else {
      assert PassesAt(rest[i - |first|], 0, k) && PassesAt(rest[i - |first|], a, q);
    }
  }

  /**
   * No printed path passes a slave port twice, and two paths of a first hop that pass
   * the same port have every step up to it in common.
   */
  lemma PathsFormTree(adj: Adj, src: Key, hop: Hop)
    ensures IsTree(PathsByHop(adj, src, hop))
  {
    var r := Follow(adj, hop, {src});
    FollowIsTree(adj, hop, {src});
    TreeByParts(src, hop, {src}, r.paths, r.visited, [], r.visited);
    assert PathsByHop(adj, src, hop) + [] == PathsByHop(adj, src, hop);
  }

  lemma NoPortTwice(adj: Adj, src: Key, hop: Hop, i: nat, a: int, b: int, q: Key)
    requires i < |PathsByHop(adj, src, hop)|
    requires PassesAt(PathsByHop(adj, src, hop)[i], a, q) && PassesAt(PathsByHop(adj, src, hop)[i], b, q)
    ensures a == b
  {
    PathsFormTree(adj, src, hop);
    assert SameWay(PathsByHop(adj, src, hop), i, a, i, b, q);
  }
}
