/**
 * Whether a "loop" label means a cycle. Two branches that merge are labelled like a
 * cycle; all labels are cycles exactly when no strongly connected part of the
 * reachable graph is entered twice from outside.
 */
module LoopCycles {
  import opened Basics
  import opened Reach
  import opened SetFacts
  import opened SwitchGraph
  import opened TracePaths
  import opened TraceSources
  import opened LoopLabels
  import opened LoopComponents

  // The first hops of a source ---------------------------------------------------------------------

  /** No component is entered from outside by two of the crossings that matter. */
  ghost predicate ComponentsEnteredOnce(adj: Adj, src: Key, h: nat) {
    forall c, d :: Followed(adj, src, h, c) && Followed(adj, src, h, d) && EnterTogether(adj, c, d) ==> c == d
  }

  ghost predicate EnterTogether(adj: Adj, c: Crossing, d: Crossing) {
    Outside(adj, c) && Outside(adj, d) && Mutual(adj, Target(adj, c), Target(adj, d))
  }

  ghost function FollowedOutside(adj: Adj, src: Key, h: nat): set<Crossing>
    requires !Directional(src.ptype) && IsCrossing(adj, Crossing(src, h))
  {
    set c | c in FollowedSet(adj, src, h) && Outside(adj, c)
  }

  ghost function ComponentIn(adj: Adj, all: set<Key>): Crossing -> set<Key> {
    c => Component(adj, all, Target(adj, c))
  }

  /** Nothing leads back to a source. */
  lemma SourceIsNotReached(adj: Adj, src: Key, h: nat)
    requires !Directional(src.ptype) && IsCrossing(adj, Crossing(src, h))
    ensures !Reachable(adj, Target(adj, Crossing(src, h)), src) && Outside(adj, Crossing(src, h))
  {
    VisitedExactly(adj, src, Out(adj, src)[h]);
    assert src !in Follow(adj, Out(adj, src)[h], {src}).visited - {src};
  }

  /** False labels plus components equal the crossings from outside. */
  lemma FalseLabelsOfHop(adj: Adj, src: Key, h: nat)
    requires !Directional(src.ptype) && IsCrossing(adj, Crossing(src, h))
    ensures var r := Follow(adj, Out(adj, src)[h], {src});
            FalseEnds(adj, src, r.paths) + |Components(adj, r.visited, r.visited - {src})|
            == |FollowedOutside(adj, src, h)|
  {
    var r := Follow(adj, Out(adj, src)[h], {src});
    ReachesSelf(SuccOf(adj), src);
    FalseCount(adj, r.visited, Crossing(src, h), {src});
    SourceIsNotReached(adj, src, h);
    SourceComponent(adj, src, h);
    SourceAddsOne(adj, r.visited, src);
    FirstAddsOne(adj, src, h);
  }

  lemma SourceAddsOne(adj: Adj, all: set<Key>, src: Key)
    requires src in all && Component(adj, all, src) !in Components(adj, all, all - {src})
    ensures |Components(adj, all, {src})| == 1
    ensures |Components(adj, all, all)| == |Components(adj, all, all - {src})| + 1
  {
    var rest := Components(adj, all, all - {src});
    assert Components(adj, all, {src}) == {Component(adj, all, src)};
    forall part
      ensures part in Components(adj, all, all) <==> part in rest || part == Component(adj, all, src)
    {
      if part in Components(adj, all, all) && part !in rest {
        var k :| k in all && part == Component(adj, all, k);
        assert k !in all - {src};
      }
    }
    assert Components(adj, all, all) == rest + {Component(adj, all, src)};
  }

  lemma FirstAddsOne(adj: Adj, src: Key, h: nat)
    requires !Directional(src.ptype) && IsCrossing(adj, Crossing(src, h)) && Outside(adj, Crossing(src, h))
    ensures var entered := Follow(adj, Out(adj, src)[h], {src}).visited - {src};
            |FollowedOutside(adj, src, h)| == 1 + |OutsideOf(adj, entered)|
  {
    var first, entered := Crossing(src, h), Follow(adj, Out(adj, src)[h], {src}).visited - {src};
    VisitedExactly(adj, src, Out(adj, src)[h]);
    assert first !in OutsideOf(adj, entered);
    forall c
      ensures c in FollowedOutside(adj, src, h) <==> c == first || c in OutsideOf(adj, entered)
    {
      assert c in FollowedSet(adj, src, h) <==> Followed(adj, src, h, c);
    }
    assert FollowedOutside(adj, src, h) == {first} + OutsideOf(adj, entered);
  }

  lemma SourceComponent(adj: Adj, src: Key, h: nat)
    requires !Directional(src.ptype) && IsCrossing(adj, Crossing(src, h))
    ensures var all := Follow(adj, Out(adj, src)[h], {src}).visited;
            Component(adj, all, src) !in Components(adj, all, all - {src})
  {
    var hop := Out(adj, src)[h];
    var all := Follow(adj, hop, {src}).visited;
    VisitedExactly(adj, src, hop);
    SourceIsNotReached(adj, src, h);
    forall v | v in all - {src}
      ensures Component(adj, all, v) != Component(adj, all, src)
    {
      SameComponent(adj, all, v, src);
      if Reachable(adj, v, src) {
        ReachesThrough(SuccOf(adj), NextKey(hop).value, v, src);
      }
    }
  }

  /** The component of a port that a first hop reaches is entered from outside. */
  lemma ComponentIsEntered(adj: Adj, src: Key, h: nat, k: Key) returns (c: Crossing)
    requires !Directional(src.ptype) && IsCrossing(adj, Crossing(src, h))
    requires Reachable(adj, Target(adj, Crossing(src, h)), k)
    ensures Followed(adj, src, h, c) && Outside(adj, c) && Mutual(adj, Target(adj, c), k)
  {
    var k0 := Target(adj, Crossing(src, h));
    ReachesSelf(SuccOf(adj), k);
    if Reachable(adj, k, k0) {
      SourceIsNotReached(adj, src, h);
      c := Crossing(src, h);
    } else {
      var route :| IsRoute(SuccOf(adj), route) && route[0] == k0 && route[|route| - 1] == k;
      var i := EntersAt(adj, route, k);
      assert SuccOf(adj)(route[i - 1], route[i - 1 + 1]);
      var next :| next in Out(adj, route[i - 1]) && NextKey(next) == Some(route[i]);
      var j :| 0 <= j < |Out(adj, route[i - 1])| && Out(adj, route[i - 1])[j] == next;
      RouteReaches(SuccOf(adj), route, 0, i - 1);
      RouteReaches(SuccOf(adj), route, i, |route| - 1);
      c := Crossing(route[i - 1], j);
      if Reachable(adj, route[i], route[i - 1]) {
        ReachesThrough(SuccOf(adj), k, route[i], route[i - 1]);
      }
    }
  }

  /** A route to `k` from a port that `k` does not reach has a first port that it does. */
  lemma {:induction false} EntersAt(adj: Adj, route: seq<Key>, k: Key) returns (i: nat)
    requires |route| > 0 && !Reachable(adj, k, route[0]) && Reachable(adj, k, route[|route| - 1])
    ensures 0 < i < |route| && !Reachable(adj, k, route[i - 1]) && Reachable(adj, k, route[i])
    decreases |route|
  {
    if !Reachable(adj, k, route[|route| - 2]) {
      i := |route| - 1;
    } else {
      i := EntersAt(adj, route[..|route| - 1], k);
    }
  }

  lemma ComponentsAreOnto(adj: Adj, src: Key, h: nat)
    requires !Directional(src.ptype) && IsCrossing(adj, Crossing(src, h))
    ensures var all := Follow(adj, Out(adj, src)[h], {src}).visited;
            Onto(FollowedOutside(adj, src, h), Components(adj, all, all - {src}), ComponentIn(adj, all))
  {
    var hop := Out(adj, src)[h];
    var all := Follow(adj, hop, {src}).visited;
    var cs, parts, f := FollowedOutside(adj, src, h), Components(adj, all, all - {src}), ComponentIn(adj, all);
    VisitedExactly(adj, src, hop);
    TargetsAreOnto(adj, src, h);
    forall c | c in cs
      ensures f(c) in parts
    {
      assert TargetIn(adj)(c) in all - {src};
    }
    forall part | part in parts
      ensures exists c :: c in cs && f(c) == part
    {
      var k :| k in all - {src} && part == Component(adj, all, k);
      var c := ComponentIsEntered(adj, src, h, k);
      assert c in cs && TargetIn(adj)(c) in all - {src};
      SameComponent(adj, all, Target(adj, c), k);
      assert f(c) == part;
    }
  }

  lemma OneToOneIsOnceFromOutside(adj: Adj, src: Key, h: nat)
    requires !Directional(src.ptype) && IsCrossing(adj, Crossing(src, h))
    ensures var all := Follow(adj, Out(adj, src)[h], {src}).visited;
            OneToOne(FollowedOutside(adj, src, h), ComponentIn(adj, all)) <==> ComponentsEnteredOnce(adj, src, h)
  {
    var all := Follow(adj, Out(adj, src)[h], {src}).visited;
    var cs, f := FollowedOutside(adj, src, h), ComponentIn(adj, all);
    TargetsAreOnto(adj, src, h);
    forall c, d | c in cs && d in cs
      ensures f(c) == f(d) <==> Mutual(adj, Target(adj, c), Target(adj, d))
    {
      assert TargetIn(adj)(c) in all - {src} && TargetIn(adj)(d) in all - {src};
      SameComponent(adj, all, Target(adj, c), Target(adj, d));
    }
    if OneToOne(cs, f) {
      forall c, d | Followed(adj, src, h, c) && Followed(adj, src, h, d) && EnterTogether(adj, c, d)
        ensures c == d
      {
        assert c in cs && d in cs;
      }
    }
    if ComponentsEnteredOnce(adj, src, h) {
      forall c, d | c in cs && d in cs && f(c) == f(d)
        ensures c == d
      {
        assert EnterTogether(adj, c, d);
      }
    }
  }

  /** A loop label stands for a configured step out of the last port passed. */
  lemma {:induction false} LabelIsStep(adj: Adj, k: Key, hop: Hop, p: Path)
    requires hop in Out(adj, k) && PathFrom(adj, hop, p) && EndsInLoop(p)
    ensures Driven(p[|p| - 1].key).Some?
    ensures Succ(adj, if |p| >= 2 then p[|p| - 2].key else k, Driven(p[|p| - 1].key).value)
    decreases |p|
  {
    if p[0].Through? {
      var key := p[0].key;
      var next :| next in Out(adj, key) && p[0] == Pass(key, next) && PathFrom(adj, next, p[1..]);
      assert p[1..][|p[1..]| - 1] == p[|p| - 1];
      LabelIsStep(adj, key, next, p[1..]);
    } else {
      assert Driven(MasterKey(hop)) == NextKey(hop);
    }
  }

  lemma FalseLabelIsEnd(adj: Adj, src: Key, hop: Hop, i: nat)
    requires hop in Out(adj, src) && i < |PathsByHop(adj, src, hop)|
    ensures FalseLabel(adj, PathsByHop(adj, src, hop)[i]) <==> FalseEnd(adj, src, PathsByHop(adj, src, hop)[i])
  {
    var p := PathsByHop(adj, src, hop)[i];
    PrintedByHopIsGenuine(adj, src, hop, i);
    if EndsInLoop(p) {
      var q := p[1..];
      assert |q| >= 1 && q[|q| - 1] == p[|p| - 1];
      LabelIsStep(adj, src, hop, q);
      assert p[|p| - 2].key == if |q| >= 2 then q[|q| - 2].key else src;
      OnCycleExactly(adj, p[|p| - 2].key, Driven(p[|p| - 1].key).value);
    }
  }

  /**
   * Every loop label printed for a first hop lies on a cycle exactly when no strongly
   * connected component that the hop reaches is entered from outside by two crossings.
   */
  lemma LabelsAreCyclesExactly(adj: Adj, src: Key, h: nat)
    requires !Directional(src.ptype) && h < |Out(adj, src)|
    ensures NoFalseLabel(adj, PathsByHop(adj, src, Out(adj, src)[h])) <==> ComponentsEnteredOnce(adj, src, h)
  {
    var hop := Out(adj, src)[h];
    var r := Follow(adj, hop, {src});
    var paths := PathsByHop(adj, src, hop);
    forall i | 0 <= i < |paths|
      ensures FalseLabel(adj, paths[i]) <==> FalseEnd(adj, src, paths[i])
    {
      FalseLabelIsEnd(adj, src, hop, i);
    }
    NoFalseEnds(adj, src, paths);
    PathsNotEmpty(adj, hop, {src});
    FalseEndsPrefixed(adj, src, src, hop, r.paths);
    if NextKey(hop).Some? {
      FalseLabelsOfHop(adj, src, h);
      ComponentsAreOnto(adj, src, h);
      OntoCount(FollowedOutside(adj, src, h), Components(adj, r.visited, r.visited - {src}),
                ComponentIn(adj, r.visited));
      OneToOneIsOnceFromOutside(adj, src, h);
    } else {
      SingleCount(adj, Crossing(src, h), {src});
    }
  }

  /** Two crossings that enter a component from outside make the source print a false label. */
  lemma FalseLabelIsPrinted(adj: Adj, src: Key, h: nat, c: Crossing, d: Crossing) returns (i: nat)
    requires !Directional(src.ptype) && c != d
    requires Followed(adj, src, h, c) && Followed(adj, src, h, d) && EnterTogether(adj, c, d)
    ensures i < |PathsOf(adj, src)| && FalseLabel(adj, PathsOf(adj, src)[i])
  {
    assert !ComponentsEnteredOnce(adj, src, h);
    LabelsAreCyclesExactly(adj, src, h);
    var j := SomeFalseLabel(adj, PathsByHop(adj, src, Out(adj, src)[h]));
    i := PrintedAt(adj, src, h, j);
  }

  lemma PrintedAt(adj: Adj, src: Key, h: nat, j: nat) returns (i: nat)
    requires h < |Out(adj, src)| && j < |PathsByHop(adj, src, Out(adj, src)[h])|
    ensures i < |PathsOf(adj, src)| && PathsOf(adj, src)[i] == PathsByHop(adj, src, Out(adj, src)[h])[j]
  {
    GroupAt(adj, src, Out(adj, src), h, j);
    i := |PathsVia(adj, src, Out(adj, src)[..h])| + j;
  }

  lemma SomeFalseLabel(adj: Adj, paths: seq<Path>) returns (j: nat)
    requires !NoFalseLabel(adj, paths)
    ensures j < |paths| && FalseLabel(adj, paths[j])
  {
    j :| 0 <= j < |paths| && FalseLabel(adj, paths[j]);
  }
}
