/** Reachability in a directed graph given by its steps, and what a search with a queue keeps. */
module Reach {

  ghost predicate IsRoute<T(!new)>(step: (T, T) -> bool, route: seq<T>) {
    |route| > 0 && forall i :: 0 <= i < |route| - 1 ==> step(route[i], route[i + 1])
  }

  ghost predicate Reaches<T(!new)>(step: (T, T) -> bool, a: T, b: T) {
    exists route :: IsRoute(step, route) && route[0] == a && route[|route| - 1] == b
  }

  lemma ReachesSelf<T(!new)>(step: (T, T) -> bool, a: T)
    ensures Reaches(step, a, a)
  {
    assert IsRoute(step, [a]);
  }

  lemma ReachesOn<T(!new)>(step: (T, T) -> bool, a: T, b: T, c: T)
    requires Reaches(step, a, b) && step(b, c)
    ensures Reaches(step, a, c)
  {
    var route :| IsRoute(step, route) && route[0] == a && route[|route| - 1] == b;
    assert IsRoute(step, route + [c]);
  }

  lemma RouteReaches<T(!new)>(step: (T, T) -> bool, route: seq<T>, i: nat, j: nat)
    requires IsRoute(step, route) && i <= j < |route|
    ensures Reaches(step, route[i], route[j])
  {
    var part := route[i..j + 1];
    assert IsRoute(step, part) by {
      forall n | 0 <= n < |part| - 1
        ensures step(part[n], part[n + 1])
      {
        assert part[n] == route[i + n] && part[n + 1] == route[i + n + 1];
      }
    }
    assert part[0] == route[i] && part[|part| - 1] == route[j];
  }

  lemma {:induction false} ReachesAlong<T(!new)>(step: (T, T) -> bool, a: T, route: seq<T>, i: nat)
    requires IsRoute(step, route) && i < |route| && Reaches(step, a, route[0])
    ensures Reaches(step, a, route[i])
  {
    if i > 0 {
      ReachesAlong(step, a, route, i - 1);
      assert step(route[i - 1], route[i - 1 + 1]);
      ReachesOn(step, a, route[i - 1], route[i]);
    }
  }

  lemma ReachesThrough<T(!new)>(step: (T, T) -> bool, a: T, b: T, c: T)
    requires Reaches(step, a, b) && Reaches(step, b, c)
    ensures Reaches(step, a, c)
  {
    var route :| IsRoute(step, route) && route[0] == b && route[|route| - 1] == c;
    ReachesAlong(step, a, route, |route| - 1);
  }

  ghost predicate Closed<T(!new)>(step: (T, T) -> bool, s: set<T>) {
    forall n, m :: n in s && step(n, m) ==> m in s
  }

  lemma {:induction false} RouteStaysIn<T(!new)>(step: (T, T) -> bool, s: set<T>, route: seq<T>, i: nat)
    requires IsRoute(step, route) && route[0] in s && i < |route| && Closed(step, s)
    ensures route[i] in s
  {
    if i > 0 {
      RouteStaysIn(step, s, route, i - 1);
      assert step(route[i - 1], route[i - 1 + 1]);
    }
  }

  lemma ReachesWithin<T(!new)>(step: (T, T) -> bool, s: set<T>, a: T, b: T)
    requires a in s && Closed(step, s) && Reaches(step, a, b)
    ensures b in s
  {
    var route :| IsRoute(step, route) && route[0] == a && route[|route| - 1] == b;
    RouteStaysIn(step, s, route, |route| - 1);
  }

  // Searching --------------------------------------------------------------------------

  ghost predicate ReachedFrom<T(!new)>(step: (T, T) -> bool, starts: set<T>, n: T) {
    exists a :: a in starts && Reaches(step, a, n)
  }

  lemma StartOf<T(!new)>(step: (T, T) -> bool, starts: set<T>, n: T) returns (a: T)
    requires ReachedFrom(step, starts, n)
    ensures a in starts && Reaches(step, a, n)
  {
    a :| a in starts && Reaches(step, a, n);
  }

  lemma ReachedFromOne<T(!new)>(step: (T, T) -> bool, a: T, n: T)
    ensures ReachedFrom(step, {a}, n) <==> Reaches(step, a, n)
  {
  }

  lemma ReachedOn<T(!new)>(step: (T, T) -> bool, starts: set<T>, n: T, m: T)
    requires ReachedFrom(step, starts, n) && step(n, m)
    ensures ReachedFrom(step, starts, m)
  {
    var a :| a in starts && Reaches(step, a, n);
    ReachesOn(step, a, n, m);
  }

  lemma ReachedWithin<T(!new)>(step: (T, T) -> bool, starts: set<T>, s: set<T>, n: T)
    requires starts <= s && Closed(step, s) && ReachedFrom(step, starts, n)
    ensures n in s
  {
    var a :| a in starts && Reaches(step, a, n);
    ReachesWithin(step, s, a, n);
  }

  /** Everything done or waiting is reached, and the starts and all that was done leads to is done or waiting. */
  ghost predicate Searching<T(!new)>(step: (T, T) -> bool, starts: set<T>, queue: seq<T>, done: set<T>) {
    && (forall n :: n in done ==> ReachedFrom(step, starts, n))
    && (forall n :: n in queue ==> ReachedFrom(step, starts, n))
    && (forall n :: n in starts ==> n in done || n in queue)
    && (forall n, m :: n in done && step(n, m) ==> m in done || m in queue)
  }

  lemma SearchStarts<T(!new)>(step: (T, T) -> bool, starts: set<T>, queue: seq<T>)
    requires forall n :: n in queue <==> n in starts
    ensures Searching(step, starts, queue, {})
  {
    forall n | n in queue
      ensures ReachedFrom(step, starts, n)
    {
      ReachesSelf(step, n);
    }
  }

  /** After the front of the queue is expanded, its successors wait unless they are done already. */
  lemma SearchStep<T(!new)>(step: (T, T) -> bool, starts: set<T>, queue: seq<T>, done: set<T>, queue': seq<T>)
    requires queue != [] && Searching(step, starts, queue, done)
    requires forall n :: n in queue[1..] ==> n in queue'
    requires forall n :: n in queue' ==> n in queue[1..] || step(queue[0], n)
    requires forall n :: step(queue[0], n) ==> n in queue' || n in done + {queue[0]}
    ensures Searching(step, starts, queue', done + {queue[0]})
  {
    var node := queue[0];
    assert node in queue && queue == [node] + queue[1..];
    forall n | n in queue'
      ensures ReachedFrom(step, starts, n)
    {
      if n !in queue[1..] {
        ReachedOn(step, starts, node, n);
      }
    }
  }

  lemma SkipStep<T(!new)>(step: (T, T) -> bool, starts: set<T>, queue: seq<T>, done: set<T>)
    requires queue != [] && queue[0] in done && Searching(step, starts, queue, done)
    ensures Searching(step, starts, queue[1..], done)
  {
    assert queue == [queue[0]] + queue[1..];
  }

  lemma SearchIsExact<T(!new)>(step: (T, T) -> bool, starts: set<T>, done: set<T>)
    requires Searching(step, starts, [], done)
    ensures forall n :: n in done <==> ReachedFrom(step, starts, n)
  {
    forall n | ReachedFrom(step, starts, n)
      ensures n in done
    {
      ReachedWithin(step, starts, done, n);
    }
  }
}
