/** Picking and counting elements of finite sets. */
module SetFacts {

  lemma OneOf<T>(s: set<T>) returns (a: T)
    requires s != {}
    ensures a in s
  {
    a :| a in s;
  }

  lemma TwoOf<T>(s: set<T>) returns (a: T, b: T)
    requires |s| > 1
    ensures a in s && b in s && a != b
  {
    a :| a in s;
    assert |s - {a}| == |s| - 1;
    b :| b in s - {a};
  }

  lemma AtLeastTwo<T>(s: set<T>, a: T, b: T)
    requires a in s && b in s && a != b
    ensures |s| > 1
  {
    assert s == {a, b} + (s - {a, b});
  }

  predicate Distinct<T(==)>(s: seq<T>) {
    forall i, j :: 0 <= i < j < |s| ==> s[i] != s[j]
  }

  lemma DistinctAppend<T>(s: seq<T>, a: T)
    requires Distinct(s) && a !in s
    ensures Distinct(s + [a])
  {
  }

  lemma DistinctCons<T>(a: T, s: seq<T>)
    ensures Distinct([a] + s) <==> a !in s && Distinct(s)
  {
    var all := [a] + s;
    assert forall i :: 0 < i < |all| ==> all[i] == s[i - 1];
    if Distinct(all) {
      forall i | 0 <= i < |s|
        ensures s[i] != a && forall j :: i < j < |s| ==> s[i] != s[j]
      {
        assert all[0] != all[i + 1];
        forall j | i < j < |s|
          ensures s[i] != s[j]
        {
          assert all[i + 1] != all[j + 1];
        }
      }
    }
  }

  /** `s` followed by the elements of `more` that are not there yet, each once, in order. */
  function AddNew<T(==)>(s: seq<T>, more: seq<T>): seq<T> {
    if more == [] then s
    else
      var before, last := AddNew(s, more[..|more| - 1]), more[|more| - 1];
      if last in before then before else before + [last]
  }

  lemma AddNewOne<T>(s: seq<T>, more: seq<T>, a: T)
    ensures AddNew(s, more + [a]) == if a in AddNew(s, more) then AddNew(s, more) else AddNew(s, more) + [a]
  {
    assert (more + [a])[..|more|] == more;
  }

  lemma {:induction false} AddNewHas<T>(s: seq<T>, more: seq<T>, a: T)
    ensures a in AddNew(s, more) <==> a in s || a in more
  {
    if more != [] {
      AddNewHas(s, more[..|more| - 1], a);
      assert more == more[..|more| - 1] + [more[|more| - 1]];
    }
  }

  lemma {:induction false} AddNewDistinct<T>(s: seq<T>, more: seq<T>)
    requires Distinct(s)
    ensures Distinct(AddNew(s, more))
  {
    if more != [] {
      var before, last := AddNew(s, more[..|more| - 1]), more[|more| - 1];
      AddNewDistinct(s, more[..|more| - 1]);
      if last !in before {
        DistinctAppend(before, last);
      }
    }
  }

  lemma {:induction false} AddNewTwice<T>(s: seq<T>, a: seq<T>, b: seq<T>)
    ensures AddNew(AddNew(s, a), b) == AddNew(s, a + b)
  {
    if b == [] {
      assert a + b == a;
    } else {
      var n := |b| - 1;
      AddNewTwice(s, a, b[..n]);
      assert a + b == (a + b[..n]) + [b[n]];
      AddNewOne(s, a + b[..n], b[n]);
    }
  }

  /** What has been taken and what is still queued, after the first of the queue is taken and `next` is queued. */
  lemma TakeFirst<T>(start: T, before: seq<T>, taken: seq<T>, queue: seq<T>, next: seq<T>)
    requires [start] + before == taken + queue && queue != []
    ensures [start] + before == (taken + [queue[0]]) + queue[1..]
    ensures [start] + (before + next) == (taken + [queue[0]]) + (queue[1..] + next)
  {
    assert queue == [queue[0]] + queue[1..];
    assert [start] + (before + next) == (taken + queue) + next;
  }

  lemma SingletonIs<T>(s: set<T>, a: T)
    requires a in s && forall b :: b in s ==> b == a
    ensures s == {a}
  {
  }

  ghost predicate Onto<A(!new), B(!new)>(c: set<A>, r: set<B>, f: A -> B) {
    (forall a :: a in c ==> f(a) in r) && (forall b :: b in r ==> exists a :: a in c && f(a) == b)
  }

  ghost predicate OneToOne<A(!new), B(!new)>(c: set<A>, f: A -> B) {
    forall a, a' :: a in c && a' in c && f(a) == f(a') ==> a == a'
  }

  /** A function onto `r` has as many arguments as values exactly when it is one to one. */
  lemma {:induction false} OntoCount<A(!new), B(!new)>(c: set<A>, r: set<B>, f: A -> B)
    requires Onto(c, r, f)
    ensures |c| >= |r|
    ensures |c| == |r| <==> OneToOne(c, f)
    decreases |r|
  {
    if r == {} {
      assert c == {};
    } else {
      var b :| b in r;
      var fibre := set a | a in c && f(a) == b;
      var a :| a in c && f(a) == b;
      assert a in fibre;
      OntoRest(c, r, f, b, fibre);
      OntoCount(c - fibre, r - {b}, f);
      assert c == (c - fibre) + fibre;
      FibreCount(c, f, b, fibre, a);
    }
  }

  lemma OntoRest<A(!new), B(!new)>(c: set<A>, r: set<B>, f: A -> B, b: B, fibre: set<A>)
    requires Onto(c, r, f) && b in r && fibre == set a | a in c && f(a) == b
    ensures Onto(c - fibre, r - {b}, f)
  {
    forall d | d in r - {b}
      ensures exists a :: a in c - fibre && f(a) == d
    {
      var a :| a in c && f(a) == d;
      assert a in c - fibre;
    }
  }

  lemma FibreCount<A(!new), B(!new)>(c: set<A>, f: A -> B, b: B, fibre: set<A>, a: A)
    requires fibre == (set x | x in c && f(x) == b) && a in fibre
    ensures |fibre| >= 1
    ensures OneToOne(c, f) <==> OneToOne(c - fibre, f) && |fibre| == 1
  {
    assert fibre == {a} + (fibre - {a});
    if OneToOne(c, f) {
      SingletonIs(fibre, a);
    }
    if |fibre| == 1 && OneToOne(c - fibre, f) {
      assert fibre - {a} == {};
      forall x, x' | x in c && x' in c && f(x) == f(x')
        ensures x == x'
      {
        if x in fibre {
          assert x' in fibre && x !in fibre - {a} && x' !in fibre - {a};
        } else {
          assert x in c - fibre && x' in c - fibre;
        }
      }
    }
  }

  /** Two sequences of one length whose elements are related position by position. */
  ghost predicate InPairs<A, B>(p: (A, B) -> bool, xs: seq<A>, ys: seq<B>) {
    |xs| == |ys| && forall k :: 0 <= k < |xs| ==> p(xs[k], ys[k])
  }

  lemma PairsAppend<A, B>(p: (A, B) -> bool, xs: seq<A>, ys: seq<B>, xs': seq<A>, ys': seq<B>)
    requires InPairs(p, xs, ys) && InPairs(p, xs', ys')
    ensures InPairs(p, xs + xs', ys + ys')
  {
  }

  lemma {:induction false} AddNewFirst<T>(more: seq<T>)
    requires more != []
    ensures AddNew([], more) != [] && AddNew([], more)[0] == more[0]
  {
    if |more| > 1 {
      AddNewFirst(more[..|more| - 1]);
    } else {
      assert more[..0] == [];
    }
  }

  lemma OnlyOther<T>(s: seq<T>, a: T, b: T, i: nat)
    requires Distinct(s) && s != [] && s[0] == a && 1 <= i < |s| && forall x :: x in s ==> x == a || x == b
    ensures s[i] == b
  {
    assert s[i] in s && s[0] != s[i];
  }

  /** A sequence without repeats that holds `a` first and `b` besides. */
  lemma TheTwo<T>(s: seq<T>, a: T, b: T)
    requires Distinct(s) && s != [] && s[0] == a && a != b && forall x :: x in s <==> x == a || x == b
    ensures s == [a, b]
  {
    assert b in s;
    OnlyOther(s, a, b, 1);
    if |s| > 2 {
      OnlyOther(s, a, b, 2);
    }
  }
}
