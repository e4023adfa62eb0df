/**
 * Checks 4 and 8 of the pre-hardware verifier: the repeat counts of the DMA
 * channels against the kernel's output rounds. Check 8 looks at one representative
 * tile and at uniformity only.
 */
module RepeatChecks {
  import opened Basics
  import opened Tiles
  import opened SetFacts

  datatype Direction = S2MM | MM2S

  /** An IO in declaration order: its tile if the tile variable resolves, and its repeat count if it is started. */
  datatype Io = Io(loc: Option<Tile>, direction: Direction, channel: int, repeat: Option<int>)

  predicate IsCore(io: Io) {
    io.loc.Some? && io.loc.value.row >= 3
  }

  /** The IOs the MM2S parts of both checks look at. */
  predicate Sends(io: Io) {
    IsCore(io) && io.direction == MM2S && io.repeat.Some?
  }

  predicate Receives(io: Io) {
    IsCore(io) && io.direction == S2MM && io.repeat.Some?
  }

  // Check 4 ---------------------------------------------------------------------------

  /** Every sending IO repeats once per output round, if the rounds are known. */
  ghost predicate SendersMatch(ios: seq<Io>, rounds: Option<int>) {
    rounds.Some? ==> forall i :: 0 <= i < |ios| && Sends(ios[i]) ==> ios[i].repeat == rounds
  }

  /** IO `i` receives on channel `ch` with repeat `r`. */
  predicate ReceivesAs(ios: seq<Io>, i: int, ch: int, r: int) {
    0 <= i < |ios| && Receives(ios[i]) && ios[i].channel == ch && ios[i].repeat == Some(r)
  }

  /** Receiving IOs of one channel agree across tiles. */
  ghost predicate ReceiversAgree(ios: seq<Io>) {
    forall i, j, ch, r, q :: ReceivesAs(ios, i, ch, r) && ReceivesAs(ios, j, ch, q) ==> r == q
  }

  function RepeatsOf(table: map<int, set<int>>, channel: int): set<int> {
    if channel in table then table[channel] else {}
  }

  /** The repeats seen per channel. */
  function RepeatTable(ios: seq<Io>): map<int, set<int>> {
    if ios == [] then map[]
    else
      var io := ios[|ios| - 1];
      var before := RepeatTable(ios[..|ios| - 1]);
      if Receives(io) then before[io.channel := RepeatsOf(before, io.channel) + {io.repeat.value}] else before
  }

  method CollectRepeats(ios: seq<Io>) returns (table: map<int, set<int>>)
    ensures table == RepeatTable(ios)
  {
    table := map[];
    for i := 0 to |ios|
      invariant table == RepeatTable(ios[..i])
    {
      assert ios[..i + 1][..i] == ios[..i];
      if Receives(ios[i]) {
        table := table[ios[i].channel := RepeatsOf(table, ios[i].channel) + {ios[i].repeat.value}];
      }
    }
    assert ios[..|ios|] == ios;
  }

  lemma {:induction false} RepeatTableExactly(ios: seq<Io>, ch: int, r: int)
    ensures r in RepeatsOf(RepeatTable(ios), ch) <==> exists i :: ReceivesAs(ios, i, ch, r)
  {
    if ios != [] {
      var n := |ios| - 1;
      RepeatTableExactly(ios[..n], ch, r);
      if i :| ReceivesAs(ios[..n], i, ch, r) {
        assert ReceivesAs(ios, i, ch, r);
      }
      if i :| ReceivesAs(ios, i, ch, r) && i < n {
        assert ReceivesAs(ios[..n], i, ch, r);
      }
      if Receives(ios[n]) && ios[n].channel == ch && ios[n].repeat == Some(r) {
        assert ReceivesAs(ios, n, ch, r);
      }
    }
  }

  /** More than one value in some channel's set. */
  ghost predicate Inconsistent(table: map<int, set<int>>) {
    exists ch :: ch in table && |table[ch]| > 1
  }

  lemma InconsistentExactly(ios: seq<Io>)
    ensures Inconsistent(RepeatTable(ios)) <==> !ReceiversAgree(ios)
  {
    var table := RepeatTable(ios);
    if Inconsistent(table) {
      var ch :| ch in table && |table[ch]| > 1;
      var a, b := TwoOf(table[ch]);
      RepeatTableExactly(ios, ch, a);
      RepeatTableExactly(ios, ch, b);
    }
    if i, j, ch, r, q :| ReceivesAs(ios, i, ch, r) && ReceivesAs(ios, j, ch, q) && r != q {
      RepeatTableExactly(ios, ch, r);
      RepeatTableExactly(ios, ch, q);
      AtLeastTwo(table[ch], r, q);
    }
  }

  method Check4(ios: seq<Io>, rounds: Option<int>) returns (passed: bool)
    ensures passed <==> SendersMatch(ios, rounds) && ReceiversAgree(ios)
  {
    var details := 0;
    if rounds.Some? {
      for i := 0 to |ios|
        invariant details >= 0
        invariant details == 0 <==> forall k :: 0 <= k < i && Sends(ios[k]) ==> ios[k].repeat == rounds
      {
        if Sends(ios[i]) && ios[i].repeat != rounds {
          details := details + 1;
        }
      }
    }
    var table := CollectRepeats(ios);
    InconsistentExactly(ios);
    var inconsistent := set ch | ch in table && |table[ch]| > 1;
    details := details + |inconsistent|;
    assert Inconsistent(table) <==> inconsistent != {} by {
      if Inconsistent(table) {
        var ch :| ch in table && |table[ch]| > 1;
        assert ch in inconsistent;
      }
      if inconsistent != {} {
        var ch := OneOf(inconsistent);
      }
    }
    passed := details == 0;
  }

  // Check 8 ---------------------------------------------------------------------------

  /** The repeat of the last sending IO of each tile, as the dictionary keeps it. */
  function LastRepeats(ios: seq<Io>): map<Tile, int> {
    if ios == [] then map[]
    else
      var io := ios[|ios| - 1];
      var before := LastRepeats(ios[..|ios| - 1]);
      if Sends(io) then before[io.loc.value := io.repeat.value] else before
  }

  predicate TileLess(a: Tile, b: Tile) {
    a.col < b.col || (a.col == b.col && a.row < b.row)
  }

  lemma TileOrder(a: Tile, b: Tile)
    ensures TileLess(a, b) || TileLess(b, a) || a == b
  {
  }

  predicate IsFirst(t: Tile, tiles: set<Tile>) {
    t in tiles && forall u :: u in tiles ==> t == u || TileLess(t, u)
  }

  lemma FirstOfMore(first: Tile, tiles: set<Tile>, t: Tile)
    requires IsFirst(first, tiles)
    ensures IsFirst(if TileLess(t, first) then t else first, tiles + {t})
  {
    TileOrder(t, first);
    forall u | u in tiles
      ensures TileLess(t, first) ==> t == u || TileLess(t, u)
    {
      assert first == u || TileLess(first, u);
    }
  }

  method FirstTile(tiles: set<Tile>) returns (first: Tile)
    requires tiles != {}
    ensures IsFirst(first, tiles)
    ensures forall u :: u in tiles ==> first.col <= u.col && (first.col == u.col ==> first.row <= u.row)
  {
    first :| first in tiles;
    var rest := tiles - {first};
    assert tiles - rest == {first};
    while rest != {}
      invariant rest <= tiles && first in tiles && IsFirst(first, tiles - rest)
      decreases |rest|
    {
      var t :| t in rest;
      FirstOfMore(first, tiles - rest, t);
      assert tiles - (rest - {t}) == tiles - rest + {t};
      if TileLess(t, first) {
        first := t;
      }
      rest := rest - {t};
    }
  }

  /** The representative tile matches, and all tiles agree with each other. */
  ghost predicate RepresentativePasses(repeats: map<Tile, int>, rounds: Option<int>) {
    && (rounds.Some? ==> forall t :: IsFirst(t, repeats.Keys) ==> repeats[t] == rounds.value)
    && (forall t, u :: t in repeats && u in repeats ==> repeats[t] == repeats[u])
  }

  method Check8(ios: seq<Io>, rounds: Option<int>) returns (passed: bool)
    ensures passed <==> RepresentativePasses(LastRepeats(ios), rounds)
  {
    var repeats: map<Tile, int> := map[];
    for i := 0 to |ios|
      invariant repeats == LastRepeats(ios[..i])
    {
      assert ios[..i + 1][..i] == ios[..i];
      if Sends(ios[i]) {
        repeats := repeats[ios[i].loc.value := ios[i].repeat.value];
      }
    }
    assert ios[..|ios|] == ios;
    passed := true;
    if rounds.Some? && repeats.Keys != {} {
      var first := FirstTile(repeats.Keys);
      assert forall t :: IsFirst(t, repeats.Keys) ==> t == first;
      passed := repeats[first] == rounds.value;
    }
    var unique := set t | t in repeats :: repeats[t];
    UniformExactly(repeats, unique);
    if |unique| > 1 {
      passed := false;
    }
  }

  lemma UniformExactly(repeats: map<Tile, int>, unique: set<int>)
    requires unique == set t | t in repeats :: repeats[t]
    ensures |unique| > 1 <==> !(forall t, u :: t in repeats && u in repeats ==> repeats[t] == repeats[u])
  {
    if |unique| > 1 {
      var a, b := TwoOf(unique);
    }
    if t, u :| t in repeats && u in repeats && repeats[t] != repeats[u] {
      AtLeastTwo(unique, repeats[t], repeats[u]);
    }
  }

  // How they relate ---------------------------------------------------------------------

  /** A sending IO that no later sending IO of its tile hides. */
  ghost predicate IsLast(ios: seq<Io>, i: int) {
    0 <= i < |ios| && Sends(ios[i]) && forall j :: i < j < |ios| && Sends(ios[j]) ==> ios[j].loc != ios[i].loc
  }

  lemma {:induction false} LastRepeatsAreLast(ios: seq<Io>, t: Tile)
    ensures t in LastRepeats(ios) <==> exists i :: IsLast(ios, i) && ios[i].loc == Some(t)
    ensures forall i :: IsLast(ios, i) && ios[i].loc == Some(t) ==>
              t in LastRepeats(ios) && LastRepeats(ios)[t] == ios[i].repeat.value
  {
    if ios != [] {
      var n := |ios| - 1;
      var front := ios[..n];
      LastRepeatsAreLast(front, t);
      if Sends(ios[n]) && ios[n].loc == Some(t) {
        assert IsLast(ios, n);
      } else {
        forall i
          ensures IsLast(ios, i) && ios[i].loc == Some(t) <==> IsLast(front, i) && front[i].loc == Some(t)
        {
        }
        if t in LastRepeats(front) {
          var i :| IsLast(front, i) && front[i].loc == Some(t);
          assert IsLast(ios, i) && ios[i].loc == Some(t);
        }
      }
    }
  }

  lemma {:induction false} HasFirst(tiles: set<Tile>) returns (first: Tile)
    requires tiles != {}
    ensures IsFirst(first, tiles)
  {
    var t :| t in tiles;
    if tiles == {t} {
      first := t;
    } else {
      assert tiles - {t} != {};
      var rest := HasFirst(tiles - {t});
      FirstOfMore(rest, tiles - {t}, t);
      assert tiles - {t} + {t} == tiles;
      first := if TileLess(t, rest) then t else rest;
    }
  }

  /** With known rounds, check 8 passes exactly when the last sending IO of every tile has that repeat. */
  lemma Check8Exactly(ios: seq<Io>, n: int)
    ensures RepresentativePasses(LastRepeats(ios), Some(n)) <==> forall i :: IsLast(ios, i) ==> ios[i].repeat == Some(n)
  {
    var repeats := LastRepeats(ios);
    if RepresentativePasses(repeats, Some(n)) {
      forall i | IsLast(ios, i)
        ensures ios[i].repeat == Some(n)
      {
        LastRepeatsAreLast(ios, ios[i].loc.value);
        var first := HasFirst(repeats.Keys);
      }
    }
    if forall i :: IsLast(ios, i) ==> ios[i].repeat == Some(n) {
      forall t | t in repeats
        ensures repeats[t] == n
      {
        LastRepeatsAreLast(ios, t);
      }
    }
  }

  /** With known rounds, check 4 passing implies check 8 passing. */
  lemma Check4ImpliesCheck8(ios: seq<Io>, n: int)
    requires SendersMatch(ios, Some(n))
    ensures RepresentativePasses(LastRepeats(ios), Some(n))
  {
    Check8Exactly(ios, n);
  }

  /** The MM2S part of check 4 is check 8 plus the IOs that a later one on the same tile hides. */
  lemma Check4IsCheck8AndHidden(ios: seq<Io>, n: int)
    ensures SendersMatch(ios, Some(n)) <==>
            RepresentativePasses(LastRepeats(ios), Some(n))
            && forall i :: 0 <= i < |ios| && Sends(ios[i]) && !IsLast(ios, i) ==> ios[i].repeat == Some(n)
  {
    Check8Exactly(ios, n);
  }

  ghost predicate OneSenderPerTile(ios: seq<Io>) {
    forall i, j :: 0 <= i < j < |ios| && Sends(ios[i]) && Sends(ios[j]) ==> ios[i].loc != ios[j].loc
  }

  /** If no tile has two sending IOs, one representative tile plus uniformity is enough. */
  lemma RepresentativeIsEnough(ios: seq<Io>, n: int)
    requires OneSenderPerTile(ios) && RepresentativePasses(LastRepeats(ios), Some(n))
    ensures SendersMatch(ios, Some(n))
  {
    Check4IsCheck8AndHidden(ios, n);
  }

  /** Two sending IOs on a tile, the first one wrong: check 8 does not see it. */
  lemma HiddenSenderMissed()
    ensures var t := Some(Tile(4, 4));
            var ios := [Io(t, MM2S, 0, Some(1)), Io(t, MM2S, 1, Some(8))];
            RepresentativePasses(LastRepeats(ios), Some(8)) && !SendersMatch(ios, Some(8))
  {
    var t := Some(Tile(4, 4));
    var ios := [Io(t, MM2S, 0, Some(1)), Io(t, MM2S, 1, Some(8))];
    assert Sends(ios[0]) && Sends(ios[1]) && ios[0].repeat != Some(8);
    Check8Exactly(ios, 8);
  }

  /** Without known rounds check 8 passes exactly when the last senders of all tiles agree. */
  lemma Check8UnknownExactly(ios: seq<Io>)
    ensures RepresentativePasses(LastRepeats(ios), None) <==>
            forall i, j :: IsLast(ios, i) && IsLast(ios, j) ==> ios[i].repeat == ios[j].repeat
  {
    var repeats := LastRepeats(ios);
    forall i | IsLast(ios, i)
      ensures ios[i].loc.value in repeats && Some(repeats[ios[i].loc.value]) == ios[i].repeat
    {
      LastRepeatsAreLast(ios, ios[i].loc.value);
    }
    forall t | t in repeats
      ensures exists i :: IsLast(ios, i) && ios[i].loc == Some(t)
    {
      LastRepeatsAreLast(ios, t);
    }
  }

  /** It then asks for more than check 4, which ignores the senders. */
  lemma UnknownRoundsDiffer()
    ensures var ios := [Io(Some(Tile(4, 4)), MM2S, 0, Some(1)), Io(Some(Tile(5, 4)), MM2S, 0, Some(8))];
            SendersMatch(ios, None) && ReceiversAgree(ios) && !RepresentativePasses(LastRepeats(ios), None)
  {
    var ios := [Io(Some(Tile(4, 4)), MM2S, 0, Some(1)), Io(Some(Tile(5, 4)), MM2S, 0, Some(8))];
    assert IsLast(ios, 0) && IsLast(ios, 1);
    Check8UnknownExactly(ios);
  }

  // Which IOs count ------------------------------------------------------------------------

  /** One started MM2S channel: its repeat counts exactly in the core rows, 3 and above. */
  lemma CoreRowsCount(t: Tile, ch: int, r: int, n: int)
    ensures SendersMatch([Io(Some(t), MM2S, ch, Some(r))], Some(n)) <==> t.row < 3 || r == n
    ensures RepresentativePasses(LastRepeats([Io(Some(t), MM2S, ch, Some(r))]), Some(n)) <==> t.row < 3 || r == n
  {
    var ios := [Io(Some(t), MM2S, ch, Some(r))];
    assert Sends(ios[0]) <==> t.row >= 3;
    assert IsLast(ios, 0) <==> t.row >= 3;
    Check8Exactly(ios, n);
  }

  /** Two started S2MM channels disagree exactly if they are one channel of the core rows with two repeats. */
  lemma CoreRowsAgree(t: Tile, u: Tile, ch: int, ch': int, r: int, r': int)
    ensures ReceiversAgree([Io(Some(t), S2MM, ch, Some(r)), Io(Some(u), S2MM, ch', Some(r'))])
            <==> !(t.row >= 3 && u.row >= 3 && ch == ch' && r != r')
  {
    var ios := [Io(Some(t), S2MM, ch, Some(r)), Io(Some(u), S2MM, ch', Some(r'))];
    assert forall c, q :: ReceivesAs(ios, 0, c, q) <==> t.row >= 3 && c == ch && q == r;
    assert forall c, q :: ReceivesAs(ios, 1, c, q) <==> u.row >= 3 && c == ch' && q == r';
    assert ReceivesAs(ios, 0, ch, r) <==> t.row >= 3;
    assert ReceivesAs(ios, 1, ch', r') <==> u.row >= 3;
    forall i, c, q | ReceivesAs(ios, i, c, q)
      ensures (i == 0 && t.row >= 3 && c == ch && q == r) || (i == 1 && u.row >= 3 && c == ch' && q == r')
    {
    }
  }

  /** What has no tile, is not started or goes the other way does not count. */
  lemma OthersDoNotCount(io: Io, n: int)
    requires io.loc.None? || io.repeat.None? || io.direction == S2MM
    ensures SendersMatch([io], Some(n)) && RepresentativePasses(LastRepeats([io]), Some(n))
  {
    Check8Exactly([io], n);
  }
}
