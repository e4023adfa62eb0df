/**
 * Buffer-descriptor chains: the pre-hardware checker follows `next_bd` through a
 * dictionary of the tile's descriptors, and the visualiser's flow tagger through a
 * linear search. The first goes by tile variable, the second by tile location. Both
 * must agree on which descriptors a channel uses.
 */
module BdChain {
  import opened Basics
  import opened Tiles
  import opened SetFacts

  /**
   * A parsed descriptor: its own variable, the tile variable it was configured with,
   * where that tile is, its id and its successor. Buffer and length are not needed:
   * the readers keep descriptors in dictionaries by `name`, so `name` tells them apart.
   */
  datatype Bd = Bd(name: string, tile: string, loc: Tile, id: int, next: int)

  /** The values of such a dictionary: equal ones are one descriptor. */
  ghost predicate DistinctNames(bds: seq<Bd>) {
    forall i, j :: 0 <= i < j < |bds| ==> bds[i].name != bds[j].name
  }

  type ById = map<int, Bd>

  // The checker -----------------------------------------------------------------------

  /** The dictionary comprehension: a later descriptor with the same id replaces an earlier one. */
  function Dictionary(bds: seq<Bd>, tile: string): (r: ById)
    ensures forall id :: id in r ==> r[id] in bds && r[id].id == id && r[id].tile == tile
    ensures forall i :: 0 <= i < |bds| && bds[i].tile == tile ==> bds[i].id in r
  {
    if bds == [] then map[]
    else
      var last := bds[|bds| - 1];
      var before := Dictionary(bds[..|bds| - 1], tile);
      if last.tile == tile then before[last.id := last] else before
  }

  /** No later descriptor of the tile has the id of descriptor `i`. */
  ghost predicate IsLastOf(bds: seq<Bd>, tile: string, i: int) {
    && 0 <= i < |bds| && bds[i].tile == tile
    && forall j :: i < j < |bds| ==> !SameId(bds[i], bds[j])
  }

  predicate SameId(a: Bd, b: Bd) {
    a.tile == b.tile && a.id == b.id
  }

  lemma LastInFront(bds: seq<Bd>, tile: string, i: nat)
    requires IsLastOf(bds, tile, i) && i < |bds| - 1
    ensures IsLastOf(bds[..|bds| - 1], tile, i) && !SameId(bds[i], bds[|bds| - 1])
  {
  }

  lemma DictionaryStep(bds: seq<Bd>, tile: string, id: int)
    requires bds != []
    ensures var last, before := bds[|bds| - 1], Dictionary(bds[..|bds| - 1], tile);
            Value(Dictionary(bds, tile), id)
            == if last.tile == tile && last.id == id then Some(last) else Value(before, id)
  {
  }

  function Value(byId: ById, id: int): Option<Bd> {
    if id in byId then Some(byId[id]) else None
  }

  /** The dictionary keeps the last descriptor of each id. */
  lemma {:induction false} DictionaryKeepsLast(bds: seq<Bd>, tile: string, i: nat)
    requires IsLastOf(bds, tile, i)
    ensures Value(Dictionary(bds, tile), bds[i].id) == Some(bds[i])
  {
    DictionaryStep(bds, tile, bds[i].id);
    if i < |bds| - 1 {
      LastInFront(bds, tile, i);
      DictionaryKeepsLast(bds[..|bds| - 1], tile, i);
    }
  }

  /** The chain from `id` that avoids the ids in `visited`. */
  function ChainFrom(byId: ById, id: int, visited: set<int>): seq<Bd>
    decreases byId.Keys - visited
  {
    if id < 0 || id in visited || id !in byId then []
    else
      assert id in byId.Keys - visited && id !in byId.Keys - (visited + {id});
      [byId[id]] + ChainFrom(byId, byId[id].next, visited + {id})
  }

  /** `get_bd_chain`. */
  method GetBdChain(bds: seq<Bd>, tile: string, start: int) returns (chain: seq<Bd>)
    ensures chain == ChainFrom(Dictionary(bds, tile), start, {})
  {
    var byId := Dictionary(bds, tile);
    chain := [];
    var visited: set<int> := {};
    var id := start;
    while id >= 0 && id !in visited && id in byId
      invariant chain + ChainFrom(byId, id, visited) == ChainFrom(byId, start, {})
      decreases byId.Keys - visited
    {
      assert id in byId.Keys - visited;
      visited := visited + {id};
      chain := chain + [byId[id]];
      id := byId[id].next;
    }
  }

  // What a chain is ---------------------------------------------------------------------

  /** `c` follows the orbit of `id` under `next`, for as long as `c` goes. */
  predicate FollowsOrbit(byId: ById, id: int, c: seq<Bd>)
    decreases |c|
  {
    c == [] || (id >= 0 && id in byId && c[0] == byId[id] && FollowsOrbit(byId, byId[id].next, c[1..]))
  }

  /** The ids the orbit of `id` stands at along `c`. */
  function OrbitIds(id: int, c: seq<Bd>): seq<int>
    decreases |c|
  {
    if c == [] then [] else [id] + OrbitIds(c[0].next, c[1..])
  }

  /** The id reached after `c`. */
  function IdAfter(id: int, c: seq<Bd>): int
    decreases |c|
  {
    if c == [] then id else IdAfter(c[0].next, c[1..])
  }

  predicate Avoids(ids: seq<int>, visited: set<int>) {
    forall i :: i in ids ==> i !in visited
  }

  /** The chain follows the orbit and repeats nothing, neither itself nor `visited`. */
  lemma {:induction false} ChainFollowsOrbit(byId: ById, id: int, visited: set<int>)
    ensures var c := ChainFrom(byId, id, visited);
            FollowsOrbit(byId, id, c) && Distinct(OrbitIds(id, c)) && Avoids(OrbitIds(id, c), visited)
    decreases byId.Keys - visited
  {
    if id >= 0 && id !in visited && id in byId {
      assert id in byId.Keys - visited && id !in byId.Keys - (visited + {id});
      ChainFollowsOrbit(byId, byId[id].next, visited + {id});
      var rest := ChainFrom(byId, byId[id].next, visited + {id});
      var c := [byId[id]] + rest;
      assert c[1..] == rest;
      assert OrbitIds(id, c) == [id] + OrbitIds(byId[id].next, rest);
      DistinctCons(id, OrbitIds(byId[id].next, rest));
    }
  }

  /** It stops only at a negative, undefined or repeated id. */
  lemma {:induction false} ChainStopsThere(byId: ById, id: int, visited: set<int>)
    ensures var c := ChainFrom(byId, id, visited);
            var end := IdAfter(id, c);
            end < 0 || end !in byId || end in visited || end in OrbitIds(id, c)
    decreases byId.Keys - visited
  {
    if id >= 0 && id !in visited && id in byId {
      assert id in byId.Keys - visited && id !in byId.Keys - (visited + {id});
      ChainStopsThere(byId, byId[id].next, visited + {id});
      var rest := ChainFrom(byId, byId[id].next, visited + {id});
      assert ([byId[id]] + rest)[1..] == rest;
    }
  }

  /** Any walk along the orbit that repeats nothing is a prefix of the chain: the chain is the longest one. */
  lemma {:induction false} ChainIsLongest(byId: ById, id: int, visited: set<int>, c: seq<Bd>)
    requires FollowsOrbit(byId, id, c) && Distinct(OrbitIds(id, c)) && Avoids(OrbitIds(id, c), visited)
    ensures c <= ChainFrom(byId, id, visited)
    decreases |c|
  {
    if c != [] {
      var ids := OrbitIds(id, c);
      assert ids == [id] + OrbitIds(c[0].next, c[1..]);
      DistinctCons(id, OrbitIds(c[0].next, c[1..]));
      assert id in ids;
      assert id in byId.Keys - visited;
      ChainIsLongest(byId, c[0].next, visited + {id}, c[1..]);
      assert c == [c[0]] + c[1..];
    }
  }

  // The flow tagger -----------------------------------------------------------------------

  /** The visualiser's reader turns a `next_bd` outside 0..65535 into -1. */
  function Normalised(next: int): int {
    if next < 0 || next > 65535 then -1 else next
  }

  /** The first descriptor at the location with the given id. */
  function Find(bds: seq<Bd>, loc: Tile, id: int): (r: Option<int>)
    ensures r.Some? ==> 0 <= r.value < |bds| && bds[r.value].loc == loc && bds[r.value].id == id
    ensures r.Some? ==> forall i :: 0 <= i < r.value ==> !(bds[i].loc == loc && bds[i].id == id)
    ensures r.None? ==> forall i :: 0 <= i < |bds| ==> !(bds[i].loc == loc && bds[i].id == id)
  {
    if bds == [] then None
    else if bds[0].loc == loc && bds[0].id == id then Some(0)
    else
      var r := Find(bds[1..], loc, id);
      if r.Some? then Some(r.value + 1) else None
  }

  function Ids(bds: seq<Bd>): (r: set<int>)
    ensures forall i :: 0 <= i < |bds| ==> bds[i].id in r
  {
    if bds == [] then {} else {bds[0].id} + Ids(bds[1..])
  }

  /** The descriptors tagged after one whose next is `next`. */
  function TaggedFrom(bds: seq<Bd>, loc: Tile, next: int, visited: set<int>): seq<Bd>
    decreases Ids(bds) - visited
  {
    if next < 0 || next in visited then []
    else
      var k := Find(bds, loc, next);
      if k.None? then []
      else
        assert next in Ids(bds) - visited && next !in Ids(bds) - (visited + {next});
        [bds[k.value]] + TaggedFrom(bds, loc, Normalised(bds[k.value].next), visited + {next})
  }

  /** The descriptors that get the flow id of an IO whose descriptor is `bds[first]`. */
  method TagChain(bds: seq<Bd>, first: nat) returns (tagged: seq<Bd>)
    requires first < |bds|
    ensures tagged == [bds[first]] + TaggedFrom(bds, bds[first].loc, Normalised(bds[first].next), {bds[first].id})
  {
    var bd := bds[first];
    tagged := [bd];
    var visited := {bd.id};
    ghost var loc := bd.loc;
    while Normalised(bd.next) >= 0 && Normalised(bd.next) !in visited
      invariant bd.loc == loc
      invariant tagged + TaggedFrom(bds, loc, Normalised(bd.next), visited)
             == [bds[first]] + TaggedFrom(bds, loc, Normalised(bds[first].next), {bds[first].id})
      decreases Ids(bds) - visited
    {
      var next := Normalised(bd.next);
      var k := Find(bds, bd.loc, next);
      if k.None? {
        break;
      }
      assert next in Ids(bds) - visited;
      visited := visited + {next};
      bd := bds[k.value];
      tagged := tagged + [bd];
    }
  }

  // Agreement -----------------------------------------------------------------------------

  /** The tagger finds `bd`: its id is in the range it reads, and no earlier descriptor at the location has it. */
  predicate IsFound(bds: seq<Bd>, loc: Tile, bd: Bd) {
    var k := Find(bds, loc, bd.id);
    0 <= bd.id <= 65535 && k.Some? && bds[k.value] == bd
  }

  /** The tagger stops at `id`: it does not read it, has been there, or finds nothing. */
  predicate Stops(bds: seq<Bd>, loc: Tile, id: int, visited: set<int>) {
    Normalised(id) < 0 || id in visited || Find(bds, loc, id).None?
  }

  /** The tagger finds every descriptor of `chain`, which starts at `next`, and stops where it ends. */
  predicate Retraced(bds: seq<Bd>, loc: Tile, next: int, visited: set<int>, chain: seq<Bd>)
    decreases |chain|
  {
    if chain == [] then Stops(bds, loc, next, visited)
    else IsFound(bds, loc, chain[0]) && Retraced(bds, loc, chain[0].next, visited + {next}, chain[1..])
  }

  lemma SameHead(bd: Bd, s: seq<Bd>, t: seq<Bd>)
    ensures [bd] + s == [bd] + t <==> s == t
  {
    assert ([bd] + s)[1..] == s && ([bd] + t)[1..] == t;
  }

  /** The two walks are the same exactly when the tagger retraces the checker's. */
  lemma {:induction false} WalksAgreeExactly(bds: seq<Bd>, tile: string, loc: Tile, next: int, visited: set<int>)
    ensures var chain := ChainFrom(Dictionary(bds, tile), next, visited);
            TaggedFrom(bds, loc, Normalised(next), visited) == chain <==> Retraced(bds, loc, next, visited, chain)
    decreases Ids(bds) - visited
  {
    var byId := Dictionary(bds, tile);
    if next >= 0 && next !in visited && next in byId {
      var bd, rest := byId[next], ChainFrom(byId, byId[next].next, visited + {next});
      assert ([bd] + rest)[1..] == rest;
      var k := Find(bds, loc, next);
      if next <= 65535 && k.Some? && bds[k.value] == bd {
        assert next in Ids(bds) - visited && next !in Ids(bds) - (visited + {next});
        WalksAgreeExactly(bds, tile, loc, bd.next, visited + {next});
        SameHead(bd, TaggedFrom(bds, loc, Normalised(bd.next), visited + {next}), rest);
      } else {
        assert ChainFrom(byId, next, visited)[0] == bd;
      }
    }
  }

  /** The ids the orbit of `id` stands at along `c`. */
  function OrbitSet(id: int, c: seq<Bd>): set<int> {
    set i | i in OrbitIds(id, c)
  }

  lemma {:induction false} RetracedExactly(bds: seq<Bd>, loc: Tile, next: int, visited: set<int>, chain: seq<Bd>)
    ensures Retraced(bds, loc, next, visited, chain) <==>
            && (forall k :: 0 <= k < |chain| ==> IsFound(bds, loc, chain[k]))
            && Stops(bds, loc, IdAfter(next, chain), visited + OrbitSet(next, chain))
    decreases |chain|
  {
    if chain == [] {
      assert OrbitSet(next, chain) == {} && visited + {} == visited;
    } else {
      var rest := chain[1..];
      RetracedExactly(bds, loc, chain[0].next, visited + {next}, rest);
      assert OrbitSet(next, chain) == {next} + OrbitSet(chain[0].next, rest);
      assert visited + {next} + OrbitSet(chain[0].next, rest) == visited + OrbitSet(next, chain);
      assert forall k :: 0 < k < |chain| ==> chain[k] == rest[k - 1];
      assert forall k :: 0 <= k < |rest| ==> rest[k] == chain[k + 1];
    }
  }

  /** The tagger starts where the chain starts, finds every later descriptor of it, and stops where it ends. */
  ghost predicate FindsChain(bds: seq<Bd>, bd: Bd, chain: seq<Bd>) {
    && chain != [] && chain[0] == bd
    && (forall k :: 1 <= k < |chain| ==> IsFound(bds, bd.loc, chain[k]))
    && Stops(bds, bd.loc, IdAfter(bd.id, chain), OrbitSet(bd.id, chain))
  }

  lemma FindsChainByRest(bds: seq<Bd>, bd: Bd, rest: seq<Bd>)
    ensures FindsChain(bds, bd, [bd] + rest) <==> Retraced(bds, bd.loc, bd.next, {bd.id}, rest)
  {
    var chain := [bd] + rest;
    RetracedExactly(bds, bd.loc, bd.next, {bd.id}, rest);
    assert chain[1..] == rest;
    assert OrbitSet(bd.id, chain) == {bd.id} + OrbitSet(bd.next, rest);
    assert forall k :: 0 <= k < |rest| ==> rest[k] == chain[k + 1];
    assert forall k :: 1 <= k < |chain| ==> chain[k] == rest[k - 1];
  }

  /**
   * For all descriptors: the tagger marks exactly the checker's chain, in the same
   * order, if and only if the chain starts at the tagger's first descriptor, every
   * later descriptor of it is the first at the location with its id and the id is in
   * the tagger's range, and the id where it ends is none the tagger goes on to.
   */
  lemma TaggerMatchesExactly(bds: seq<Bd>, first: nat)
    requires first < |bds|
    ensures var bd := bds[first];
            var chain := ChainFrom(Dictionary(bds, bd.tile), bd.id, {});
            [bd] + TaggedFrom(bds, bd.loc, Normalised(bd.next), {bd.id}) == chain <==> FindsChain(bds, bd, chain)
  {
    var bd := bds[first];
    var byId := Dictionary(bds, bd.tile);
    var rest := ChainFrom(byId, bd.next, {bd.id});
    var tagged := TaggedFrom(bds, bd.loc, Normalised(bd.next), {bd.id});
    WalksAgreeExactly(bds, bd.tile, bd.loc, bd.next, {bd.id});
    HeadAndRest(byId, bd, tagged);
    FindsChainByRest(bds, bd, rest);
    ChainFromHead(byId, bd);
  }

  /** A chain that has `bd` at its head goes on from its successor. */
  lemma ChainFromHead(byId: ById, bd: Bd)
    requires bd.id in byId
    ensures var chain := ChainFrom(byId, bd.id, {});
            chain != [] && chain[0] == bd <==>
            bd.id >= 0 && bd == byId[bd.id] && chain == [bd] + ChainFrom(byId, bd.next, {bd.id})
  {
    assert {} + {bd.id} == {bd.id};
  }

  lemma HeadAndRest(byId: ById, bd: Bd, rest: seq<Bd>)
    requires bd.id in byId
    ensures [bd] + rest == ChainFrom(byId, bd.id, {}) <==>
            bd.id >= 0 && bd == byId[bd.id] && rest == ChainFrom(byId, bd.next, {bd.id})
  {
    if bd.id >= 0 {
      var chain := ChainFrom(byId, bd.id, {});
      assert {} + {bd.id} == {bd.id};
      assert chain == [byId[bd.id]] + ChainFrom(byId, byId[bd.id].next, {bd.id});
      assert chain[0] == byId[bd.id] && ([bd] + rest)[0] == bd;
      assert chain[1..] == ChainFrom(byId, byId[bd.id].next, {bd.id}) && ([bd] + rest)[1..] == rest;
    }
  }

  /** One variable for the tile, no id twice on it, and every successor on it in the range the tagger reads. */
  ghost predicate Orderly(bds: seq<Bd>, tile: string, loc: Tile) {
    && (forall i :: 0 <= i < |bds| ==> (bds[i].tile == tile <==> bds[i].loc == loc))
    && (forall i :: 0 <= i < |bds| && bds[i].loc == loc ==> bds[i].next <= 65535)
    && (forall i, j :: 0 <= i < j < |bds| && bds[i].loc == loc && bds[j].loc == loc ==> bds[i].id != bds[j].id)
  }

  /** Then first match and last write are the same descriptor. */
  lemma LookupsAgree(bds: seq<Bd>, tile: string, loc: Tile, id: int)
    requires Orderly(bds, tile, loc)
    ensures Find(bds, loc, id).Some? <==> id in Dictionary(bds, tile)
    ensures id in Dictionary(bds, tile) ==> bds[Find(bds, loc, id).value] == Dictionary(bds, tile)[id]
  {
    var byId := Dictionary(bds, tile);
    if id in byId {
      var i :| 0 <= i < |bds| && bds[i] == byId[id];
    }
  }

  lemma {:induction false} OrderlyIsRetraced(bds: seq<Bd>, tile: string, loc: Tile, next: int, visited: set<int>)
    requires Orderly(bds, tile, loc) && next <= 65535
    ensures Retraced(bds, loc, next, visited, ChainFrom(Dictionary(bds, tile), next, visited))
    decreases Ids(bds) - visited
  {
    var byId := Dictionary(bds, tile);
    LookupsAgree(bds, tile, loc, next);
    if next >= 0 && next !in visited && next in byId {
      var bd, rest := byId[next], ChainFrom(byId, byId[next].next, visited + {next});
      assert ([bd] + rest)[1..] == rest;
      var i :| 0 <= i < |bds| && bds[i] == bd;
      assert next in Ids(bds) - visited && next !in Ids(bds) - (visited + {next});
      OrderlyIsRetraced(bds, tile, loc, bd.next, visited + {next});
    }
  }

  /** So the two always agree on orderly descriptors. */
  lemma TaggerMatchesChecker(bds: seq<Bd>, first: nat)
    requires first < |bds| && bds[first].id >= 0 && Orderly(bds, bds[first].tile, bds[first].loc)
    ensures var bd := bds[first];
            [bd] + TaggedFrom(bds, bd.loc, Normalised(bd.next), {bd.id})
            == ChainFrom(Dictionary(bds, bd.tile), bd.id, {})
  {
    var bd := bds[first];
    var byId := Dictionary(bds, bd.tile);
    LookupsAgree(bds, bd.tile, bd.loc, bd.id);
    OrderlyIsRetraced(bds, bd.tile, bd.loc, bd.next, {bd.id});
    WalksAgreeExactly(bds, bd.tile, bd.loc, bd.next, {bd.id});
    HeadAndRest(byId, bd, TaggedFrom(bds, bd.loc, Normalised(bd.next), {bd.id}));
  }

  /** With a repeated id they differ, whatever the successors: the tagger takes the first descriptor 1, the
      checker the last. */
  lemma RepeatedIdsDiffer(next: int, next': int)
    ensures var t := Tile(4, 4);
            var bds := [Bd("x", "a", t, 0, 1), Bd("y", "a", t, 1, next), Bd("z", "a", t, 1, next')];
            DistinctNames(bds) && [bds[0]] + TaggedFrom(bds, t, 1, {0}) != ChainFrom(Dictionary(bds, "a"), 0, {})
  {
    var t := Tile(4, 4);
    var bds := [Bd("x", "a", t, 0, 1), Bd("y", "a", t, 1, next), Bd("z", "a", t, 1, next')];
    var byId := Dictionary(bds, "a");
    assert bds[1..] == [bds[1], bds[2]];
    assert Find(bds, t, 1) == Some(1);
    assert bds[..2][..1] == [bds[0]] && bds[..1][..0] == [];
    assert byId[1] == bds[2] && byId[0] == bds[0];
    assert ChainFrom(byId, 1, {0})[0] == bds[2];
    assert TaggedFrom(bds, t, 1, {0})[0] == bds[1];
    HeadAndRest(byId, bds[0], TaggedFrom(bds, t, 1, {0}));
  }

  /** With two variables for one tile they differ even when no id is repeated: the checker does not see the
      second one's. */
  lemma TwoVariablesDiffer()
    ensures var t := Tile(4, 4);
            var bds := [Bd("x", "a", t, 0, 1), Bd("y", "b", t, 1, -1)];
            DistinctNames(bds) && [bds[0]] + TaggedFrom(bds, t, 1, {0}) != ChainFrom(Dictionary(bds, "a"), 0, {})
  {
    var t := Tile(4, 4);
    var bds := [Bd("x", "a", t, 0, 1), Bd("y", "b", t, 1, -1)];
    var byId := Dictionary(bds, "a");
    assert bds[1..] == [bds[1]] && bds[..1] == [bds[0]] && bds[..1][..0] == [];
    assert Find(bds, t, 1) == Some(1);
    assert 1 !in byId && byId[0] == bds[0];
    assert TaggedFrom(bds, t, 1, {0})[0] == bds[1];
    HeadAndRest(byId, bds[0], TaggedFrom(bds, t, 1, {0}));
  }
}
