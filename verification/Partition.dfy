/**
 * `module.partition()`: turning assignments of model regions into a placement of
 * TVM layers. Several regions can share a layer, and a layer moves as a whole.
 */
module Partition {
  import opened Basics
  import opened SetFacts

  datatype Backend = Cpu | Aie(kernel: string)

  /** A weighted op of the model; `layer` is None when no TVM call carries its weights. */
  datatype Region = Region(name: string, layer: Option<int>)

  /** One entry of the assignment dictionary. */
  datatype Request = Request(region: Region, backend: Backend)

  /** Whether a region meets the op and the constraints of a registered kernel. */
  type Contract = (string, Region) -> bool

  /** `check_region` finds nothing: the contract holds and the region has a layer. */
  predicate Passes(contract: Contract, q: Request) {
    q.backend.Aie? && contract(q.backend.kernel, q.region) && q.region.layer.Some?
  }

  ghost predicate DistinctNames(reqs: seq<Request>) {
    forall i, j :: 0 <= i < j < |reqs| ==> reqs[i].region.name != reqs[j].region.name
  }

  // Requests by layer -------------------------------------------------------------------

  function AtLayer(m: map<int, seq<Request>>, layer: int): seq<Request> {
    if layer in m then m[layer] else []
  }

  function ByLayer(reqs: seq<Request>): map<int, seq<Request>> {
    if reqs == [] then map[]
    else
      var q := reqs[|reqs| - 1];
      var before := ByLayer(reqs[..|reqs| - 1]);
      if q.region.layer.Some? then
        before[q.region.layer.value := AtLayer(before, q.region.layer.value) + [q]]
      else before
  }

  lemma {:induction false} ByLayerExactly(reqs: seq<Request>, layer: int, q: Request)
    ensures q in AtLayer(ByLayer(reqs), layer) <==> q in reqs && q.region.layer == Some(layer)
    ensures layer in ByLayer(reqs) ==> AtLayer(ByLayer(reqs), layer) != []
  {
    if reqs != [] {
      var n := |reqs| - 1;
      ByLayerExactly(reqs[..n], layer, q);
      assert reqs == reqs[..n] + [reqs[n]];
    }
  }

  method CollectByLayer(reqs: seq<Request>) returns (m: map<int, seq<Request>>)
    ensures m == ByLayer(reqs)
  {
    m := map[];
    for i := 0 to |reqs|
      invariant m == ByLayer(reqs[..i])
    {
      assert reqs[..i + 1][..i] == reqs[..i];
      if reqs[i].region.layer.Some? {
        var layer := reqs[i].region.layer.value;
        m := m[layer := AtLayer(m, layer) + [reqs[i]]];
      }
    }
    assert reqs[..|reqs|] == reqs;
  }

  /** Two requests for the layer name different backends. */
  ghost predicate Disagree(reqs: seq<Request>, layer: int) {
    exists p, q :: Both(reqs, layer, p, q) && p.backend != q.backend
  }

  predicate Both(reqs: seq<Request>, layer: int, p: Request, q: Request) {
    p in reqs && q in reqs && p.region.layer == Some(layer) && q.region.layer == Some(layer)
  }

  function Backends(group: seq<Request>): (r: set<Backend>)
    ensures forall b :: b in r <==> exists i :: 0 <= i < |group| && group[i].backend == b
  {
    set i | 0 <= i < |group| :: group[i].backend
  }

  lemma ConflictExactly(reqs: seq<Request>, layer: int)
    ensures |Backends(AtLayer(ByLayer(reqs), layer))| > 1 <==> Disagree(reqs, layer)
  {
    var group := AtLayer(ByLayer(reqs), layer);
    if |Backends(group)| > 1 {
      var a, b := TwoOf(Backends(group));
      var i :| 0 <= i < |group| && group[i].backend == a;
      var j :| 0 <= j < |group| && group[j].backend == b;
      ByLayerExactly(reqs, layer, group[i]);
      ByLayerExactly(reqs, layer, group[j]);
      assert Both(reqs, layer, group[i], group[j]);
    }
    if p, q :| Both(reqs, layer, p, q) && p.backend != q.backend {
      ByLayerExactly(reqs, layer, p);
      ByLayerExactly(reqs, layer, q);
      AtLeastTwo(Backends(group), p.backend, q.backend);
    }
  }

  // Failures before any gate ---------------------------------------------------------------

  datatype Why = ContractBroken | Conflict

  ghost predicate Conflicts(reqs: seq<Request>, q: Request) {
    q.backend.Aie? && q.region.layer.Some? && Disagree(reqs, q.region.layer.value)
  }

  /** Which regions cannot go where they were assigned; a broken contract is reported before a conflict. */
  ghost predicate FailuresOf(contract: Contract, reqs: seq<Request>, fail: map<string, Why>) {
    forall i :: 0 <= i < |reqs| ==> FailureFits(contract, reqs, fail, reqs[i])
  }

  ghost predicate FailureFits(contract: Contract, reqs: seq<Request>, fail: map<string, Why>, q: Request) {
    if q.backend.Aie? && !Passes(contract, q) then q.region.name in fail && fail[q.region.name] == ContractBroken
    else if Conflicts(reqs, q) then q.region.name in fail && fail[q.region.name] == Conflict
    else q.region.name !in fail
  }

  method Failures(contract: Contract, reqs: seq<Request>, byLayer: map<int, seq<Request>>)
    returns (fail: map<string, Why>)
    requires DistinctNames(reqs) && byLayer == ByLayer(reqs)
    ensures FailuresOf(contract, reqs, fail)
  {
    fail := map[];
    for i := 0 to |reqs|
      invariant forall k :: 0 <= k < i ==>
        if reqs[k].backend.Aie? && !Passes(contract, reqs[k]) then
          reqs[k].region.name in fail && fail[reqs[k].region.name] == ContractBroken
        else reqs[k].region.name !in fail
      invariant forall name :: name in fail ==> exists k :: 0 <= k < i && reqs[k].region.name == name
    {
      if reqs[i].backend.Aie? && !Passes(contract, reqs[i]) {
        fail := fail[reqs[i].region.name := ContractBroken];
      }
    }
    ghost var broken := fail;
    for i := 0 to |reqs|
      invariant forall k :: 0 <= k < |reqs| ==>
        if k < i then FailureFits(contract, reqs, fail, reqs[k])
        else (reqs[k].region.name in fail <==> reqs[k].region.name in broken)
             && (reqs[k].region.name in broken ==> fail[reqs[k].region.name] == broken[reqs[k].region.name])
    {
      var q := reqs[i];
      if q.backend.Aie? && q.region.layer.Some? {
        ConflictExactly(reqs, q.region.layer.value);
        if |Backends(AtLayer(byLayer, q.region.layer.value))| > 1 && q.region.name !in fail {
          fail := fail[q.region.name := Conflict];
        }
      }
    }
  }

  // The groups sent to the kernels ----------------------------------------------------------

  /** `layer` is sent to kernel `k`: some request for it on `k` passes, and no request for it says otherwise. */
  ghost predicate Sent(contract: Contract, reqs: seq<Request>, k: string, layer: int) {
    && (exists q :: q in reqs && q.backend == Aie(k) && q.region.layer == Some(layer) && Passes(contract, q))
    && !Disagree(reqs, layer)
  }

  function LayersOf(groups: map<string, set<int>>, k: string): set<int> {
    if k in groups then groups[k] else {}
  }

  method Groups(contract: Contract, reqs: seq<Request>, fail: map<string, Why>) returns (groups: map<string, set<int>>)
    requires FailuresOf(contract, reqs, fail)
    ensures forall k, layer :: layer in LayersOf(groups, k) <==> Sent(contract, reqs, k, layer)
    ensures forall k :: k in groups ==> groups[k] != {}
  {
    groups := map[];
    for i := 0 to |reqs|
      invariant forall k, layer :: layer in LayersOf(groups, k) <==> SentUpTo(contract, reqs, i, k, layer)
      invariant forall k :: k in groups ==> groups[k] != {}
    {
      var q := reqs[i];
      assert FailureFits(contract, reqs, fail, q);
      ghost var before := groups;
      if q.backend.Aie? && q.region.name !in fail {
        var k := q.backend.kernel;
        groups := groups[k := LayersOf(groups, k) + {q.region.layer.value}];
      }
      forall k, layer
        ensures layer in LayersOf(groups, k) <==> SentUpTo(contract, reqs, i + 1, k, layer)
      {
        SentStep(contract, reqs, i, k, layer);
        assert layer in LayersOf(groups, k) <==>
               layer in LayersOf(before, k) || SendsLayer(contract, reqs, q, k, layer);
      }
    }
    forall k, layer
      ensures layer in LayersOf(groups, k) <==> Sent(contract, reqs, k, layer)
    {
      SentUpToAll(contract, reqs, k, layer);
    }
  }

  /** One of the first `n` requests sends `layer` to `k`. */
  ghost predicate SentUpTo(contract: Contract, reqs: seq<Request>, n: nat, k: string, layer: int)
    requires n <= |reqs|
  {
    exists i :: 0 <= i < n && SendsLayer(contract, reqs, reqs[i], k, layer)
  }

  ghost predicate SendsLayer(contract: Contract, reqs: seq<Request>, q: Request, k: string, layer: int) {
    q.backend == Aie(k) && q.region.layer == Some(layer) && Passes(contract, q) && !Disagree(reqs, layer)
  }

  lemma SentStep(contract: Contract, reqs: seq<Request>, n: nat, k: string, layer: int)
    requires n < |reqs|
    ensures SentUpTo(contract, reqs, n + 1, k, layer) <==>
            SentUpTo(contract, reqs, n, k, layer) || SendsLayer(contract, reqs, reqs[n], k, layer)
  {
  }

  lemma SentUpToAll(contract: Contract, reqs: seq<Request>, k: string, layer: int)
    ensures SentUpTo(contract, reqs, |reqs|, k, layer) <==> Sent(contract, reqs, k, layer)
  {
    if Sent(contract, reqs, k, layer) {
      var q :| q in reqs && q.backend == Aie(k) && q.region.layer == Some(layer) && Passes(contract, q);
      var i :| 0 <= i < |reqs| && reqs[i] == q;
      assert SendsLayer(contract, reqs, reqs[i], k, layer);
    }
  }

  /** No layer is sent to two kernels, and none whose requests disagree (cpu against aie included) is sent at all. */
  lemma SentOnce(contract: Contract, reqs: seq<Request>, k: string, k': string, layer: int)
    requires Sent(contract, reqs, k, layer)
    ensures Sent(contract, reqs, k', layer) ==> k == k'
    ensures forall q :: q in reqs && q.region.layer == Some(layer) ==> q.backend == Aie(k)
  {
    var p :| p in reqs && p.backend == Aie(k) && p.region.layer == Some(layer) && Passes(contract, p);
    forall q | q in reqs && q.region.layer == Some(layer)
      ensures q.backend == Aie(k)
    {
      assert Both(reqs, layer, p, q);
    }
  }

  /**
   * A region that breaks its contract is meant to stay on the CPU. Its layer is sent
   * all the same exactly when another request for the layer passes and none disagrees.
   */
  lemma BrokenRegionSentExactly(contract: Contract, reqs: seq<Request>, q: Request, layer: int)
    requires q in reqs && q.backend.Aie? && !Passes(contract, q) && q.region.layer == Some(layer)
    ensures (exists k :: Sent(contract, reqs, k, layer)) <==>
            !Disagree(reqs, layer) && exists p :: p in reqs && p.region.layer == Some(layer) && Passes(contract, p)
  {
    if p :| p in reqs && p.region.layer == Some(layer) && Passes(contract, p) {
      if !Disagree(reqs, layer) {
        assert Sent(contract, reqs, p.backend.kernel, layer);
      }
    }
  }

  lemma BrokenRegionCanBeSent()
    ensures var r1, r2 := Region("a", Some(4)), Region("b", Some(4));
            var reqs := [Request(r1, Aie("k")), Request(r2, Aie("k"))];
            var contract: Contract := (k, r) => r == r1;
            !Passes(contract, reqs[1]) && Sent(contract, reqs, "k", 4)
  {
    var r1, r2 := Region("a", Some(4)), Region("b", Some(4));
    var reqs := [Request(r1, Aie("k")), Request(r2, Aie("k"))];
    var contract: Contract := (k, r) => r == r1;
    assert reqs[0] in reqs && Passes(contract, reqs[0]);
  }

  /** A request that cannot go where it was assigned. */
  ghost predicate Fails(contract: Contract, reqs: seq<Request>, q: Request) {
    (q.backend.Aie? && !Passes(contract, q)) || Conflicts(reqs, q)
  }
}
