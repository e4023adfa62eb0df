/**
 * The placement file and the whole of `module.partition()`: reset, offload through the
 * gates, and the report of where every region ended up.
 */
module Placement {
  import opened Basics
  import opened SetFacts
  import opened Partition

  /** A row of layers/partition.json; `swaps` is the layer whose symbol the driver replaces. */
  datatype Row = Row(layer: int, dir: string, target: Backend, entry: Option<string>, swaps: Option<int>,
                     reason: string)

  const NOT_ASSIGNED: string := "not assigned to the AIE (aiegraph partition)"

  function ResetRow(r: Row): Row {
    if r.target.Aie? then r.(target := Cpu, entry := None, swaps := None, reason := NOT_ASSIGNED) else r
  }

  function ResetRows(rows: seq<Row>): (r: seq<Row>)
    ensures |r| == |rows| && forall i :: 0 <= i < |rows| ==> r[i] == ResetRow(rows[i])
  {
    seq(|rows|, i requires 0 <= i < |rows| => ResetRow(rows[i]))
  }

  function CountAie(rows: seq<Row>): nat {
    if rows == [] then 0 else CountAie(rows[..|rows| - 1]) + if rows[|rows| - 1].target.Aie? then 1 else 0
  }

  function Dirs(rows: seq<Row>): set<string> {
    set i | 0 <= i < |rows| :: rows[i].dir
  }

  /** The directories of the rows on the AIE, or of the others. */
  function DirsOn(rows: seq<Row>, aie: bool): set<string> {
    set i | 0 <= i < |rows| && rows[i].target.Aie? == aie :: rows[i].dir
  }

  predicate AllOnCpu(rows: seq<Row>) {
    forall i :: 0 <= i < |rows| ==> rows[i].target == Cpu
  }

  lemma {:induction false} NoneOnAie(rows: seq<Row>)
    requires AllOnCpu(rows)
    ensures CountAie(rows) == 0
  {
    if rows != [] {
      NoneOnAie(rows[..|rows| - 1]);
    }
  }

  lemma {:induction false} CountAtMost(rows: seq<Row>)
    ensures CountAie(rows) <= |rows|
  {
    if rows != [] {
      CountAtMost(rows[..|rows| - 1]);
    }
  }

  // Going through the gates ------------------------------------------------------------------

  /** Whether a layer passes every gate of a kernel: lint, detect, calibrate, emulate, build and link. */
  type Gates = (string, int) -> bool

  /** `layer` is among the groups of kernel `k` and its gates let it through. */
  predicate Admitted(groups: map<string, set<int>>, gates: Gates, k: string, layer: int) {
    layer in LayersOf(groups, k) && gates(k, layer)
  }

  /** The row of a layer that was swapped for kernel `k`. */
  function MovedRow(entries: Entries, row: Row, k: string): Row {
    row.(target := Aie(k), entry := entries(row.layer), swaps := Some(row.layer),
         reason := "user kernel " + k + " (calibrated, emulated)")
  }

  /** The adapter of each layer, if its library has one. */
  type Entries = int -> Option<string>

  /** A row is moved to the kernel that admits its layer, or stays as it was. */
  ghost predicate RowFits(groups: map<string, set<int>>, gates: Gates, entries: Entries, before: Row, after: Row) {
    if after.target.Aie? then
      Admitted(groups, gates, after.target.kernel, before.layer) &&
        after == MovedRow(entries, before, after.target.kernel)
    else after == before && forall k :: !Admitted(groups, gates, k, before.layer)
  }

  ghost predicate RowsFit(groups: map<string, set<int>>, gates: Gates, entries: Entries, before: seq<Row>,
                          after: seq<Row>) {
    |after| == |before| && forall i :: 0 <= i < |before| ==> RowFits(groups, gates, entries, before[i], after[i])
  }

  method KernelFor(groups: map<string, set<int>>, gates: Gates, layer: int) returns (k: Option<string>)
    ensures k.Some? ==> Admitted(groups, gates, k.value, layer)
    ensures k.None? ==> forall n :: !Admitted(groups, gates, n, layer)
  {
    k := None;
    var left := groups.Keys;
    while left != {} && k.None?
      invariant left <= groups.Keys
      invariant k.Some? ==> Admitted(groups, gates, k.value, layer)
      invariant k.None? ==> forall n :: n in groups.Keys - left ==> !Admitted(groups, gates, n, layer)
      decreases |left|
    {
      var n :| n in left;
      if Admitted(groups, gates, n, layer) {
        k := Some(n);
      }
      left := left - {n};
    }
  }

  /** layers/partition.json: whether it exists, its rows and the four counters kept beside them. */
  class PlacementFile {
    var present: bool
    var rows: seq<Row>
    var aieCount: nat
    var cpuCount: nat
    var aieDirs: nat
    var cpuDirs: nat

    constructor (present: bool, rows: seq<Row>)
      ensures this.present == present && this.rows == rows
    {
      this.present, this.rows := present, rows;
      aieCount, cpuCount, aieDirs, cpuDirs := 0, 0, 0, 0;
    }

    /** The counters say how many rows and directories are on the AIE and on the CPU. */
    ghost predicate CountersMatch()
      reads this
    {
      && aieCount == CountAie(rows) && cpuCount == |rows| - CountAie(rows)
      && aieDirs == |DirsOn(rows, true)| && cpuDirs == |DirsOn(rows, false)|
    }

    /** `reset_aie_rows`: every AIE row back on the CPU; returns how many were moved. A missing file stays missing. */
    method Reset() returns (n: nat)
      modifies this
      ensures present == old(present)
      ensures !present ==> n == 0 && rows == old(rows) && aieCount == old(aieCount) && cpuCount == old(cpuCount)
                           && aieDirs == old(aieDirs) && cpuDirs == old(cpuDirs)
      ensures present ==> rows == ResetRows(old(rows)) && n == CountAie(old(rows))
                          && AllOnCpu(rows) && CountersMatch() && cpuDirs == |Dirs(old(rows))|
    {
      n := 0;
      if !present {
        return;
      }
      var before := rows;
      for i := 0 to |before|
        invariant present && |rows| == |before| && n == CountAie(before[..i])
        invariant forall k :: 0 <= k < |rows| ==> rows[k] == if k < i then ResetRow(before[k]) else before[k]
      {
        assert before[..i + 1][..i] == before[..i];
        if rows[i].target.Aie? {
          rows := rows[i := rows[i].(target := Cpu, entry := None, swaps := None, reason := NOT_ASSIGNED)];
          n := n + 1;
        }
      }
      assert before[..|before|] == before;
      assert rows == ResetRows(before);
      NoneOnAie(rows);
      aieCount, cpuCount := 0, |rows|;
      aieDirs, cpuDirs := 0, |Dirs(rows)|;
      assert Dirs(rows) == Dirs(before) && DirsOn(rows, true) == {} && DirsOn(rows, false) == Dirs(rows);
    }

    /**
     * The offload as far as the file is concerned: a missing file is made from the
     * network's own rows, and every row whose layer is admitted is moved to its kernel.
     */
    method Offload(groups: map<string, set<int>>, gates: Gates, entries: Entries, network: seq<Row>)
      requires AllOnCpu(network) && (present ==> AllOnCpu(rows))
      modifies this
      ensures present && RowsFit(groups, gates, entries, if old(present) then old(rows) else network, rows)
      ensures CountersMatch()
    {
      if !present {
        present, rows := true, network;
      }
      ghost var before := rows;
      for i := 0 to |rows|
        invariant present && |rows| == |before| && forall j :: i <= j < |rows| ==> rows[j] == before[j]
        invariant forall j :: 0 <= j < i ==> RowFits(groups, gates, entries, before[j], rows[j])
      {
        var k := KernelFor(groups, gates, rows[i].layer);
        if k.Some? {
          rows := rows[i := MovedRow(entries, rows[i], k.value)];
        }
      }
      CountAtMost(rows);
      aieCount, cpuCount := CountAie(rows), |rows| - CountAie(rows);
      aieDirs, cpuDirs := |DirsOn(rows, true)|, |DirsOn(rows, false)|;
    }
  }

  // Where a layer ended up ---------------------------------------------------------------------

  /** The backend a layer runs on according to the rows; a layer without an AIE row runs on the CPU. */
  function PlacedAt(rows: seq<Row>, layer: Option<int>): Backend {
    if rows == [] || layer.None? then Cpu
    else
      var last := rows[|rows| - 1];
      if last.layer == layer.value && last.target.Aie? then last.target else PlacedAt(rows[..|rows| - 1], layer)
  }

  lemma {:induction false} PlacedByRow(rows: seq<Row>, layer: int)
    ensures PlacedAt(rows, Some(layer)).Aie?
            <==> exists i :: 0 <= i < |rows| && rows[i].layer == layer && rows[i].target.Aie?
    ensures PlacedAt(rows, Some(layer)).Aie? ==>
              exists i :: 0 <= i < |rows| && rows[i].layer == layer && rows[i].target == PlacedAt(rows, Some(layer))
  {
    if rows != [] {
      var n := |rows| - 1;
      PlacedByRow(rows[..n], layer);
      if rows[n].layer == layer && rows[n].target.Aie? {
        assert rows[n].target == PlacedAt(rows, Some(layer));
      } else if PlacedAt(rows[..n], Some(layer)).Aie? {
        var i :| 0 <= i < n && rows[..n][i].layer == layer && rows[..n][i].target == PlacedAt(rows, Some(layer));
        assert rows[i] == rows[..n][i];
      } else {
        assert forall i :: 0 <= i < n ==> rows[i] == rows[..n][i];
      }
    }
  }

  ghost predicate HasRow(rows: seq<Row>, layer: int) {
    exists i :: 0 <= i < |rows| && rows[i].layer == layer
  }

  /** The rows after a call: on the CPU at first, then each on the kernel that admits its layer. */
  ghost predicate Placed(contract: Contract, reqs: seq<Request>, gates: Gates, rows: seq<Row>) {
    forall i :: 0 <= i < |rows| ==> RowPlaced(contract, reqs, gates, rows[i])
  }

  /** A row is on kernel `k` exactly when this call sent its layer there and the gates let it through. */
  ghost predicate RowPlaced(contract: Contract, reqs: seq<Request>, gates: Gates, row: Row) {
    forall k :: row.target == Aie(k) <==> Sent(contract, reqs, k, row.layer) && gates(k, row.layer)
  }

  lemma RowsArePlaced(contract: Contract, reqs: seq<Request>, gates: Gates, groups: map<string, set<int>>,
                      entries: Entries, before: seq<Row>, after: seq<Row>)
    requires forall k, layer :: layer in LayersOf(groups, k) <==> Sent(contract, reqs, k, layer)
    requires AllOnCpu(before) && RowsFit(groups, gates, entries, before, after)
    ensures Placed(contract, reqs, gates, after)
  {
    forall i | 0 <= i < |after|
      ensures RowPlaced(contract, reqs, gates, after[i])
    {
      assert RowFits(groups, gates, entries, before[i], after[i]);
      forall k
        ensures after[i].target == Aie(k) <==> Sent(contract, reqs, k, after[i].layer) && gates(k, after[i].layer)
      {
        if Sent(contract, reqs, k, after[i].layer) && gates(k, after[i].layer) {
          assert Admitted(groups, gates, k, before[i].layer);
          SentOnce(contract, reqs, k, after[i].target.kernel, after[i].layer);
        }
      }
    }
  }

  lemma NothingPlaced(contract: Contract, reqs: seq<Request>, gates: Gates, rows: seq<Row>)
    requires AllOnCpu(rows) && forall k, layer :: !Sent(contract, reqs, k, layer)
    ensures Placed(contract, reqs, gates, rows)
  {
    forall i | 0 <= i < |rows|
      ensures RowPlaced(contract, reqs, gates, rows[i])
    {
    }
  }

  /** The layer of a request is placed on `k` exactly when it was sent there, passed the gates and has a row. */
  lemma PlacedExactly(contract: Contract, reqs: seq<Request>, gates: Gates, rows: seq<Row>, layer: int, k: string)
    requires Placed(contract, reqs, gates, rows)
    ensures PlacedAt(rows, Some(layer)) == Aie(k)
            <==> Sent(contract, reqs, k, layer) && gates(k, layer) && HasRow(rows, layer)
  {
    PlacedByRow(rows, layer);
    if PlacedAt(rows, Some(layer)) == Aie(k) {
      var i :| 0 <= i < |rows| && rows[i].layer == layer && rows[i].target == Aie(k);
      assert RowPlaced(contract, reqs, gates, rows[i]);
    }
    if Sent(contract, reqs, k, layer) && gates(k, layer) && HasRow(rows, layer) {
      var i :| 0 <= i < |rows| && rows[i].layer == layer;
      assert RowPlaced(contract, reqs, gates, rows[i]);
      assert rows[i].target == Aie(k);
      var j :| 0 <= j < |rows| && rows[j].layer == layer && rows[j].target == PlacedAt(rows, Some(layer));
      assert RowPlaced(contract, reqs, gates, rows[j]);
      assert rows[j].target == Aie(k);
    }
  }

  // The report -----------------------------------------------------------------------------------

  /** Why a region is not where it was assigned. */
  datatype Reason = Failed(why: Why) | StoppedAtGate

  datatype ReportRow = ReportRow(request: Request, placed: Backend, reason: Option<Reason>)

  datatype Plan = Plan(rows: seq<ReportRow>, dragged: seq<Region>)

  predicate Ok(plan: Plan) {
    forall i :: 0 <= i < |plan.rows| ==> plan.rows[i].placed == plan.rows[i].request.backend
  }

  function ReportOf(fail: map<string, Why>, rows: seq<Row>, q: Request): ReportRow {
    var placed := PlacedAt(rows, q.region.layer);
    ReportRow(q, placed,
              if placed == q.backend then None
              else if q.region.name in fail then Some(Failed(fail[q.region.name]))
              else Some(StoppedAtGate))
  }

  /** Region `r` was not assigned but shares its layer with an assigned one and was taken along. */
  ghost predicate IsDragged(reqs: seq<Request>, rows: seq<Row>, r: Region) {
    && (forall q :: q in reqs ==> q.region.name != r.name)
    && r.layer.Some? && PlacedAt(rows, r.layer) != Cpu
    && exists q :: q in reqs && q.region.layer == r.layer
  }

  /** The regions taken along, in the order of the model. */
  ghost function DraggedOf(reqs: seq<Request>, rows: seq<Row>, regions: seq<Region>): seq<Region> {
    if regions == [] then []
    else
      var last := regions[|regions| - 1];
      DraggedOf(reqs, rows, regions[..|regions| - 1]) + (if IsDragged(reqs, rows, last) then [last] else [])
  }

  method Report(contract: Contract, reqs: seq<Request>, fail: map<string, Why>, rows: seq<Row>, regions: seq<Region>,
                byLayer: map<int, seq<Request>>)
    returns (plan: Plan)
    requires byLayer == ByLayer(reqs)
    ensures |plan.rows| == |reqs| && forall i :: 0 <= i < |reqs| ==> plan.rows[i] == ReportOf(fail, rows, reqs[i])
    ensures plan.dragged == DraggedOf(reqs, rows, regions)
  {
    var report: seq<ReportRow> := [];
    var names: set<string> := {};
    for i := 0 to |reqs|
      invariant |report| == i && forall j :: 0 <= j < i ==> report[j] == ReportOf(fail, rows, reqs[j])
      invariant forall name :: name in names <==> exists j :: 0 <= j < i && reqs[j].region.name == name
    {
      report := report + [ReportOf(fail, rows, reqs[i])];
      names := names + {reqs[i].region.name};
    }
    var dragged: seq<Region> := [];
    for i := 0 to |regions|
      invariant dragged == DraggedOf(reqs, rows, regions[..i])
    {
      var r := regions[i];
      DraggedExactly(reqs, rows, names, byLayer, r);
      assert regions[..i + 1][..i] == regions[..i];
      if r.name !in names && r.layer.Some? && r.layer.value in byLayer && PlacedAt(rows, r.layer) != Cpu {
        dragged := dragged + [r];
      }
    }
    assert regions[..|regions|] == regions;
    plan := Plan(report, dragged);
  }

  lemma DraggedExactly(reqs: seq<Request>, rows: seq<Row>, names: set<string>, byLayer: map<int, seq<Request>>,
                       r: Region)
    requires byLayer == ByLayer(reqs)
    requires forall name :: name in names <==> exists j :: 0 <= j < |reqs| && reqs[j].region.name == name
    ensures IsDragged(reqs, rows, r) <==>
            r.name !in names && r.layer.Some? && r.layer.value in byLayer && PlacedAt(rows, r.layer) != Cpu
  {
    if q :| q in reqs && q.region.name == r.name {
      var j :| 0 <= j < |reqs| && reqs[j] == q;
    }
    if r.layer.Some? {
      var layer := r.layer.value;
      if q :| q in reqs && q.region.layer == Some(layer) {
        ByLayerExactly(reqs, layer, q);
      }
      if layer in byLayer {
        var q := AtLayer(byLayer, layer);
        ByLayerExactly(reqs, layer, if q == [] then Request(r, Cpu) else q[0]);
      }
    }
  }

  // The call ---------------------------------------------------------------------------------------

  /** The call raises on bad options, on nothing assigned, before the offload or after it, or returns a plan. */
  datatype Outcome = BadOption | Nothing | Refused | FellBack(plan: Plan) | Planned(plan: Plan)

  predicate OptionsKnown(fallback: Option<string>, objective: Option<string>) {
    fallback in {Some("cpu"), None} && objective in {Some("latency"), None}
  }

  /** The offload was reached: the file is as this call sent its layers, and the report says so. */
  ghost predicate Reported(contract: Contract, reqs: seq<Request>, rows: seq<Row>, regions: seq<Region>, plan: Plan) {
    && |plan.rows| == |reqs|
    && (forall i :: 0 <= i < |reqs| ==> RowReported(contract, reqs, rows, reqs[i], plan.rows[i]))
    && plan.dragged == DraggedOf(reqs, rows, regions)
  }

  ghost predicate RowReported(contract: Contract, reqs: seq<Request>, rows: seq<Row>, q: Request, row: ReportRow) {
    && row.request == q && row.placed == PlacedAt(rows, q.region.layer)
    && (row.reason.None? <==> row.placed == q.backend)
    && (row.reason == Some(Failed(ContractBroken))
        <==> row.placed != q.backend && q.backend.Aie? && !Passes(contract, q))
    && (row.reason == Some(Failed(Conflict)) <==>
          row.placed != q.backend && !(q.backend.Aie? && !Passes(contract, q)) && Conflicts(reqs, q))
  }

  /** Every row is still there: moved if the call sent its layer and the gates admit it, otherwise as a
      reset leaves it. */
  ghost predicate RowsKept(entries: Entries, before: seq<Row>, after: seq<Row>) {
    |after| == |before| && forall i :: 0 <= i < |before| ==> RowKept(entries, before[i], after[i])
  }

  predicate RowKept(entries: Entries, before: Row, after: Row) {
    after == if after.target.Aie? then MovedRow(entries, ResetRow(before), after.target.kernel) else ResetRow(before)
  }

  lemma RowsAreKept(groups: map<string, set<int>>, gates: Gates, entries: Entries, before: seq<Row>, after: seq<Row>)
    requires RowsFit(groups, gates, entries, ResetRows(before), after)
    ensures RowsKept(entries, before, after)
  {
    forall i | 0 <= i < |before|
      ensures RowKept(entries, before[i], after[i])
    {
      assert RowFits(groups, gates, entries, ResetRows(before)[i], after[i]);
    }
  }

  /** Something is sent to a kernel. */
  ghost predicate SendsAny(contract: Contract, reqs: seq<Request>) {
    exists k, layer :: Sent(contract, reqs, k, layer)
  }

  lemma SomeGroup(contract: Contract, reqs: seq<Request>, groups: map<string, set<int>>)
    requires groups != map[] && forall k :: k in groups ==> groups[k] != {}
    requires forall k, layer :: layer in LayersOf(groups, k) <==> Sent(contract, reqs, k, layer)
    ensures SendsAny(contract, reqs)
  {
    var k :| k in groups;
    var layer := OneOf(groups[k]);
    assert layer in LayersOf(groups, k);
  }

  /** Reset the file, then offload the groups if there are any. */
  method PlaceGroups(contract: Contract, reqs: seq<Request>, groups: map<string, set<int>>, gates: Gates,
                     entries: Entries, network: seq<Row>, file: PlacementFile)
    requires AllOnCpu(network) && forall k :: k in groups ==> groups[k] != {}
    requires forall k, layer :: layer in LayersOf(groups, k) <==> Sent(contract, reqs, k, layer)
    modifies file
    ensures Placed(contract, reqs, gates, if file.present then file.rows else [])
    ensures file.present <==> old(file.present) || SendsAny(contract, reqs)
    ensures file.present ==>
              && file.CountersMatch()
              && RowsKept(entries, if old(file.present) then old(file.rows) else network, file.rows)
  {
    var _ := file.Reset();
    ghost var base := if file.present then old(file.rows) else network;
    assert ResetRows(network) == network;
    if groups != map[] {
      SomeGroup(contract, reqs, groups);
      file.Offload(groups, gates, entries, network);
      RowsAreKept(groups, gates, entries, base, file.rows);
      RowsArePlaced(contract, reqs, gates, groups, entries, ResetRows(base), file.rows);
    } else {
      assert forall k, layer :: layer !in LayersOf(groups, k);
      NothingPlaced(contract, reqs, gates, if file.present then file.rows else []);
    }
  }

  lemma ReportIsRight(contract: Contract, reqs: seq<Request>, fail: map<string, Why>, rows: seq<Row>,
                      regions: seq<Region>, plan: Plan)
    requires FailuresOf(contract, reqs, fail) && plan.dragged == DraggedOf(reqs, rows, regions)
    requires |plan.rows| == |reqs| && forall i :: 0 <= i < |reqs| ==> plan.rows[i] == ReportOf(fail, rows, reqs[i])
    ensures Reported(contract, reqs, rows, regions, plan)
  {
    forall i | 0 <= i < |reqs|
      ensures RowReported(contract, reqs, rows, reqs[i], plan.rows[i])
    {
      assert FailureFits(contract, reqs, fail, reqs[i]);
    }
  }

  method RunPartition(contract: Contract, reqs: seq<Request>, fallback: Option<string>, objective: Option<string>,
                      gates: Gates, entries: Entries, network: seq<Row>, regions: seq<Region>,
                      file: PlacementFile)
    returns (r: Outcome)
    requires DistinctNames(reqs) && AllOnCpu(network)
    modifies file
    ensures r == BadOption <==> (fallback.Some? && fallback.value != "cpu")
                                || (objective.Some? && objective.value != "latency")
    ensures r == Nothing <==> r != BadOption && reqs == []
    ensures r == Refused <==> r != BadOption && reqs != [] && fallback.None?
                              && exists q :: q in reqs && Fails(contract, reqs, q)
    ensures !r.FellBack? && !r.Planned? ==> unchanged(file)
    ensures r.FellBack? || r.Planned? ==>
              && Placed(contract, reqs, gates, if file.present then file.rows else [])
              && Reported(contract, reqs, if file.present then file.rows else [], regions, r.plan)
    ensures r.FellBack? || r.Planned? ==>
              && (file.present <==> old(file.present) || SendsAny(contract, reqs))
              && (file.present ==> file.CountersMatch()
                                   && RowsKept(entries,
                                               if old(file.present) then old(file.rows) else network, file.rows))
    ensures r.FellBack? ==> fallback.None? && !Ok(r.plan)
    ensures r.Planned? && fallback.None? ==> Ok(r.plan)
  {
    if !OptionsKnown(fallback, objective) {
      return BadOption;
    }
    if reqs == [] {
      return Nothing;
    }
    var byLayer := CollectByLayer(reqs);
    var fail := Failures(contract, reqs, byLayer);
    FailNames(contract, reqs, fail);
    if fallback.None? && exists i :: 0 <= i < |reqs| && reqs[i].region.name in fail {
      ghost var i :| 0 <= i < |reqs| && reqs[i].region.name in fail;
      assert reqs[i] in reqs && Fails(contract, reqs, reqs[i]);
      return Refused;
    }
    var groups := Groups(contract, reqs, fail);
    PlaceGroups(contract, reqs, groups, gates, entries, network, file);
    var rows := if file.present then file.rows else [];
    var plan := Report(contract, reqs, fail, rows, regions, byLayer);
    ReportIsRight(contract, reqs, fail, rows, regions, plan);
    if fallback.None? && !Ok(plan) {
      return FellBack(plan);
    }
    return Planned(plan);
  }

  lemma FailNames(contract: Contract, reqs: seq<Request>, fail: map<string, Why>)
    requires FailuresOf(contract, reqs, fail)
    ensures forall i :: 0 <= i < |reqs| ==> (reqs[i].region.name in fail <==> Fails(contract, reqs, reqs[i]))
  {
    forall i | 0 <= i < |reqs|
      ensures reqs[i].region.name in fail <==> Fails(contract, reqs, reqs[i])
    {
      assert FailureFits(contract, reqs, fail, reqs[i]);
    }
  }

  // What the plan says -------------------------------------------------------------------------------

  /** A request ends up where it was assigned exactly when it asked for the CPU, or its layer was sent,
      admitted and has a row. */
  lemma AsAssignedExactly(contract: Contract, reqs: seq<Request>, gates: Gates, rows: seq<Row>, q: Request)
    requires Placed(contract, reqs, gates, rows) && q in reqs
    ensures PlacedAt(rows, q.region.layer) == q.backend <==>
            || q.backend == Cpu
            || (q.region.layer.Some? && Sent(contract, reqs, q.backend.kernel, q.region.layer.value)
                && gates(q.backend.kernel, q.region.layer.value) && HasRow(rows, q.region.layer.value))
  {
    if q.region.layer.Some? {
      var layer := q.region.layer.value;
      var placed := PlacedAt(rows, Some(layer));
      if placed.Aie? {
        PlacedExactly(contract, reqs, gates, rows, layer, placed.kernel);
        SentOnce(contract, reqs, placed.kernel, placed.kernel, layer);
      }
      if q.backend.Aie? {
        PlacedExactly(contract, reqs, gates, rows, layer, q.backend.kernel);
      }
    }
  }

  /** A region that breaks its contract is reported as assigned exactly when its layer was sent for another
      region and admitted. */
  lemma BrokenReportedAsAssigned(contract: Contract, reqs: seq<Request>, gates: Gates, rows: seq<Row>, q: Request,
                                 layer: int, row: ReportRow)
    requires Placed(contract, reqs, gates, rows) && q in reqs && RowReported(contract, reqs, rows, q, row)
    requires q.backend.Aie? && !Passes(contract, q) && q.region.layer == Some(layer)
    ensures row.reason.None? <==>
            && !Disagree(reqs, layer) && (exists p :: p in reqs && p.region.layer == Some(layer) && Passes(contract, p))
            && gates(q.backend.kernel, layer) && HasRow(rows, layer)
  {
    AsAssignedExactly(contract, reqs, gates, rows, q);
    BrokenRegionSentExactly(contract, reqs, q, layer);
    if k :| Sent(contract, reqs, k, layer) {
      SentOnce(contract, reqs, k, k, layer);
    }
  }

  /** Request `q` ends up where it was assigned. */
  ghost predicate WhereAssigned(contract: Contract, reqs: seq<Request>, gates: Gates, rows: seq<Row>, q: Request) {
    || q.backend == Cpu
    || (q.region.layer.Some? && Sent(contract, reqs, q.backend.kernel, q.region.layer.value)
        && gates(q.backend.kernel, q.region.layer.value) && HasRow(rows, q.region.layer.value))
  }

  /** A plan is in order exactly when every request ends up where it was assigned. */
  lemma OkExactly(contract: Contract, reqs: seq<Request>, gates: Gates, rows: seq<Row>, regions: seq<Region>,
                  plan: Plan)
    requires Placed(contract, reqs, gates, rows) && Reported(contract, reqs, rows, regions, plan)
    ensures Ok(plan) <==> forall q :: q in reqs ==> WhereAssigned(contract, reqs, gates, rows, q)
  {
    forall i | 0 <= i < |reqs|
      ensures plan.rows[i].placed == plan.rows[i].request.backend
              <==> WhereAssigned(contract, reqs, gates, rows, reqs[i])
    {
      AsAssignedExactly(contract, reqs, gates, rows, reqs[i]);
      assert RowReported(contract, reqs, rows, reqs[i], plan.rows[i]);
    }
    forall q | q in reqs && Ok(plan)
      ensures WhereAssigned(contract, reqs, gates, rows, q)
    {
      var i :| 0 <= i < |reqs| && reqs[i] == q;
      assert plan.rows[i].placed == plan.rows[i].request.backend;
    }
  }

  // The rows and counters -----------------------------------------------------------------------

  /** A row on the AIE swaps its own layer, and one on the CPU neither swaps nor enters anything. */
  predicate Tidy(row: Row) {
    if row.target.Aie? then row.swaps == Some(row.layer) else row.swaps.None? && row.entry.None?
  }

  /** A call keeps the rows tidy, puts untidy AIE rows in order, and never changes what a row is about. */
  lemma RowsStayTidy(entries: Entries, before: seq<Row>, after: seq<Row>, i: nat)
    requires RowsKept(entries, before, after) && i < |before| && (before[i].target == Cpu ==> Tidy(before[i]))
    ensures i < |after| && Tidy(after[i]) && after[i].layer == before[i].layer && after[i].dir == before[i].dir
    ensures after[i].target.Aie? ==> after[i].entry == entries(after[i].layer)
  {
    assert RowKept(entries, before[i], after[i]);
  }

  /** The rows that `CountAie` counts. */
  ghost function AieRows(rows: seq<Row>): (r: set<int>)
    ensures forall i :: i in r <==> 0 <= i < |rows| && rows[i].target.Aie?
  {
    set i | 0 <= i < |rows| && rows[i].target.Aie?
  }

  lemma {:induction false} CountAieExactly(rows: seq<Row>)
    ensures CountAie(rows) == |AieRows(rows)|
  {
    if rows != [] {
      var n := |rows| - 1;
      CountAieExactly(rows[..n]);
      assert AieRows(rows) == AieRows(rows[..n]) + if rows[n].target.Aie? then {n} else {};
    }
  }

  /** A directory counts for the AIE if some row in it is there, for the CPU if some row is not, or for both. */
  lemma DirsOnExactly(rows: seq<Row>, aie: bool, dir: string)
    ensures dir in DirsOn(rows, aie) <==> exists row :: row in rows && row.dir == dir && (row.target != Cpu <==> aie)
  {
    if row :| row in rows && row.dir == dir && (row.target != Cpu <==> aie) {
      var i :| 0 <= i < |rows| && rows[i] == row;
      assert rows[i].dir in DirsOn(rows, aie);
    }
  }

  ghost predicate TakenAlong(contract: Contract, reqs: seq<Request>, gates: Gates, rows: seq<Row>, r: Region) {
    && (forall q :: q in reqs ==> q.region.name != r.name)
    && r.layer.Some? && HasRow(rows, r.layer.value)
    && exists k :: Sent(contract, reqs, k, r.layer.value) && gates(k, r.layer.value)
  }

  lemma DraggedIsTaken(contract: Contract, reqs: seq<Request>, gates: Gates, rows: seq<Row>, r: Region)
    requires Placed(contract, reqs, gates, rows)
    ensures IsDragged(reqs, rows, r) <==> TakenAlong(contract, reqs, gates, rows, r)
  {
    if r.layer.Some? {
      var layer := r.layer.value;
      if PlacedAt(rows, r.layer).Aie? {
        PlacedExactly(contract, reqs, gates, rows, layer, PlacedAt(rows, r.layer).kernel);
      }
      if k :| Sent(contract, reqs, k, layer) && gates(k, layer) && HasRow(rows, layer) {
        PlacedExactly(contract, reqs, gates, rows, layer, k);
        var q :| q in reqs && q.backend == Aie(k) && q.region.layer == Some(layer) && Passes(contract, q);
      }
    }
  }

  /** The report lists a region as taken along exactly when nothing was asked of it and its layer was sent
      and admitted. */
  lemma {:induction false} DraggedOfExactly(contract: Contract, reqs: seq<Request>, gates: Gates, rows: seq<Row>,
                                            regions: seq<Region>, r: Region)
    requires Placed(contract, reqs, gates, rows)
    ensures r in DraggedOf(reqs, rows, regions) <==> r in regions && TakenAlong(contract, reqs, gates, rows, r)
  {
    if regions != [] {
      var n := |regions| - 1;
      DraggedOfExactly(contract, reqs, gates, rows, regions[..n], r);
      DraggedIsTaken(contract, reqs, gates, rows, regions[n]);
      assert regions == regions[..n] + [regions[n]];
    }
  }
}
