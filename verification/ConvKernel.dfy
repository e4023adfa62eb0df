/**
 * The reference kernel itself: stride recovery, the loop nest over the blocked
 * layouts, and the store of every output byte in place.
 */
module ConvKernel {
  import opened Words
  import opened Arith
  import opened ConvStride
  import opened Requant
  import opened ConvReference

  /** `OutsideInput` stands for the runs in which the window leaves the input; what C stores then is not modelled. */
  datatype Status = Ok | ErrArgs | OutsideInput

  /** The position of one output cell. */
  datatype Cell = Cell(occ: nat, oh: nat, ow: nat, ocb: nat)

  /** Everything one run of the loop nest reads. */
  datatype Job = Job(d: Shape, s: nat, xd: seq<int8>, wd: seq<int8>, p: Params)

  /** The buffers stand for tensors `x` and `w`, and no read leaves them. */
  ghost predicate JobHolds(j: Job, x: Tensor3, w: Tensor4) {
    && HoldsInput(j.d, j.xd, x)
    && HoldsWeights(j.d, j.wd, w)
    && (j.d.inBlocks > 0 && j.d.outBlocks > 0 ==> ReadsInside(j.d.extents, j.s, j.d.taps))
  }

  predicate InsideCell(d: Shape, a: Cell) {
    InsideOutput(d, a.occ, a.oh, a.ow, a.ocb)
  }

  function Channel(d: Shape, a: Cell): int {
    a.occ * d.lanes + a.ocb
  }

  ghost function TapsOf(j: Job, x: Tensor3, w: Tensor4, a: Cell): (int, int, int) -> int {
    Taps(x, w, j.s, Channel(j.d, a), a.oh, a.ow)
  }

  ghost predicate Ready(j: Job, x: Tensor3, w: Tensor4, a: Cell) {
    JobHolds(j, x, w) && InsideCell(j.d, a)
  }

  // The four inner loops -------------------------------------------------------

  /** Both operands of one product are inside their buffers and are the tap of the operator. */
  lemma OperandsAgree(j: Job, x: Tensor3, w: Tensor4, a: Cell, icc: nat, kh: nat, kw: nat, ici: nat)
    requires Ready(j, x, w, a)
    requires icc < j.d.inBlocks && kh < j.d.taps && kw < j.d.taps && ici < j.d.lanes
    ensures var xi := InIndex(j.d, icc, a.oh * j.s + kh, a.ow * j.s + kw, ici);
            var wi := WeightIndex(j.d, a.occ, icc, kh, kw, ici, a.ocb);
            && 0 <= xi < |j.xd| && 0 <= wi < |j.wd|
            && j.xd[xi] as int * j.wd[wi] as int == TapsOf(j, x, w, a)(icc * j.d.lanes + ici, kh, kw)
  {
    assert TouchedInside(j.d.extents, j.s, a.oh, a.ow, kh, kw);
    assert InsideInput(j.d, icc, a.oh * j.s + kh, a.ow * j.s + kw, ici);
    assert InputAgrees(j.d, j.xd, x, icc, a.oh * j.s + kh, a.ow * j.s + kw, ici);
    assert InsideWeight(j.d, a.occ, icc, kh, kw, ici, a.ocb);
    assert WeightAgrees(j.d, j.wd, w, a.occ, icc, kh, kw, ici, a.ocb);
  }

  lemma ByteProduct(a: int8, b: int8)
    ensures -16384 <= a as int * b as int <= 16384
  {
    BoundedProduct(a as int, b as int, 128, 128);
  }

  /** The taps of int8 buffers are products of int8 values. */
  lemma TapsAreByteProducts(j: Job, x: Tensor3, w: Tensor4, a: Cell)
    requires Ready(j, x, w, a)
    ensures TapsBetween(TapsOf(j, x, w, a), j.d.inBlocks, j.d.lanes, j.d.taps, -16384, 16384)
  {
    forall icc, ici, kh, kw
      | 0 <= icc < j.d.inBlocks && 0 <= ici < j.d.lanes && 0 <= kh < j.d.taps && 0 <= kw < j.d.taps
      ensures TapBetween(TapsOf(j, x, w, a), j.d.lanes, icc, ici, kh, kw, -16384, 16384)
    {
      OperandsAgree(j, x, w, a, icc, kh, kw, ici);
      ByteProduct(j.xd[InIndex(j.d, icc, a.oh * j.s + kh, a.ow * j.s + kw, ici)],
                  j.wd[WeightIndex(j.d, a.occ, icc, kh, kw, ici, a.ocb)]);
    }
  }

  /** With at most 131071 products a cell, no addition of the loop nest overflows, whatever the bytes. */
  lemma AccumulatorFits(j: Job, x: Tensor3, w: Tensor4, a: Cell, icc: nat, kh: nat, kw: nat, n: nat)
    requires Ready(j, x, w, a) && TapCount(j.d) <= MAX_TAPS
    requires icc < j.d.inBlocks && kh < j.d.taps && kw < j.d.taps && n <= j.d.lanes
    ensures FitsInt32(RunningSum(TapsOf(j, x, w, a), j.d.lanes, j.d.taps, icc, kh, kw, n))
  {
    TapsAreByteProducts(j, x, w, a);
    RunningSumFits(j.d, TapsOf(j, x, w, a), icc, kh, kw, n);
  }

  /**
   * The accumulator after `icc` blocks, `kh` rows, `kw` columns and `n` lanes: the sum of
   * the products so far modulo 2^32, and that sum itself up to 131071 products a cell.
   */
  ghost predicate Accumulated(j: Job, x: Tensor3, w: Tensor4, a: Cell, icc: nat, kh: nat, kw: nat, n: nat, acc: int32) {
    var sum := RunningSum(TapsOf(j, x, w, a), j.d.lanes, j.d.taps, icc, kh, kw, n);
    acc == Wrap32(sum) && (TapCount(j.d) <= MAX_TAPS ==> acc == sum)
  }

  /** One addition keeps it so, and does not overflow up to 131071 products. */
  lemma OneMoreProduct(j: Job, x: Tensor3, w: Tensor4, a: Cell, icc: nat, kh: nat, kw: nat, ici: nat, acc: int32,
                       product: int)
    requires Ready(j, x, w, a) && icc < j.d.inBlocks && kh < j.d.taps && kw < j.d.taps && ici < j.d.lanes
    requires Accumulated(j, x, w, a, icc, kh, kw, ici, acc)
    requires product == TapsOf(j, x, w, a)(icc * j.d.lanes + ici, kh, kw)
    ensures TapCount(j.d) <= MAX_TAPS ==> FitsInt32(acc as int + product)
    ensures Accumulated(j, x, w, a, icc, kh, kw, ici + 1, Wrap32(acc as int + product))
  {
    var taps := TapsOf(j, x, w, a);
    WrapOfSum(RunningSum(taps, j.d.lanes, j.d.taps, icc, kh, kw, ici), product);
    if TapCount(j.d) <= MAX_TAPS {
      AccumulatorFits(j, x, w, a, icc, kh, kw, ici + 1);
    }
  }

  lemma AccumulatedCarries(j: Job, x: Tensor3, w: Tensor4, a: Cell, icc: nat, kh: nat, kw: nat, acc: int32)
    ensures Accumulated(j, x, w, a, icc, kh, kw, j.d.lanes, acc) ==> Accumulated(j, x, w, a, icc, kh, kw + 1, 0, acc)
    ensures Accumulated(j, x, w, a, icc, kh, j.d.taps, 0, acc) ==> Accumulated(j, x, w, a, icc, kh + 1, 0, 0, acc)
    ensures Accumulated(j, x, w, a, icc, j.d.taps, 0, 0, acc) ==> Accumulated(j, x, w, a, icc + 1, 0, 0, 0, acc)
  {
    RunningSumCarries(TapsOf(j, x, w, a), j.d.lanes, j.d.taps, icc, kh, kw);
  }

  /** The innermost loop: the lanes of one input block at one window position. */
  method AccumulateLanes(j: Job, ghost x: Tensor3, ghost w: Tensor4, a: Cell, icc: nat, kh: nat, kw: nat, acc0: int32)
    returns (acc: int32)
    requires Ready(j, x, w, a) && icc < j.d.inBlocks && kh < j.d.taps && kw < j.d.taps
    requires Accumulated(j, x, w, a, icc, kh, kw, 0, acc0)
    ensures Accumulated(j, x, w, a, icc, kh, kw + 1, 0, acc)
  {
    acc := acc0;
    for ici := 0 to j.d.lanes
      invariant Accumulated(j, x, w, a, icc, kh, kw, ici, acc)
    {
      OperandsAgree(j, x, w, a, icc, kh, kw, ici);
      var product := j.xd[InIndex(j.d, icc, a.oh * j.s + kh, a.ow * j.s + kw, ici)] as int
                   * j.wd[WeightIndex(j.d, a.occ, icc, kh, kw, ici, a.ocb)] as int;
      OneMoreProduct(j, x, w, a, icc, kh, kw, ici, acc, product);
      assert TapCount(j.d) <= MAX_TAPS ==> FitsInt32(acc as int + product);
      acc := Wrap32(acc as int + product);
    }
    AccumulatedCarries(j, x, w, a, icc, kh, kw, acc);
  }

  /** One row of the window over one input block. */
  method AccumulateRow(j: Job, ghost x: Tensor3, ghost w: Tensor4, a: Cell, icc: nat, kh: nat, acc0: int32)
    returns (acc: int32)
    requires Ready(j, x, w, a) && icc < j.d.inBlocks && kh < j.d.taps
    requires Accumulated(j, x, w, a, icc, kh, 0, 0, acc0)
    ensures Accumulated(j, x, w, a, icc, kh + 1, 0, 0, acc)
  {
    acc := acc0;
    for kw := 0 to j.d.taps
      invariant Accumulated(j, x, w, a, icc, kh, kw, 0, acc)
    {
      acc := AccumulateLanes(j, x, w, a, icc, kh, kw, acc);
    }
    AccumulatedCarries(j, x, w, a, icc, kh, 0, acc);
  }

  /** The whole window over one input block. */
  method AccumulateBlock(j: Job, ghost x: Tensor3, ghost w: Tensor4, a: Cell, icc: nat, acc0: int32)
    returns (acc: int32)
    requires Ready(j, x, w, a) && icc < j.d.inBlocks && Accumulated(j, x, w, a, icc, 0, 0, 0, acc0)
    ensures Accumulated(j, x, w, a, icc + 1, 0, 0, 0, acc)
  {
    acc := acc0;
    for kh := 0 to j.d.taps
      invariant Accumulated(j, x, w, a, icc, kh, 0, 0, acc)
    {
      acc := AccumulateRow(j, x, w, a, icc, kh, acc);
    }
    AccumulatedCarries(j, x, w, a, icc, 0, 0, acc);
  }

  predicate AllBytes(bytes: seq<int8>, v: int) {
    forall i :: 0 <= i < |bytes| ==> bytes[i] as int == v
  }

  /** With more, buffers of -128 make every cell overflow. */
  lemma AccumulatorOverflows(j: Job, x: Tensor3, w: Tensor4, a: Cell)
    requires Ready(j, x, w, a) && TapCount(j.d) > MAX_TAPS && AllBytes(j.xd, -128) && AllBytes(j.wd, -128)
    ensures !FitsInt32(Convolution(j.d.inBlocks * j.d.lanes, j.d.taps, x, w, j.s, Channel(j.d, a), a.oh, a.ow))
  {
    forall icc, ici, kh, kw
      | 0 <= icc < j.d.inBlocks && 0 <= ici < j.d.lanes && 0 <= kh < j.d.taps && 0 <= kw < j.d.taps
      ensures TapBetween(TapsOf(j, x, w, a), j.d.lanes, icc, ici, kh, kw, 16384, 16384)
    {
      OperandsAgree(j, x, w, a, icc, kh, kw, ici);
    }
    TotalOverflows(j.d, TapsOf(j, x, w, a));
    BlockedIsPlain(j.d, x, w, j.s, Channel(j.d, a), a.oh, a.ow);
  }

  /** The accumulator of one output cell is the plain convolution, modulo 2^32. */
  method AccumulateCell(j: Job, ghost x: Tensor3, ghost w: Tensor4, a: Cell) returns (acc: int32)
    requires Ready(j, x, w, a)
    ensures acc == Wrap32(Convolution(j.d.inBlocks * j.d.lanes, j.d.taps, x, w, j.s, Channel(j.d, a), a.oh, a.ow))
    ensures TapCount(j.d) <= MAX_TAPS ==>
              acc == Convolution(j.d.inBlocks * j.d.lanes, j.d.taps, x, w, j.s, Channel(j.d, a), a.oh, a.ow)
  {
    acc := 0;
    NothingAccumulated(j, x, w, a);
    for icc := 0 to j.d.inBlocks
      invariant Accumulated(j, x, w, a, icc, 0, 0, 0, acc)
    {
      acc := AccumulateBlock(j, x, w, a, icc, acc);
    }
    AllAccumulated(j, x, w, a, acc);
  }

  lemma NothingAccumulated(j: Job, x: Tensor3, w: Tensor4, a: Cell)
    ensures Accumulated(j, x, w, a, 0, 0, 0, 0, 0)
  {
  }

  lemma AllAccumulated(j: Job, x: Tensor3, w: Tensor4, a: Cell, acc: int32)
    requires Accumulated(j, x, w, a, j.d.inBlocks, 0, 0, 0, acc)
    ensures var sum := Convolution(j.d.inBlocks * j.d.lanes, j.d.taps, x, w, j.s, Channel(j.d, a), a.oh, a.ow);
            acc == Wrap32(sum) && (TapCount(j.d) <= MAX_TAPS ==> acc == sum)
  {
    BlockedIsPlain(j.d, x, w, j.s, Channel(j.d, a), a.oh, a.ow);
  }

  // The output array -----------------------------------------------------------

  function CellIndex(d: Shape, a: Cell): int {
    OutIndex(d, a.occ, a.oh, a.ow, a.ocb)
  }

  lemma ChannelInRange(d: Shape, a: Cell)
    requires InsideCell(d, a)
    ensures 0 <= Channel(d, a) < d.outBlocks * d.lanes
  {
    Digit(a.occ, a.ocb, d.outBlocks, d.lanes);
  }

  ghost predicate HasParams(j: Job) {
    ParamsFit(j.p, j.d.outBlocks * j.d.lanes)
  }

  /** The operator's output for one cell. */
  ghost function CellValue(j: Job, x: Tensor3, w: Tensor4, a: Cell): int8
    requires HasParams(j) && InsideCell(j.d, a)
  {
    ChannelInRange(j.d, a);
    OutputByte(j.d.inBlocks * j.d.lanes, j.d.taps, x, w, j.p, j.s, Channel(j.d, a), a.oh, a.ow)
  }

  /** Every cell before position `n` holds its value. */
  ghost predicate WrittenBelow(j: Job, x: Tensor3, w: Tensor4, od: seq<int8>, n: int)
    requires HasParams(j)
  {
    forall a: Cell :: InsideCell(j.d, a) && CellIndex(j.d, a) < n ==> CellWritten(j, x, w, od, a)
  }

  ghost predicate CellWritten(j: Job, x: Tensor3, w: Tensor4, od: seq<int8>, a: Cell)
    requires HasParams(j) && InsideCell(j.d, a)
  {
    0 <= CellIndex(j.d, a) < |od| && od[CellIndex(j.d, a)] == CellValue(j, x, w, a)
  }

  /** Different cells have different positions. */
  lemma CellsDistinct(d: Shape, a: Cell, b: Cell)
    requires InsideCell(d, a) && InsideCell(d, b) && CellIndex(d, a) == CellIndex(d, b)
    ensures a == b
  {
    var e := d.extents;
    SameDivision((a.occ * e.ho + a.oh) * e.wo + a.ow, a.ocb, (b.occ * e.ho + b.oh) * e.wo + b.ow, b.ocb, d.lanes);
    SameDivision(a.occ * e.ho + a.oh, a.ow, b.occ * e.ho + b.oh, b.ow, e.wo);
    SameDivision(a.occ, a.oh, b.occ, b.oh, e.ho);
  }

  lemma OneMoreWritten(j: Job, x: Tensor3, w: Tensor4, before: seq<int8>, after: seq<int8>, a: Cell)
    requires HasParams(j) && InsideCell(j.d, a)
    requires WrittenBelow(j, x, w, before, CellIndex(j.d, a))
    requires 0 <= CellIndex(j.d, a) < |before| && after == before[CellIndex(j.d, a) := CellValue(j, x, w, a)]
    ensures WrittenBelow(j, x, w, after, CellIndex(j.d, a) + 1)
  {
    forall b: Cell | InsideCell(j.d, b) && CellIndex(j.d, b) < CellIndex(j.d, a) + 1
      ensures CellWritten(j, x, w, after, b)
    {
      if CellIndex(j.d, b) == CellIndex(j.d, a) {
        CellsDistinct(j.d, a, b);
      } else {
        assert CellWritten(j, x, w, before, b);
      }
    }
  }

  lemma ThreeWraps(sum: int, a: int, b: int, c: int)
    ensures Wrap32(Wrap32(Wrap32(Wrap32(sum) + a) - b) - c) == Wrap32(sum + a - b - c)
  {
    WrapOfSum(sum, a);
    WrapOfSum(sum + a, -b);
    WrapOfSum(sum + a - b, -c);
  }

  /** One output byte: accumulate, add bias and zero points in int32, requantise. */
  method ComputeCell(j: Job, ghost x: Tensor3, ghost w: Tensor4, a: Cell) returns (byte: int8)
    requires Ready(j, x, w, a) && HasParams(j)
    ensures byte == CellValue(j, x, w, a)
  {
    var acc := AccumulateCell(j, x, w, a);
    ChannelInRange(j.d, a);
    var oc := Channel(j.d, a);
    var bias: int, zpA: int, zpB: int := j.p.bias[oc], j.p.zpA[oc], j.p.zpB[oc];
    var t := Wrap32(Wrap32(Wrap32(acc as int + bias) as int - zpA) as int - zpB);
    ThreeWraps(Convolution(j.d.inBlocks * j.d.lanes, j.d.taps, x, w, j.s, oc, a.oh, a.ow), bias, zpA, zpB);
    byte := Requantise(t, j.p.mult[oc], j.p.shift[oc]);
  }

  /**
   * Store one cell. Cells are stored in the order of their positions, so each
   * position is written once and nothing after it has been touched.
   */
  method StoreCell(j: Job, ghost x: Tensor3, ghost w: Tensor4, od: array<int8>, a: Cell)
    requires JobHolds(j, x, w) && HasParams(j) && InsideCell(j.d, a) && od.Length == OutSize(j.d)
    requires WrittenBelow(j, x, w, od[..], CellIndex(j.d, a))
    modifies od
    ensures 0 <= CellIndex(j.d, a) < od.Length
    ensures od[..] == old(od[..])[CellIndex(j.d, a) := CellValue(j, x, w, a)]
    ensures WrittenBelow(j, x, w, od[..], CellIndex(j.d, a) + 1)
  {
    var byte := ComputeCell(j, x, w, a);
    OutIndexInBounds(j.d, a.occ, a.oh, a.ow, a.ocb);
    ghost var before := od[..];
    od[CellIndex(j.d, a)] := byte;
    assert od[..] == before[CellIndex(j.d, a) := byte];
    OneMoreWritten(j, x, w, before, od[..], a);
  }

  // The four outer loops --------------------------------------------------------

  /** Positions below `n` hold their values and the rest of the array is as it was. */
  ghost predicate Progress(j: Job, x: Tensor3, w: Tensor4, before: seq<int8>, od: seq<int8>, n: int)
    requires HasParams(j)
  {
    && 0 <= n <= |od| == |before|
    && WrittenBelow(j, x, w, od, n)
    && od[n..] == before[n..]
  }

  lemma ProgressByOne(j: Job, x: Tensor3, w: Tensor4, before: seq<int8>, od: seq<int8>, od': seq<int8>, a: Cell)
    requires HasParams(j) && InsideCell(j.d, a) && Progress(j, x, w, before, od, CellIndex(j.d, a))
    requires 0 <= CellIndex(j.d, a) < |od| && od' == od[CellIndex(j.d, a) := CellValue(j, x, w, a)]
    requires WrittenBelow(j, x, w, od', CellIndex(j.d, a) + 1)
    ensures Progress(j, x, w, before, od', CellIndex(j.d, a) + 1)
  {
    var n := CellIndex(j.d, a);
    assert od'[n + 1..] == od[n..][1..];
    assert before[n + 1..] == before[n..][1..];
  }

  /** The lanes of one output position. */
  method ConvolveLanes(j: Job, ghost x: Tensor3, ghost w: Tensor4, od: array<int8>, ghost before: seq<int8>,
                       occ: nat, oh: nat, ow: nat)
    requires JobHolds(j, x, w) && HasParams(j) && od.Length == OutSize(j.d)
    requires occ < j.d.outBlocks && oh < j.d.extents.ho && ow < j.d.extents.wo
    requires Progress(j, x, w, before, od[..], OutIndex(j.d, occ, oh, ow, 0))
    modifies od
    ensures Progress(j, x, w, before, od[..], OutIndex(j.d, occ, oh, ow + 1, 0))
  {
    for ocb := 0 to j.d.lanes
      invariant Progress(j, x, w, before, od[..], OutIndex(j.d, occ, oh, ow, ocb))
    {
      ghost var now := od[..];
      StoreCell(j, x, w, od, Cell(occ, oh, ow, ocb));
      ProgressByOne(j, x, w, before, now, od[..], Cell(occ, oh, ow, ocb));
    }
    NextMultiple((occ * j.d.extents.ho + oh) * j.d.extents.wo + ow, j.d.lanes);
  }

  /** One output row of one block. */
  method ConvolveRow(j: Job, ghost x: Tensor3, ghost w: Tensor4, od: array<int8>, ghost before: seq<int8>,
                     occ: nat, oh: nat)
    requires JobHolds(j, x, w) && HasParams(j) && od.Length == OutSize(j.d)
    requires occ < j.d.outBlocks && oh < j.d.extents.ho
    requires Progress(j, x, w, before, od[..], OutIndex(j.d, occ, oh, 0, 0))
    modifies od
    ensures Progress(j, x, w, before, od[..], OutIndex(j.d, occ, oh + 1, 0, 0))
  {
    for ow := 0 to j.d.extents.wo
      invariant Progress(j, x, w, before, od[..], OutIndex(j.d, occ, oh, ow, 0))
    {
      ConvolveLanes(j, x, w, od, before, occ, oh, ow);
    }
    NextMultiple(occ * j.d.extents.ho + oh, j.d.extents.wo);
  }

  lemma NextBlockIndex(d: Shape, occ: int)
    ensures OutIndex(d, occ, d.extents.ho, 0, 0) == OutIndex(d, occ + 1, 0, 0, 0)
  {
    NextMultiple(occ, d.extents.ho);
  }

  /** One output block. */
  method ConvolveBlock(j: Job, ghost x: Tensor3, ghost w: Tensor4, od: array<int8>, ghost before: seq<int8>, occ: nat)
    requires JobHolds(j, x, w) && HasParams(j) && od.Length == OutSize(j.d) && occ < j.d.outBlocks
    requires Progress(j, x, w, before, od[..], OutIndex(j.d, occ, 0, 0, 0))
    modifies od
    ensures Progress(j, x, w, before, od[..], OutIndex(j.d, occ + 1, 0, 0, 0))
  {
    for oh := 0 to j.d.extents.ho
      invariant Progress(j, x, w, before, od[..], OutIndex(j.d, occ, oh, 0, 0))
    {
      ConvolveRow(j, x, w, od, before, occ, oh);
    }
    NextBlockIndex(j.d, occ);
  }

  lemma FirstAndLastIndex(d: Shape)
    ensures OutIndex(d, 0, 0, 0, 0) == 0 && OutIndex(d, d.outBlocks, 0, 0, 0) == OutSize(d)
  {
  }

  lemma NothingBelowZero(j: Job, x: Tensor3, w: Tensor4, od: seq<int8>)
    requires HasParams(j)
    ensures WrittenBelow(j, x, w, od, 0)
  {
    forall a: Cell | InsideCell(j.d, a)
      ensures CellIndex(j.d, a) >= 0
    {
      OutIndexInBounds(j.d, a.occ, a.oh, a.ow, a.ocb);
    }
  }

  /** The whole nest: every cell of every output block. */
  method ConvolveAll(j: Job, ghost x: Tensor3, ghost w: Tensor4, od: array<int8>)
    requires JobHolds(j, x, w) && HasParams(j) && od.Length == OutSize(j.d)
    modifies od
    ensures Progress(j, x, w, old(od[..]), od[..], OutSize(j.d))
  {
    ghost var before := od[..];
    FirstAndLastIndex(j.d);
    NothingBelowZero(j, x, w, before);
    for occ := 0 to j.d.outBlocks
      invariant Progress(j, x, w, before, od[..], OutIndex(j.d, occ, 0, 0, 0))
    {
      ConvolveBlock(j, x, w, od, before, occ);
    }
  }

  // The entry point -------------------------------------------------------------

  /** Dense buffers of the sizes the shape asks for, blocks of four channels, a 3x3 window, parameters in range. */
  predicate ArgumentsFit(d: Shape, xd: seq<int8>, wd: seq<int8>, p: Params, outLength: nat) {
    && d.lanes == 4 && d.taps == 3
    && |xd| == InSize(d) && |wd| == WeightSize(d) && outLength == OutSize(d)
    && ParamsFit(p, d.outBlocks * d.lanes)
  }

  /** Something is read, and some of it from outside the input. */
  ghost predicate WindowLeaves(d: Shape, s: nat) {
    d.inBlocks > 0 && d.outBlocks > 0 && !ReadsInside(d.extents, s, d.taps)
  }

  /** A window leaves the input exactly when there is a window and an extent is below 3. */
  lemma WindowLeavesExactly(d: Shape, s: nat)
    requires d.taps == 3 && s >= 1 && Consistent(d.extents, s)
    ensures WindowLeaves(d, s) <==>
            && d.inBlocks > 0 && d.outBlocks > 0 && d.extents.ho > 0 && d.extents.wo > 0
            && (d.extents.hi < 3 || d.extents.wi < 3)
  {
    if d.extents.ho > 0 && d.extents.wo > 0 {
      ReadsInsideExactly(d.extents, s);
    }
  }

  /** Output channel `o` at (oh, ow) is what the operator gives for the tensors in the buffers. */
  ghost predicate OutputAgrees(d: Shape, xd: seq<int8>, wd: seq<int8>, p: Params, s: nat, od: seq<int8>,
                               o: int, oh: int, ow: int)
    requires d.lanes >= 1 && ParamsFit(p, d.outBlocks * d.lanes) && 0 <= o < d.outBlocks * d.lanes
  {
    AsOutput(d, od)(o, oh, ow)
      == OutputByte(d.inBlocks * d.lanes, d.taps, AsInput(d, xd), AsWeights(d, wd), p, s, o, oh, ow)
  }

  lemma AllWritten(j: Job, od: seq<int8>, o: int, oh: int, ow: int)
    requires j.d.lanes >= 1 && HasParams(j) && |od| == OutSize(j.d)
    requires WrittenBelow(j, AsInput(j.d, j.xd), AsWeights(j.d, j.wd), od, OutSize(j.d))
    requires 0 <= o < j.d.outBlocks * j.d.lanes && 0 <= oh < j.d.extents.ho && 0 <= ow < j.d.extents.wo
    ensures OutputAgrees(j.d, j.xd, j.wd, j.p, j.s, od, o, oh, ow)
  {
    var l := j.d.lanes;
    Division(o, l);
    if o / l < 0 {
      AtLeastOnce(-(o / l), l);
    }
    QuotientBetween(o, l, 0, j.d.outBlocks);
    var a := Cell(o / l, oh, ow, o % l);
    assert InsideCell(j.d, a);
    OutIndexInBounds(j.d, a.occ, a.oh, a.ow, a.ocb);
    assert CellWritten(j, AsInput(j.d, j.xd), AsWeights(j.d, j.wd), od, a);
  }

  /**
   * `conv3x3_requant`: on success the output buffer, read as an NCHW tensor, is the
   * plain 3x3 convolution of the input buffers, requantised; without a consistent
   * stride the call fails and the output is untouched. Any extents are accepted.
   */
  method Conv3x3Requant(d: Shape, xd: seq<int8>, wd: seq<int8>, p: Params, od: array<int8>)
    returns (status: Status, s: nat)
    requires ArgumentsFit(d, xd, wd, p, od.Length)
    modifies od
    ensures IsRecovered(d.extents, s) && (status == ErrArgs <==> s == 0)
    ensures status == ErrArgs ==> od[..] == old(od[..])
    ensures status == OutsideInput <==> s > 0 && WindowLeaves(d, s)
    ensures status == Ok ==> forall o, oh, ow ::
              0 <= o < d.outBlocks * d.lanes && 0 <= oh < d.extents.ho && 0 <= ow < d.extents.wo ==>
              OutputAgrees(d, xd, wd, p, s, od[..], o, oh, ow)
  {
    s := RecoverStride(d.extents);
    if s == 0 {
      return ErrArgs, s;
    }
    WindowLeavesExactly(d, s);
    if d.inBlocks > 0 && d.outBlocks > 0 && d.extents.ho > 0 && d.extents.wo > 0 &&
       (d.extents.hi < 3 || d.extents.wi < 3) {
      return OutsideInput, s;
    }
    var j := Job(d, s, xd, wd, p);
    BuffersHoldTensors(d, xd, wd);
    ConvolveAll(j, AsInput(d, xd), AsWeights(d, wd), od);
    forall o, oh, ow | 0 <= o < d.outBlocks * d.lanes && 0 <= oh < d.extents.ho && 0 <= ow < d.extents.wo
      ensures OutputAgrees(d, xd, wd, p, s, od[..], o, oh, ow)
    {
      AllWritten(j, od[..], o, oh, ow);
    }
    status := Ok;
  }
}
