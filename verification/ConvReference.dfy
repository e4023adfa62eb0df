/**
 * The convolution as a model-level operator on NCHW / OIHW tensors, and the
 * blocked memory layouts (NCHWc, OIHWio) in which the kernel finds them.
 */
module ConvReference {
  import opened Words
  import opened Arith
  import opened Sums
  import opened ConvStride
  import opened Requant

  /**
   * `inBlocks` and `outBlocks` count blocks of `lanes` channels and the window is
   * `taps x taps`. The kernel has lanes = 4 (NCHW4c, OIHW4i4o) and taps = 3.
   */
  datatype Shape = Shape(inBlocks: nat, outBlocks: nat, lanes: nat, taps: nat, extents: Extents)

  type Tensor3 = (int, int, int) -> int
  type Tensor4 = (int, int, int, int) -> int

  datatype Params = Params(zpA: seq<int32>, bias: seq<int32>, zpB: seq<int32>, mult: seq<int32>, shift: seq<int32>)

  predicate ParamsFit(p: Params, channels: nat) {
    && |p.zpA| == |p.bias| == |p.zpB| == |p.mult| == |p.shift| == channels
    && forall o :: 0 <= o < channels ==> ShiftInRange(p.shift[o])
  }

  // The operator -------------------------------------------------------------

  /** The products behind one output cell, by input channel and window position. */
  ghost function Taps(x: Tensor3, w: Tensor4, s: nat, o: int, oh: int, ow: int): (int, int, int) -> int {
    (c, kh, kw) => x(c, oh * s + kh, ow * s + kw) * w(o, c, kh, kw)
  }

  /** The plain convolution: channel by channel, row by row, column by column. */
  ghost function Convolution(channels: nat, k: nat, x: Tensor3, w: Tensor4, s: nat, o: int, oh: int, ow: int): int {
    Sum3(channels, k, k, Taps(x, w, s, o, oh, ow))
  }

  /** One output: convolution, bias and zero points in int32, requantised. */
  ghost function OutputByte(channels: nat, k: nat, x: Tensor3, w: Tensor4, p: Params, s: nat,
                            o: int, oh: int, ow: int): int8
    requires 0 <= o < |p.bias| && ParamsFit(p, |p.bias|)
  {
    Requantise(Wrap32(Convolution(channels, k, x, w, s, o, oh, ow) + p.bias[o] - p.zpA[o] - p.zpB[o]),
               p.mult[o], p.shift[o])
  }

  /**
   * If the int32 total does not overflow, the output is the convolution plus bias
   * minus zero points, scaled, rounded half up and clamped, exactly when the
   * requantisation of that total loses nothing.
   */
  lemma OutputIsExact(channels: nat, k: nat, x: Tensor3, w: Tensor4, p: Params, s: nat,
                      o: int, oh: int, ow: int, v: int)
    requires 0 <= o < |p.bias| && ParamsFit(p, |p.bias|)
    requires var total := Convolution(channels, k, x, w, s, o, oh, ow) + p.bias[o] - p.zpA[o] - p.zpB[o];
             FitsInt32(total) && RoundsHalfUp(total * p.mult[o], p.shift[o] + 31, v)
    ensures var total := Convolution(channels, k, x, w, s, o, oh, ow) + p.bias[o] - p.zpA[o] - p.zpB[o];
            OutputByte(channels, k, x, w, p, s, o, oh, ow) == Clamp(v) - 128 <==>
            !SumOverflows(total, p.mult[o], p.shift[o])
            && (CastFits(total, p.mult[o], p.shift[o]) || ClampsToItsSide(v))
    ensures var total := Convolution(channels, k, x, w, s, o, oh, ow) + p.bias[o] - p.zpA[o] - p.zpB[o];
            0 <= v <= 255 && !SumOverflows(total, p.mult[o], p.shift[o]) ==>
            OutputByte(channels, k, x, w, p, s, o, oh, ow) == v - 128
  {
    var total := Convolution(channels, k, x, w, s, o, oh, ow) + p.bias[o] - p.zpA[o] - p.zpB[o];
    RequantiseIsRoundingExactly(total, p.mult[o], p.shift[o], v);
  }

  // The layouts --------------------------------------------------------------

  function InIndex(d: Shape, icc: int, h: int, w: int, ici: int): int {
    ((icc * d.extents.hi + h) * d.extents.wi + w) * d.lanes + ici
  }

  function WeightIndex(d: Shape, occ: int, icc: int, kh: int, kw: int, ici: int, ocb: int): int {
    ((((occ * d.inBlocks + icc) * d.taps + kh) * d.taps + kw) * d.lanes + ici) * d.lanes + ocb
  }

  function OutIndex(d: Shape, occ: int, oh: int, ow: int, ocb: int): int {
    ((occ * d.extents.ho + oh) * d.extents.wo + ow) * d.lanes + ocb
  }

  function InSize(d: Shape): nat { d.inBlocks * d.extents.hi * d.extents.wi * d.lanes }
  function WeightSize(d: Shape): nat { d.outBlocks * d.inBlocks * d.taps * d.taps * d.lanes * d.lanes }
  function OutSize(d: Shape): nat { d.outBlocks * d.extents.ho * d.extents.wo * d.lanes }

  predicate InsideInput(d: Shape, icc: int, h: int, w: int, ici: int) {
    0 <= icc < d.inBlocks && 0 <= h < d.extents.hi && 0 <= w < d.extents.wi && 0 <= ici < d.lanes
  }

  predicate InsideWeight(d: Shape, occ: int, icc: int, kh: int, kw: int, ici: int, ocb: int) {
    && 0 <= occ < d.outBlocks && 0 <= icc < d.inBlocks && 0 <= kh < d.taps && 0 <= kw < d.taps
    && 0 <= ici < d.lanes && 0 <= ocb < d.lanes
  }

  predicate InsideOutput(d: Shape, occ: int, oh: int, ow: int, ocb: int) {
    0 <= occ < d.outBlocks && 0 <= oh < d.extents.ho && 0 <= ow < d.extents.wo && 0 <= ocb < d.lanes
  }

  /** One more digit of a mixed-radix index. */
  lemma Digit(a: int, b: int, m: int, n: int)
    requires 0 <= a < m && 0 <= b < n
    ensures 0 <= a * n + b < m * n
  {
    ProductMonotone(a + 1, m, n);
    NextMultiple(a, n);
    ProductMonotone(0, a, n);
  }

  lemma InIndexInBounds(d: Shape, icc: int, h: int, w: int, ici: int)
    requires InsideInput(d, icc, h, w, ici)
    ensures 0 <= InIndex(d, icc, h, w, ici) < InSize(d)
  {
    var e := d.extents;
    Digit(icc, h, d.inBlocks, e.hi);
    Digit(icc * e.hi + h, w, d.inBlocks * e.hi, e.wi);
    Digit((icc * e.hi + h) * e.wi + w, ici, d.inBlocks * e.hi * e.wi, d.lanes);
  }

  lemma WeightIndexInBounds(d: Shape, occ: int, icc: int, kh: int, kw: int, ici: int, ocb: int)
    requires InsideWeight(d, occ, icc, kh, kw, ici, ocb)
    ensures 0 <= WeightIndex(d, occ, icc, kh, kw, ici, ocb) < WeightSize(d)
  {
    var n := d.outBlocks * d.inBlocks;
    var i := occ * d.inBlocks + icc;
    Digit(occ, icc, d.outBlocks, d.inBlocks);
    Digit(i, kh, n, d.taps);
    Digit(i * d.taps + kh, kw, n * d.taps, d.taps);
    Digit((i * d.taps + kh) * d.taps + kw, ici, n * d.taps * d.taps, d.lanes);
    Digit(((i * d.taps + kh) * d.taps + kw) * d.lanes + ici, ocb, n * d.taps * d.taps * d.lanes, d.lanes);
  }

  lemma OutIndexInBounds(d: Shape, occ: int, oh: int, ow: int, ocb: int)
    requires InsideOutput(d, occ, oh, ow, ocb)
    ensures 0 <= OutIndex(d, occ, oh, ow, ocb) < OutSize(d)
  {
    var e := d.extents;
    Digit(occ, oh, d.outBlocks, e.ho);
    Digit(occ * e.ho + oh, ow, d.outBlocks * e.ho, e.wo);
    Digit((occ * e.ho + oh) * e.wo + ow, ocb, d.outBlocks * e.ho * e.wo, d.lanes);
  }

  /** `xd` holds tensor `x` in NCHWc: channel = block * lanes + lane. */
  ghost predicate HoldsInput(d: Shape, xd: seq<int8>, x: Tensor3) {
    forall icc, h, w, ici :: InsideInput(d, icc, h, w, ici) ==> InputAgrees(d, xd, x, icc, h, w, ici)
  }

  ghost predicate InputAgrees(d: Shape, xd: seq<int8>, x: Tensor3, icc: int, h: int, w: int, ici: int) {
    var i := InIndex(d, icc, h, w, ici);
    0 <= i < |xd| && x(icc * d.lanes + ici, h, w) == xd[i]
  }

  /** `wd` holds tensor `w` in OIHWio. */
  ghost predicate HoldsWeights(d: Shape, wd: seq<int8>, w: Tensor4) {
    forall occ, icc, kh, kw, ici, ocb :: InsideWeight(d, occ, icc, kh, kw, ici, ocb) ==>
      WeightAgrees(d, wd, w, occ, icc, kh, kw, ici, ocb)
  }

  ghost predicate WeightAgrees(d: Shape, wd: seq<int8>, w: Tensor4,
                               occ: int, icc: int, kh: int, kw: int, ici: int, ocb: int) {
    var i := WeightIndex(d, occ, icc, kh, kw, ici, ocb);
    0 <= i < |wd| && w(occ * d.lanes + ocb, icc * d.lanes + ici, kh, kw) == wd[i]
  }

  // Reading a buffer as a tensor -------------------------------------------------

  function ByteAt(bytes: seq<int8>, i: int): int {
    if 0 <= i < |bytes| then bytes[i] else 0
  }

  /** The NCHW tensor stored in `xd`. */
  function AsInput(d: Shape, xd: seq<int8>): Tensor3
    requires d.lanes >= 1
  {
    (c, h, w) => ByteAt(xd, InIndex(d, c / d.lanes, h, w, c % d.lanes))
  }

  /** The OIHW tensor stored in `wd`. */
  function AsWeights(d: Shape, wd: seq<int8>): Tensor4
    requires d.lanes >= 1
  {
    (o, c, kh, kw) => ByteAt(wd, WeightIndex(d, o / d.lanes, c / d.lanes, kh, kw, c % d.lanes, o % d.lanes))
  }

  /** The NCHW tensor stored in `od`. */
  function AsOutput(d: Shape, od: seq<int8>): Tensor3
    requires d.lanes >= 1
  {
    (o, oh, ow) => ByteAt(od, OutIndex(d, o / d.lanes, oh, ow, o % d.lanes))
  }

  lemma BuffersHoldTensors(d: Shape, xd: seq<int8>, wd: seq<int8>)
    requires d.lanes >= 1 && |xd| == InSize(d) && |wd| == WeightSize(d)
    ensures HoldsInput(d, xd, AsInput(d, xd)) && HoldsWeights(d, wd, AsWeights(d, wd))
  {
    forall icc, h, w, ici | InsideInput(d, icc, h, w, ici)
      ensures InputAgrees(d, xd, AsInput(d, xd), icc, h, w, ici)
    {
      InIndexInBounds(d, icc, h, w, ici);
      QuotientUnique(icc * d.lanes + ici, icc, ici, d.lanes);
    }
    forall occ, icc, kh, kw, ici, ocb | InsideWeight(d, occ, icc, kh, kw, ici, ocb)
      ensures WeightAgrees(d, wd, AsWeights(d, wd), occ, icc, kh, kw, ici, ocb)
    {
      WeightIndexInBounds(d, occ, icc, kh, kw, ici, ocb);
      QuotientUnique(icc * d.lanes + ici, icc, ici, d.lanes);
      QuotientUnique(occ * d.lanes + ocb, occ, ocb, d.lanes);
    }
  }

  // The order of the kernel: block, row, column, lane ---------------------------

  /** The first `n` lanes of block `icc` at one window position. */
  ghost function LanesTo(f: (int, int, int) -> int, l: nat, icc: int, kh: int, kw: int, n: nat): int
    decreases n
  {
    if n == 0 then 0 else LanesTo(f, l, icc, kh, kw, n - 1) + f(icc * l + (n - 1), kh, kw)
  }

  /** The first `n` columns of one window row. */
  ghost function ColumnsTo(f: (int, int, int) -> int, l: nat, icc: int, kh: int, n: nat): int
    decreases n
  {
    if n == 0 then 0 else ColumnsTo(f, l, icc, kh, n - 1) + LanesTo(f, l, icc, kh, n - 1, l)
  }

  ghost function RowsTo(f: (int, int, int) -> int, l: nat, k: nat, icc: int, n: nat): int
    decreases n
  {
    if n == 0 then 0 else RowsTo(f, l, k, icc, n - 1) + ColumnsTo(f, l, icc, n - 1, k)
  }

  ghost function BlocksTo(f: (int, int, int) -> int, l: nat, k: nat, n: nat): int
    decreases n
  {
    if n == 0 then 0 else BlocksTo(f, l, k, n - 1) + RowsTo(f, l, k, n - 1, k)
  }

  lemma {:induction false} LanesAreRow(f: (int, int, int) -> int, l: nat, icc: int, kh: int, kw: int, n: nat)
    ensures LanesTo(f, l, icc, kh, kw, n) == Sum(n, Fix(Slice(InBlock(l, f, icc), kh), kw))
  {
    if n > 0 {
      LanesAreRow(f, l, icc, kh, kw, n - 1);
    }
  }

  lemma {:induction false} ColumnsArePlane(f: (int, int, int) -> int, l: nat, icc: int, kh: int, n: nat)
    ensures ColumnsTo(f, l, icc, kh, n) == Sum(n, Rows(l, Slice(InBlock(l, f, icc), kh)))
  {
    if n > 0 {
      ColumnsArePlane(f, l, icc, kh, n - 1);
      LanesAreRow(f, l, icc, kh, n - 1, l);
    }
  }

  lemma {:induction false} RowsAreBlock(f: (int, int, int) -> int, l: nat, k: nat, icc: int, n: nat)
    ensures RowsTo(f, l, k, icc, n) == Sum(n, Planes(k, l, InBlock(l, f, icc)))
  {
    if n > 0 {
      RowsAreBlock(f, l, k, icc, n - 1);
      ColumnsArePlane(f, l, icc, n - 1, k);
    }
  }

  lemma RowsAreBlockTotal(f: (int, int, int) -> int, l: nat, k: nat, icc: int)
    ensures RowsTo(f, l, k, icc, k) == BlockTotals(l, k, k, f)(icc)
  {
    RowsAreBlock(f, l, k, icc, k);
  }

  lemma {:induction false} BlocksAreSum(f: (int, int, int) -> int, l: nat, k: nat, n: nat)
    ensures BlocksTo(f, l, k, n) == Sum(n, BlockTotals(l, k, k, f))
  {
    if n > 0 {
      BlocksAreSum(f, l, k, n - 1);
      RowsAreBlockTotal(f, l, k, n - 1);
      SumStep(n, BlockTotals(l, k, k, f));
    }
  }

  /** Summing in the order of the kernel gives the plain convolution. */
  lemma BlockedIsPlain(d: Shape, x: Tensor3, w: Tensor4, s: nat, o: int, oh: int, ow: int)
    ensures BlocksTo(Taps(x, w, s, o, oh, ow), d.lanes, d.taps, d.inBlocks)
         == Convolution(d.inBlocks * d.lanes, d.taps, x, w, s, o, oh, ow)
  {
    BlocksAreSum(Taps(x, w, s, o, oh, ow), d.lanes, d.taps, d.inBlocks);
    SumBlocked(d.inBlocks, d.lanes, d.taps, d.taps, Taps(x, w, s, o, oh, ow));
  }

  // Accumulator range ----------------------------------------------------------

  /** `n` terms between `lo` and `hi` add up to `v`. */
  ghost predicate Between(v: int, n: int, lo: int, hi: int) {
    lo * n <= v <= hi * n
  }

  lemma BetweenAdd(v: int, n: int, v': int, n': int, lo: int, hi: int)
    requires Between(v, n, lo, hi) && Between(v', n', lo, hi)
    ensures Between(v + v', n + n', lo, hi)
  {
    assert lo * (n + n') == lo * n + lo * n';
    assert hi * (n + n') == hi * n + hi * n';
  }

  /** The taps of blocks below `blocks` lie between `lo` and `hi`. */
  ghost predicate TapsBetween(f: (int, int, int) -> int, blocks: nat, l: nat, k: nat, lo: int, hi: int) {
    forall icc, ici, kh, kw :: 0 <= icc < blocks && 0 <= ici < l && 0 <= kh < k && 0 <= kw < k ==>
      TapBetween(f, l, icc, ici, kh, kw, lo, hi)
  }

  ghost predicate TapBetween(f: (int, int, int) -> int, l: nat, icc: int, ici: int, kh: int, kw: int,
                             lo: int, hi: int) {
    lo <= f(icc * l + ici, kh, kw) <= hi
  }

  lemma {:induction false} LanesBetween(f: (int, int, int) -> int, blocks: nat, l: nat, k: nat,
                                        icc: nat, kh: nat, kw: nat, n: nat, lo: int, hi: int)
    requires TapsBetween(f, blocks, l, k, lo, hi) && icc < blocks && kh < k && kw < k && n <= l
    ensures Between(LanesTo(f, l, icc, kh, kw, n), n, lo, hi)
  {
    if n > 0 {
      LanesBetween(f, blocks, l, k, icc, kh, kw, n - 1, lo, hi);
      assert TapBetween(f, l, icc, n - 1, kh, kw, lo, hi);
      BetweenAdd(LanesTo(f, l, icc, kh, kw, n - 1), n - 1, f(icc * l + (n - 1), kh, kw), 1, lo, hi);
    }
  }

  lemma {:induction false} ColumnsBetween(f: (int, int, int) -> int, blocks: nat, l: nat, k: nat, icc: nat, kh: nat,
                                          n: nat, lo: int, hi: int)
    requires TapsBetween(f, blocks, l, k, lo, hi) && icc < blocks && kh < k && n <= k
    ensures Between(ColumnsTo(f, l, icc, kh, n), n * l, lo, hi)
  {
    if n > 0 {
      ColumnsBetween(f, blocks, l, k, icc, kh, n - 1, lo, hi);
      LanesBetween(f, blocks, l, k, icc, kh, n - 1, l, lo, hi);
      BetweenAdd(ColumnsTo(f, l, icc, kh, n - 1), (n - 1) * l, LanesTo(f, l, icc, kh, n - 1, l), l, lo, hi);
      NextMultiple(n - 1, l);
    }
  }

  lemma {:induction false} RowsBetween(f: (int, int, int) -> int, blocks: nat, l: nat, k: nat, icc: nat,
                                       n: nat, lo: int, hi: int)
    requires TapsBetween(f, blocks, l, k, lo, hi) && icc < blocks && n <= k
    ensures Between(RowsTo(f, l, k, icc, n), n * (k * l), lo, hi)
  {
    if n > 0 {
      RowsBetween(f, blocks, l, k, icc, n - 1, lo, hi);
      ColumnsBetween(f, blocks, l, k, icc, n - 1, k, lo, hi);
      BetweenAdd(RowsTo(f, l, k, icc, n - 1), (n - 1) * (k * l), ColumnsTo(f, l, icc, n - 1, k), k * l, lo, hi);
      NextMultiple(n - 1, k * l);
    }
  }

  lemma {:induction false} BlocksBetween(f: (int, int, int) -> int, blocks: nat, l: nat, k: nat, n: nat,
                                         lo: int, hi: int)
    requires TapsBetween(f, blocks, l, k, lo, hi) && n <= blocks
    ensures Between(BlocksTo(f, l, k, n), n * (k * (k * l)), lo, hi)
  {
    if n > 0 {
      BlocksBetween(f, blocks, l, k, n - 1, lo, hi);
      RowsBetween(f, blocks, l, k, n - 1, k, lo, hi);
      BetweenAdd(BlocksTo(f, l, k, n - 1), (n - 1) * (k * (k * l)), RowsTo(f, l, k, n - 1, k), k * (k * l), lo, hi);
      NextMultiple(n - 1, k * (k * l));
    }
  }

  /** The accumulator after `icc` blocks, `kh` rows, `kw` columns and `n` lanes. */
  ghost function RunningSum(f: (int, int, int) -> int, l: nat, k: nat, icc: nat, kh: nat, kw: nat, n: nat): int {
    BlocksTo(f, l, k, icc) + RowsTo(f, l, k, icc, kh) + ColumnsTo(f, l, icc, kh, kw) + LanesTo(f, l, icc, kh, kw, n)
  }

  /** A full row of lanes is a column more, a full row of columns a row more, a full window a block more. */
  lemma RunningSumCarries(f: (int, int, int) -> int, l: nat, k: nat, icc: nat, kh: nat, kw: nat)
    ensures RunningSum(f, l, k, icc, kh, kw, l) == RunningSum(f, l, k, icc, kh, kw + 1, 0)
    ensures RunningSum(f, l, k, icc, kh, k, 0) == RunningSum(f, l, k, icc, kh + 1, 0, 0)
    ensures RunningSum(f, l, k, icc, k, 0, 0) == RunningSum(f, l, k, icc + 1, 0, 0, 0)
  {
  }

  /** The number of products behind one output. */
  function TapCount(d: Shape): nat {
    d.inBlocks * (d.taps * (d.taps * d.lanes))
  }

  lemma DigitAtMost(a: int, b: int, m: int, n: int)
    requires 0 <= a < m && 0 <= b <= n
    ensures 0 <= a * n + b <= m * n
  {
    ProductMonotone(a + 1, m, n);
    NextMultiple(a, n);
    ProductMonotone(0, a, n);
  }

  /** Bounds of the products bound the accumulator after any number of them. */
  lemma RunningSumBetween(d: Shape, f: (int, int, int) -> int, icc: nat, kh: nat, kw: nat, n: nat, lo: int, hi: int)
    returns (count: int)
    requires TapsBetween(f, d.inBlocks, d.lanes, d.taps, lo, hi)
    requires icc < d.inBlocks && kh < d.taps && kw < d.taps && n <= d.lanes
    ensures 0 <= count <= TapCount(d) && Between(RunningSum(f, d.lanes, d.taps, icc, kh, kw, n), count, lo, hi)
  {
    var l, k, b := d.lanes, d.taps, d.inBlocks;
    BlocksBetween(f, b, l, k, icc, lo, hi);
    RowsBetween(f, b, l, k, icc, kh, lo, hi);
    ColumnsBetween(f, b, l, k, icc, kh, kw, lo, hi);
    LanesBetween(f, b, l, k, icc, kh, kw, n, lo, hi);
    var blocks, rows, columns := icc * (k * (k * l)), kh * (k * l), kw * l;
    BetweenAdd(BlocksTo(f, l, k, icc), blocks, RowsTo(f, l, k, icc, kh), rows, lo, hi);
    BetweenAdd(BlocksTo(f, l, k, icc) + RowsTo(f, l, k, icc, kh), blocks + rows,
               ColumnsTo(f, l, icc, kh, kw), columns, lo, hi);
    BetweenAdd(BlocksTo(f, l, k, icc) + RowsTo(f, l, k, icc, kh) + ColumnsTo(f, l, icc, kh, kw),
               blocks + rows + columns, LanesTo(f, l, icc, kh, kw, n), n, lo, hi);
    count := blocks + rows + columns + n;
    DigitAtMost(kw, n, k, l);
    DigitAtMost(kh, columns + n, k, k * l);
    DigitAtMost(icc, rows + columns + n, b, k * (k * l));
  }

  const MAX_TAPS: nat := 131071

  /** Products of int8 values, at most 131071 of them: the accumulator never leaves int32. */
  lemma RunningSumFits(d: Shape, f: (int, int, int) -> int, icc: nat, kh: nat, kw: nat, n: nat)
    requires TapsBetween(f, d.inBlocks, d.lanes, d.taps, -16384, 16384) && TapCount(d) <= MAX_TAPS
    requires icc < d.inBlocks && kh < d.taps && kw < d.taps && n <= d.lanes
    ensures FitsInt32(RunningSum(f, d.lanes, d.taps, icc, kh, kw, n))
  {
    var count := RunningSumBetween(d, f, icc, kh, kw, n, -16384, 16384);
  }

  /** One product more, all of them the largest, and it does. */
  lemma TotalOverflows(d: Shape, f: (int, int, int) -> int)
    requires TapsBetween(f, d.inBlocks, d.lanes, d.taps, 16384, 16384) && TapCount(d) > MAX_TAPS
    ensures !FitsInt32(BlocksTo(f, d.lanes, d.taps, d.inBlocks))
  {
    BlocksBetween(f, d.inBlocks, d.lanes, d.taps, d.inBlocks, 16384, 16384);
  }

  /** For the 3x3 kernel with four lanes the limit is 3640 channel blocks. */
  lemma BlockLimit(d: Shape)
    requires d.lanes == 4 && d.taps == 3
    ensures TapCount(d) <= MAX_TAPS <==> d.inBlocks <= 3640
  {
  }
}
