/**
 * Byte offsets of buffers and slices in a host program, propagated op by op from
 * allocations through partition tensors and nested 2-D slices.
 */
module ByteOffsets {
  import opened Basics
  import opened Arith

  /** The ops that matter; every name is an SSA variable. */
  datatype Op =
    | Allocate(result: string, size: int)
    | DeclareData(result: string, mem: string, size: int)
    | PartitionTensor(result: string, data: string, elemSize: int, shape: seq<int>)
    | ExtractSlice(result: string, src: string, off0: int, off1: int, size0: int, size1: int)
    | BufferOffset(result: string, base: string, offset: int)
    | DeclareTensor(src: string)
    | OtherOp

  /** What is known about a variable; `offset` is in bytes from the start of the buffer. */
  datatype Info = Info(elemSize: int, shape: seq<int>, offset: int, allocSize: int, allocVar: string)

  datatype Range = Range(lo: int, hi: int)

  type Env = map<string, Info>

  function Find(env: Env, name: string): Option<Info> {
    if name in env then Some(env[name]) else None
  }

  function Product(shape: seq<int>): int {
    if shape == [] then 1 else Product(shape[..|shape| - 1]) * shape[|shape| - 1]
  }

  /** The row pitch the tool uses: the second extent of the parent, or 0. */
  function Dim1(info: Info): int {
    if |info.shape| > 1 then info.shape[1] else 0
  }

  function SliceInfo(p: Info, off0: int, off1: int, size0: int, size1: int): Info {
    Info(p.elemSize, [size0, size1], p.offset + (off0 * Dim1(p) + off1) * p.elemSize, p.allocSize, p.allocVar)
  }

  /** The bytes of a variable with a shape, taken as one contiguous run. */
  function Bytes(info: Info): Range {
    Range(info.offset, info.offset + Product(info.shape) * info.elemSize)
  }

  /** The new knowledge an op adds, and the range it is annotated with. */
  function Learn(env: Env, op: Op): (Option<Info>, Option<Range>) {
    match op
    case Allocate(result, size) => (Some(Info(1, [], 0, size, result)), None)
    case DeclareData(_, mem, size) =>
      var p := Find(env, mem);
      var info := Info(1, [], 0, if p.Some? then p.value.allocSize else size,
                       if p.Some? then p.value.allocVar else mem);
      (Some(info), Some(Range(0, info.allocSize)))
    case PartitionTensor(_, data, elemSize, shape) =>
      var p := Find(env, data);
      var info := Info(elemSize, shape, 0, if p.Some? then p.value.allocSize else 0,
                       if p.Some? then p.value.allocVar else data);
      (Some(info), Some(Bytes(info)))
    case ExtractSlice(_, src, off0, off1, size0, size1) =>
      var p := Find(env, src);
      if p.None? then (None, None)
      else
        var info := SliceInfo(p.value, off0, off1, size0, size1);
        (Some(info), Some(Range(info.offset, info.offset + size0 * size1 * info.elemSize)))
    case BufferOffset(_, base, offset) =>
      var p := Find(env, base);
      var parent := if p.Some? then p.value else Info(1, [], 0, 0, base);
      var at := parent.offset + offset;
      var left := if parent.allocSize > at then parent.allocSize - at else 0;
      (Some(parent.(offset := at)), Some(Range(at, at + left)))
    case DeclareTensor(src) =>
      var p := Find(env, src);
      (None, if p.Some? then Some(Bytes(p.value)) else None)
    case OtherOp => (None, None)
  }

  function After(env: Env, op: Op): Env {
    var info := Learn(env, op).0;
    if info.Some? && HasResult(op) then env[op.result := info.value] else env
  }

  predicate HasResult(op: Op) {
    !op.DeclareTensor? && !op.OtherOp?
  }

  /** The knowledge before op `n`. */
  function EnvAt(ops: seq<Op>, n: nat): Env
    requires n <= |ops|
  {
    if n == 0 then map[] else After(EnvAt(ops, n - 1), ops[n - 1])
  }

  /** The annotation of op `i`. */
  function RangeOf(ops: seq<Op>, i: nat): Option<Range>
    requires i < |ops|
  {
    Learn(EnvAt(ops, i), ops[i]).1
  }

  /** `_compute_byte_offsets`: one pass over the program. */
  method ComputeByteOffsets(ops: seq<Op>) returns (ranges: seq<Option<Range>>)
    ensures |ranges| == |ops|
    ensures forall i :: 0 <= i < |ops| ==> ranges[i] == RangeOf(ops, i)
  {
    ranges := [];
    var env: Env := map[];
    for i := 0 to |ops|
      invariant env == EnvAt(ops, i) && |ranges| == i
      invariant forall k :: 0 <= k < i ==> ranges[k] == RangeOf(ops, k)
    {
      ranges := ranges + [Learn(env, ops[i]).1];
      env := After(env, ops[i]);
    }
  }

  // Nested slices stay inside -----------------------------------------------------------

  predicate Is2D(info: Info) {
    |info.shape| == 2 && info.shape[0] >= 0 && info.shape[1] >= 0 && info.elemSize >= 0
  }

  predicate Within(inner: Range, outer: Range) {
    outer.lo <= inner.lo && inner.hi <= outer.hi
  }

  /** A non-empty slice inside the shape of its parent. */
  predicate SliceFits(p: Info, off0: int, off1: int, size0: int, size1: int) {
    && Is2D(p) && off0 >= 0 && off1 >= 0 && size0 >= 1 && size1 >= 1
    && off0 + size0 <= p.shape[0] && off1 + size1 <= p.shape[1]
  }

  lemma Product2(a: int, b: int)
    ensures Product([a, b]) == a * b
  {
    assert [a, b][..1] == [a] && [a][..0] == [];
    assert Product([a]) == a;
  }

  lemma LastRowFits(p0: int, p1: int, off0: int, off1: int, s0: int, s1: int)
    requires off0 >= 0 && off1 >= 0 && s0 >= 1 && s1 >= 1 && off0 + s0 <= p0 && off1 + s1 <= p1
    ensures 0 <= off0 * p1 + off1 && off0 * p1 + off1 + s0 * s1 <= p0 * p1
  {
    ProductMonotone(s1, p1, s0 - 1);
    NextMultiple(s0 - 1, s1);
    NextMultiple(off0 + s0 - 1, p1);
    ProductMonotone(off0 + s0, p0, p1);
    ProductMonotone(0, off0, p1);
    assert off0 * p1 + (s0 - 1) * p1 == (off0 + s0 - 1) * p1;
  }

  /** One slice: its byte range lies inside the range of its parent. */
  lemma SliceWithinParent(p: Info, off0: int, off1: int, size0: int, size1: int)
    requires SliceFits(p, off0, off1, size0, size1)
    ensures Is2D(SliceInfo(p, off0, off1, size0, size1))
    ensures Within(Bytes(SliceInfo(p, off0, off1, size0, size1)), Bytes(p))
  {
    var local, area, whole := off0 * p.shape[1] + off1, size0 * size1, p.shape[0] * p.shape[1];
    assert p.shape == [p.shape[0], p.shape[1]];
    Product2(p.shape[0], p.shape[1]);
    Product2(size0, size1);
    LastRowFits(p.shape[0], p.shape[1], off0, off1, size0, size1);
    ProductMonotone(0, local, p.elemSize);
    ProductMonotone(local + area, whole, p.elemSize);
    assert (local + area) * p.elemSize == local * p.elemSize + area * p.elemSize;
  }

  /** The annotation of a slice lies inside the bytes of its source. */
  lemma AnnotationWithinSource(ops: seq<Op>, i: nat)
    requires i < |ops| && ops[i].ExtractSlice? && ops[i].src in EnvAt(ops, i)
    requires SliceFits(EnvAt(ops, i)[ops[i].src], ops[i].off0, ops[i].off1, ops[i].size0, ops[i].size1)
    ensures RangeOf(ops, i).Some? && Within(RangeOf(ops, i).value, Bytes(EnvAt(ops, i)[ops[i].src]))
  {
    var op := ops[i];
    SliceWithinParent(EnvAt(ops, i)[op.src], op.off0, op.off1, op.size0, op.size1);
    Product2(op.size0, op.size1);
  }

  /** The annotation of a slice is the bytes of its result. */
  lemma AnnotationIsBytes(ops: seq<Op>, i: nat)
    requires i < |ops| && ops[i].ExtractSlice? && ops[i].src in EnvAt(ops, i)
    ensures ops[i].result in EnvAt(ops, i + 1) && RangeOf(ops, i) == Some(Bytes(EnvAt(ops, i + 1)[ops[i].result]))
  {
    Product2(ops[i].size0, ops[i].size1);
  }

  /** `name` was cut, in any number of steps, out of the tensor declared by op `root`. */
  ghost predicate CutFrom(ops: seq<Op>, n: nat, name: string, root: nat)
    requires n <= |ops|
    decreases n
  {
    n > 0 &&
    var op := ops[n - 1];
    if Defines(ops, n, name) then
      || (op.PartitionTensor? && root == n - 1)
      || (op.ExtractSlice? && CutFrom(ops, n - 1, op.src, root))
    else CutFrom(ops, n - 1, name, root)
  }

  /** Op `n - 1` is what defines `name`. */
  predicate Defines(ops: seq<Op>, n: nat, name: string)
    requires 0 < n <= |ops|
  {
    HasResult(ops[n - 1]) && Learn(EnvAt(ops, n - 1), ops[n - 1]).0.Some? && ops[n - 1].result == name
  }

  /** Every slice on the way from the tensor to `name` fits in what is known about its source. */
  ghost predicate ChainFits(ops: seq<Op>, n: nat, name: string, root: nat)
    requires n <= |ops| && CutFrom(ops, n, name, root)
    decreases n
  {
    var op := ops[n - 1];
    if !Defines(ops, n, name) then ChainFits(ops, n - 1, name, root)
    else op.ExtractSlice? ==>
           && SliceFits(EnvAt(ops, n - 1)[op.src], op.off0, op.off1, op.size0, op.size1)
           && ChainFits(ops, n - 1, op.src, root)
  }

  /** However deep the nesting, the bytes of a slice lie inside the bytes of the tensor it came from. */
  lemma {:induction false} NestedSlicesStayInside(ops: seq<Op>, n: nat, name: string, root: nat)
    requires n <= |ops| && CutFrom(ops, n, name, root) && ChainFits(ops, n, name, root)
    ensures root < n && ops[root].PartitionTensor? && name in EnvAt(ops, n)
    ensures var tensor := Learn(EnvAt(ops, root), ops[root]).0.value;
            Is2D(tensor) ==> Is2D(EnvAt(ops, n)[name]) && Within(Bytes(EnvAt(ops, n)[name]), Bytes(tensor))
  {
    var env, op := EnvAt(ops, n - 1), ops[n - 1];
    if Defines(ops, n, name) {
      if op.ExtractSlice? {
        NestedSlicesStayInside(ops, n - 1, op.src, root);
        SliceWithinParent(env[op.src], op.off0, op.off1, op.size0, op.size1);
      }
    } else {
      NestedSlicesStayInside(ops, n - 1, name, root);
    }
  }

  // What the bytes really are -------------------------------------------------------------

  /** A window on a row-major tensor, in elements: the rows of every nested window are `pitch` apart. */
  datatype View = View(base: int, rows: int, cols: int, pitch: int)

  function Element(v: View, i: int, j: int): int {
    v.base + i * v.pitch + j
  }

  function Cut(v: View, off0: int, off1: int, size0: int, size1: int): View {
    View(v.base + off0 * v.pitch + off1, size0, size1, v.pitch)
  }

  /** Cutting selects the elements it names. */
  lemma CutSelects(v: View, off0: int, off1: int, size0: int, size1: int, i: int, j: int)
    ensures Element(Cut(v, off0, off1, size0, size1), i, j) == Element(v, off0 + i, off1 + j)
  {
    assert (off0 + i) * v.pitch == off0 * v.pitch + i * v.pitch;
  }

  /** The tool's knowledge of a variable describes the window `v`. */
  predicate Describes(info: Info, v: View) {
    info.elemSize >= 1 && info.shape == [v.rows, v.cols] && info.offset == v.base * info.elemSize
  }

  /**
   * The offset of a slice is right exactly when it starts in the first row or its
   * parent is as wide as the tensor: the tool takes the parent's width for the pitch.
   */
  lemma SliceOffsetExactly(p: Info, v: View, off0: int, off1: int, size0: int, size1: int)
    requires Describes(p, v)
    ensures Describes(SliceInfo(p, off0, off1, size0, size1), Cut(v, off0, off1, size0, size1))
            <==> off0 == 0 || v.cols == v.pitch
  {
    var tool, true' := off0 * v.cols + off1, off0 * v.pitch + off1;
    assert (v.base + true') * p.elemSize == v.base * p.elemSize + true' * p.elemSize;
    Distributes(tool, true', p.elemSize);
    assert tool - true' == off0 * (v.cols - v.pitch);
    ZeroProduct(tool - true', p.elemSize);
    ZeroProduct(off0, v.cols - v.pitch);
  }

  lemma ZeroProduct(a: int, b: int)
    ensures a * b == 0 <==> a == 0 || b == 0
  {
  }

  /** Every element of the window lies in the byte range. */
  ghost predicate Covers(r: Range, v: View, elemSize: int) {
    forall i, j :: 0 <= i < v.rows && 0 <= j < v.cols ==> ElementInside(r, v, elemSize, i, j)
  }

  predicate ElementInside(r: Range, v: View, elemSize: int, i: int, j: int) {
    r.lo <= Element(v, i, j) * elemSize && (Element(v, i, j) + 1) * elemSize <= r.hi
  }

  lemma ScaledOrder(a: int, b: int, e: int)
    requires e >= 1
    ensures a * e <= b * e <==> a <= b
  {
    Distributes(b, a, e);
    if a < b {
      AtLeastOnce(b - a, e);
    } else if b < a {
      Distributes(a, b, e);
      AtLeastOnce(a - b, e);
    }
  }

  lemma WindowInside(rows: int, cols: int, pitch: int, i: int, j: int)
    requires 0 <= i < rows && 0 <= j < cols <= pitch && (rows == 1 || cols == pitch)
    ensures 0 <= i * pitch + j < rows * cols
  {
    ProductMonotone(i + 1, rows, pitch);
    NextMultiple(i, pitch);
    ProductMonotone(0, i, pitch);
  }

  lemma LastElementOutside(rows: int, cols: int, pitch: int)
    requires rows >= 2 && 1 <= cols < pitch
    ensures (rows - 1) * pitch + cols > rows * cols
  {
    Distributes(pitch, cols, rows - 1);
    AtLeastOnce(pitch - cols, rows - 1);
    NextMultiple(rows - 1, cols);
  }

  lemma BytesOfWindow(info: Info, v: View)
    requires Describes(info, v)
    ensures Bytes(info) == Range(v.base * info.elemSize, (v.base + v.rows * v.cols) * info.elemSize)
  {
    Product2(v.rows, v.cols);
    Distributes(v.base, -(v.rows * v.cols), info.elemSize);
  }

  /** A non-empty window's contiguous range holds all its elements exactly when it is one row or full width. */
  lemma RangeCoversExactly(info: Info, v: View)
    requires Describes(info, v) && v.rows >= 1 && 1 <= v.cols <= v.pitch
    ensures Covers(Bytes(info), v, info.elemSize) <==> v.rows == 1 || v.cols == v.pitch
  {
    var e, r, area := info.elemSize, Bytes(info), v.rows * v.cols;
    BytesOfWindow(info, v);
    if v.rows == 1 || v.cols == v.pitch {
      forall i, j | 0 <= i < v.rows && 0 <= j < v.cols
        ensures ElementInside(r, v, e, i, j)
      {
        WindowInside(v.rows, v.cols, v.pitch, i, j);
        ScaledOrder(v.base, Element(v, i, j), e);
        ScaledOrder(Element(v, i, j) + 1, v.base + area, e);
      }
    } else {
      LastElementOutside(v.rows, v.cols, v.pitch);
      ScaledOrder(Element(v, v.rows - 1, v.cols - 1) + 1, v.base + area, e);
      assert !ElementInside(r, v, e, v.rows - 1, v.cols - 1);
    }
  }

  /**
   * The left half of a 4x4 byte tensor is known but its range misses its last rows,
   * and its second row is placed at byte 2 instead of 4.
   */
  lemma NarrowSliceMisplaced(mem: string)
    ensures var tensor, whole := Info(1, [4, 4], 0, 16, mem), View(0, 4, 4, 4);
            var half, window := SliceInfo(tensor, 0, 0, 4, 2), Cut(whole, 0, 0, 4, 2);
            && Describes(tensor, whole) && Describes(half, window)
            && !Covers(Bytes(half), window, 1)
            && SliceInfo(half, 1, 0, 1, 2).offset == 2 && Cut(window, 1, 0, 1, 2).base == 4
  {
    var half, window := Info(1, [4, 2], 0, 16, mem), View(0, 4, 2, 4);
    assert SliceInfo(Info(1, [4, 4], 0, 16, mem), 0, 0, 4, 2) == half && Cut(View(0, 4, 4, 4), 0, 0, 4, 2) == window;
    RangeCoversExactly(half, window);
  }

  /** Every byte of the range belongs to an element of the window. */
  ghost predicate HoldsOnly(r: Range, v: View, elemSize: int) {
    forall b :: r.lo <= b < r.hi ==> InWindow(v, elemSize, b)
  }

  ghost predicate InWindow(v: View, elemSize: int, b: int) {
    exists i, j :: 0 <= i < v.rows && 0 <= j < v.cols && ByteOf(v, elemSize, i, j, b)
  }

  predicate ByteOf(v: View, elemSize: int, i: int, j: int, b: int) {
    Element(v, i, j) * elemSize <= b < (Element(v, i, j) + 1) * elemSize
  }

  /** Element number `m` of a contiguous window, by row and column. */
  lemma RowAndColumn(rows: int, cols: int, pitch: int, m: int) returns (i: int, j: int)
    requires 1 <= cols <= pitch && (rows == 1 || cols == pitch) && 0 <= m < rows * cols
    ensures 0 <= i < rows && 0 <= j < cols && i * pitch + j == m
  {
    if cols == pitch {
      i, j := m / cols, m % cols;
      Division(m, cols);
      QuotientBetween(m, cols, 0, rows);
    } else {
      i, j := 0, m;
    }
  }

  /** A window of one row or full width has no other bytes in its range. */
  lemma RangeHoldsOnly(info: Info, v: View)
    requires Describes(info, v) && v.rows >= 1 && 1 <= v.cols <= v.pitch && (v.rows == 1 || v.cols == v.pitch)
    ensures HoldsOnly(Bytes(info), v, info.elemSize)
  {
    var e, r, area := info.elemSize, Bytes(info), v.rows * v.cols;
    BytesOfWindow(info, v);
    forall b | r.lo <= b < r.hi
      ensures InWindow(v, e, b)
    {
      QuotientBetween(b, e, v.base, v.base + area);
      Division(b, e);
      var i, j := RowAndColumn(v.rows, v.cols, v.pitch, b / e - v.base);
      NextMultiple(b / e, e);
      assert Element(v, i, j) == b / e && ByteOf(v, e, i, j, b);
    }
  }

  /** Full-width slices over disjoint row bands of one parent get disjoint ranges. */
  lemma RowBandsAreDisjoint(p: Info, a0: int, a: int, b0: int, b: int)
    requires Is2D(p) && a0 >= 0 && a >= 0 && b >= 0 && a0 + a <= b0
    ensures Bytes(SliceInfo(p, a0, 0, a, p.shape[1])).hi <= Bytes(SliceInfo(p, b0, 0, b, p.shape[1])).lo
  {
    var w := p.shape[1];
    Product2(a, w);
    ProductMonotone(a0 + a, b0, w);
    assert (a0 + a) * w == a0 * w + a * w;
    ProductMonotone(a0 * w + a * w, b0 * w, p.elemSize);
    assert (a0 * w + a * w) * p.elemSize == a0 * w * p.elemSize + a * w * p.elemSize;
  }

  /** Op `i` cuts a band of full rows out of a variable known as `p`. */
  predicate CutsBand(ops: seq<Op>, i: nat, p: Info) {
    && i < |ops| && ops[i].ExtractSlice? && ops[i].src in EnvAt(ops, i) && EnvAt(ops, i)[ops[i].src] == p
    && ops[i].off1 == 0 && ops[i].size1 == Dim1(p) && ops[i].size0 >= 0
  }

  /** Two ops of a program that cut disjoint bands of full rows out of one variable are annotated with
      disjoint ranges. */
  lemma BandAnnotationsAreDisjoint(ops: seq<Op>, i: nat, j: nat, p: Info)
    requires CutsBand(ops, i, p) && CutsBand(ops, j, p) && Is2D(p)
    requires ops[i].off0 >= 0 && ops[i].off0 + ops[i].size0 <= ops[j].off0
    ensures RangeOf(ops, i).Some? && RangeOf(ops, j).Some?
    ensures RangeOf(ops, i).value.hi <= RangeOf(ops, j).value.lo
  {
    AnnotationIsBytes(ops, i);
    AnnotationIsBytes(ops, j);
    RowBandsAreDisjoint(p, ops[i].off0, ops[i].size0, ops[j].off0, ops[j].size0);
  }

  // Whole programs ---------------------------------------------------------------------------

  /** The window the slices really name: the whole tensor, cut as each slice says. */
  ghost function WindowOf(ops: seq<Op>, n: nat, name: string, root: nat): View
    requires n <= |ops| && CutFrom(ops, n, name, root)
    decreases n
  {
    var op := ops[n - 1];
    if !Defines(ops, n, name) then WindowOf(ops, n - 1, name, root)
    else if op.PartitionTensor? then WholeTensor(op.shape)
    else Cut(WindowOf(ops, n - 1, op.src, root), op.off0, op.off1, op.size0, op.size1)
  }

  function WholeTensor(shape: seq<int>): View {
    if |shape| == 2 then View(0, shape[0], shape[1], shape[1]) else View(0, 0, 0, 0)
  }

  predicate NonEmptyMatrix(op: Op) {
    op.PartitionTensor? && op.elemSize >= 1 && |op.shape| == 2 && op.shape[0] >= 1 && op.shape[1] >= 1
  }

  /** Every slice on the way to `name` starts in row 0 or is cut out of something as wide as the tensor. */
  ghost predicate ChainPlaced(ops: seq<Op>, n: nat, name: string, root: nat)
    requires n <= |ops| && CutFrom(ops, n, name, root) && root < |ops| && NonEmptyMatrix(ops[root])
    decreases n
  {
    var op := ops[n - 1];
    if !Defines(ops, n, name) then ChainPlaced(ops, n - 1, name, root)
    else op.ExtractSlice? ==>
           && (op.off0 == 0 || Dim1(EnvAt(ops, n - 1)[op.src]) == ops[root].shape[1])
           && ChainPlaced(ops, n - 1, op.src, root)
  }

  /** The tool knows the shape of window `v` but places it `d` elements too low. */
  predicate TooLow(info: Info, v: View, d: int) {
    && info.elemSize >= 1 && info.shape == [v.rows, v.cols] && v.rows >= 1 && 1 <= v.cols <= v.pitch
    && d >= 0 && info.offset == (v.base - d) * info.elemSize
  }

  /** One slice adds what the narrow parent takes away from its row offset: never less than nothing. */
  lemma SliceTooLow(p: Info, u: View, d: int, off0: int, off1: int, size0: int, size1: int) returns (d': int)
    requires TooLow(p, u, d) && SliceFits(p, off0, off1, size0, size1)
    ensures TooLow(SliceInfo(p, off0, off1, size0, size1), Cut(u, off0, off1, size0, size1), d')
    ensures d' == 0 <==> d == 0 && (off0 == 0 || u.cols == u.pitch)
  {
    d' := d + off0 * (u.pitch - u.cols);
    ProductMonotone(0, off0, u.pitch - u.cols);
    ZeroProduct(off0, u.pitch - u.cols);
    var tool, e := off0 * u.cols + off1, p.elemSize;
    assert off0 * (u.pitch - u.cols) == off0 * u.pitch - off0 * u.cols;
    assert u.base + off0 * u.pitch + off1 - d' == u.base - d + tool;
    assert (u.base - d + tool) * e == (u.base - d) * e + tool * e;
  }

  lemma {:induction false} ChainTooLow(ops: seq<Op>, n: nat, name: string, root: nat) returns (d: int)
    requires n <= |ops| && CutFrom(ops, n, name, root) && ChainFits(ops, n, name, root)
    requires root < |ops| && NonEmptyMatrix(ops[root])
    ensures name in EnvAt(ops, n) && TooLow(EnvAt(ops, n)[name], WindowOf(ops, n, name, root), d)
    ensures WindowOf(ops, n, name, root).pitch == ops[root].shape[1]
    ensures d == 0 <==> ChainPlaced(ops, n, name, root)
  {
    var env, op := EnvAt(ops, n - 1), ops[n - 1];
    if !Defines(ops, n, name) {
      d := ChainTooLow(ops, n - 1, name, root);
    } else if op.ExtractSlice? {
      d := ChainTooLow(ops, n - 1, op.src, root);
      d := SliceTooLow(env[op.src], WindowOf(ops, n - 1, op.src, root), d, op.off0, op.off1, op.size0, op.size1);
    } else {
      d := 0;
      assert op.shape == [op.shape[0], op.shape[1]];
    }
  }

  /** A range that is too low, or whose window is narrow, misses the last element. */
  lemma TooLowCoversExactly(info: Info, v: View, d: int)
    requires TooLow(info, v, d)
    ensures Covers(Bytes(info), v, info.elemSize) <==> d == 0 && (v.rows == 1 || v.cols == v.pitch)
  {
    var e, area := info.elemSize, v.rows * v.cols;
    if d == 0 {
      RangeCoversExactly(info, v);
    } else {
      BytesOfWindow(info, v.(base := v.base - d));
      NextMultiple(v.rows - 1, v.cols);
      ProductMonotone(v.cols, v.pitch, v.rows - 1);
      ScaledOrder(Element(v, v.rows - 1, v.cols - 1) + 1, v.base - d + area, e);
      assert !ElementInside(Bytes(info), v, e, v.rows - 1, v.cols - 1);
    }
  }

  /**
   * In any program, the annotation of a slice covers the elements it names exactly when
   * every slice on the way starts in row 0 or is cut out of something as wide as the
   * tensor, and its own window is one row or as wide as the tensor. Then the range holds
   * nothing else.
   */
  lemma AnnotationCoversExactly(ops: seq<Op>, i: nat, root: nat)
    requires i < |ops| && ops[i].ExtractSlice? && ops[i].src in EnvAt(ops, i)
    requires CutFrom(ops, i + 1, ops[i].result, root)
    requires ChainFits(ops, i + 1, ops[i].result, root) && root < |ops| && NonEmptyMatrix(ops[root])
    ensures RangeOf(ops, i).Some?
    ensures var v := WindowOf(ops, i + 1, ops[i].result, root);
            var right := ChainPlaced(ops, i + 1, ops[i].result, root) && (v.rows == 1 || v.cols == v.pitch);
            && (Covers(RangeOf(ops, i).value, v, EnvAt(ops, i + 1)[ops[i].result].elemSize) <==> right)
            && (right ==> HoldsOnly(RangeOf(ops, i).value, v, EnvAt(ops, i + 1)[ops[i].result].elemSize))
  {
    var name := ops[i].result;
    var d := ChainTooLow(ops, i + 1, name, root);
    var info, v := EnvAt(ops, i + 1)[name], WindowOf(ops, i + 1, name, root);
    TooLowCoversExactly(info, v, d);
    AnnotationIsBytes(ops, i);
    if d == 0 && (v.rows == 1 || v.cols == v.pitch) {
      RangeHoldsOnly(info, v);
    }
  }
}
