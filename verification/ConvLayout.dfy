/**
 * Where the blocked layouts put every byte: positions inside the shape are numbered in
 * lexicographic order of their blocks, rows, columns and lanes.
 */
module ConvLayout {
  import opened Arith
  import opened ConvReference

  /** `a` comes before `b` in lexicographic order. */
  ghost predicate Before(a: seq<int>, b: seq<int>)
    requires |a| == |b|
  {
    exists k :: 0 <= k < |a| && a[..k] == b[..k] && a[k] < b[k]
  }

  /** `i` and `j` number the positions `a` and `b` in lexicographic order. */
  ghost predicate Ordered(a: seq<int>, i: int, b: seq<int>, j: int)
    requires |a| == |b|
  {
    (i < j <==> Before(a, b)) && (i == j <==> a == b)
  }

  lemma BeforeAppend(a: seq<int>, x: int, b: seq<int>, y: int)
    requires |a| == |b|
    ensures Before(a + [x], b + [y]) <==> Before(a, b) || (a == b && x < y)
  {
    var p, q, n := a + [x], b + [y], |a|;
    assert p[..n] == a && q[..n] == b;
    if k :| 0 <= k < |p| && p[..k] == q[..k] && p[k] < q[k] {
      assert k < n ==> a[..k] == p[..k] && b[..k] == q[..k];
    }
    if k :| 0 <= k < n && a[..k] == b[..k] && a[k] < b[k] {
      assert p[..k] == a[..k] && q[..k] == b[..k] && p[k] < q[k];
    }
    if a == b && x < y {
      assert p[..n] == q[..n] && p[n] < q[n];
    }
  }

  lemma FirstDigit(x: int, y: int)
    ensures Ordered([x], x, [y], y)
  {
    assert [] + [x] == [x] && [] + [y] == [y];
    BeforeAppend([], x, [], y);
  }

  /** A digit more keeps the numbering in order. */
  lemma NextDigit(a: seq<int>, i: int, x: int, b: seq<int>, j: int, y: int, n: int)
    requires |a| == |b| && Ordered(a, i, b, j) && 0 <= x < n && 0 <= y < n
    ensures Ordered(a + [x], i * n + x, b + [y], j * n + y)
  {
    BeforeAppend(a, x, b, y);
    if i < j {
      ProductMonotone(0, j - i - 1, n);
      assert j * n == i * n + n + (j - i - 1) * n;
    } else if j < i {
      ProductMonotone(0, i - j - 1, n);
      assert i * n == j * n + n + (i - j - 1) * n;
    }
    assert (a + [x])[..|a|] == a && (b + [y])[..|b|] == b;
  }

  /** NCHWc: bytes are ordered by block, row, column and lane. */
  lemma InputOrder(d: Shape, icc: int, h: int, w: int, ici: int, icc': int, h': int, w': int, ici': int)
    requires InsideInput(d, icc, h, w, ici) && InsideInput(d, icc', h', w', ici')
    ensures Ordered([icc, h, w, ici], InIndex(d, icc, h, w, ici),
                    [icc', h', w', ici'], InIndex(d, icc', h', w', ici'))
  {
    var e := d.extents;
    var i, j := icc * e.hi + h, icc' * e.hi + h';
    FirstDigit(icc, icc');
    NextDigit([icc], icc, h, [icc'], icc', h', e.hi);
    NextDigit([icc] + [h], i, w, [icc'] + [h'], j, w', e.wi);
    NextDigit([icc] + [h] + [w], i * e.wi + w, ici, [icc'] + [h'] + [w'], j * e.wi + w', ici', d.lanes);
    assert [icc, h, w, ici] == [icc] + [h] + [w] + [ici] && [icc', h', w', ici'] == [icc'] + [h'] + [w'] + [ici'];
  }

  /** A position of a weight: output block, input block, window row and column, input lane, output lane. */
  predicate InsideWeightAt(d: Shape, a: seq<int>) {
    |a| == 6 && InsideWeight(d, a[0], a[1], a[2], a[3], a[4], a[5])
  }

  function WeightIndexAt(d: Shape, a: seq<int>): int
    requires |a| == 6
  {
    WeightIndex(d, a[0], a[1], a[2], a[3], a[4], a[5])
  }

  /** The number of a window position among all of them. */
  function WindowIndex(d: Shape, a: seq<int>): int
    requires |a| == 6
  {
    ((a[0] * d.inBlocks + a[1]) * d.taps + a[2]) * d.taps + a[3]
  }

  lemma WindowOrder(d: Shape, a: seq<int>, b: seq<int>)
    requires InsideWeightAt(d, a) && InsideWeightAt(d, b)
    ensures Ordered(a[..4], WindowIndex(d, a), b[..4], WindowIndex(d, b))
  {
    BlockOrder(a, b, d.inBlocks);
    TapOrder(a, a[0] * d.inBlocks + a[1], b, b[0] * d.inBlocks + b[1], d.taps);
  }

  lemma BlockOrder(a: seq<int>, b: seq<int>, n: int)
    requires |a| == |b| == 6 && 0 <= a[1] < n && 0 <= b[1] < n
    ensures Ordered(a[..2], a[0] * n + a[1], b[..2], b[0] * n + b[1])
  {
    FirstDigit(a[0], b[0]);
    assert a[..1] == [a[0]] && b[..1] == [b[0]];
    WeightDigit(a, a[0], b, b[0], 1, n);
  }

  lemma TapOrder(a: seq<int>, i: int, b: seq<int>, j: int, n: int)
    requires |a| == |b| == 6 && Ordered(a[..2], i, b[..2], j)
    requires 0 <= a[2] < n && 0 <= a[3] < n && 0 <= b[2] < n && 0 <= b[3] < n
    ensures Ordered(a[..4], (i * n + a[2]) * n + a[3], b[..4], (j * n + b[2]) * n + b[3])
  {
    WeightDigit(a, i, b, j, 2, n);
    WeightDigit(a, i * n + a[2], b, j * n + b[2], 3, n);
  }

  lemma LaneOrder(a: seq<int>, i: int, b: seq<int>, j: int, n: int)
    requires |a| == |b| == 6 && Ordered(a[..4], i, b[..4], j)
    requires 0 <= a[4] < n && 0 <= a[5] < n && 0 <= b[4] < n && 0 <= b[5] < n
    ensures Ordered(a, (i * n + a[4]) * n + a[5], b, (j * n + b[4]) * n + b[5])
  {
    WeightDigit(a, i, b, j, 4, n);
    WeightDigit(a, i * n + a[4], b, j * n + b[4], 5, n);
    assert a[..6] == a && b[..6] == b;
  }

  lemma WeightInWindow(d: Shape, a: seq<int>)
    requires |a| == 6
    ensures WeightIndexAt(d, a) == (WindowIndex(d, a) * d.lanes + a[4]) * d.lanes + a[5]
  {
  }

  lemma SameOrder(a: seq<int>, i: int, i': int, b: seq<int>, j: int, j': int)
    requires |a| == |b| && Ordered(a, i, b, j) && i == i' && j == j'
    ensures Ordered(a, i', b, j')
  {
  }

  /** OIHWio: weights are ordered by output block, input block, row, column, input lane and output lane. */
  lemma WeightOrder(d: Shape, a: seq<int>, b: seq<int>)
    requires InsideWeightAt(d, a) && InsideWeightAt(d, b)
    ensures Ordered(a, WeightIndexAt(d, a), b, WeightIndexAt(d, b))
  {
    var i, j := WindowIndex(d, a), WindowIndex(d, b);
    WindowOrder(d, a, b);
    LaneOrder(a, i, b, j, d.lanes);
    WeightInWindow(d, a);
    WeightInWindow(d, b);
    SameOrder(a, (i * d.lanes + a[4]) * d.lanes + a[5], WeightIndexAt(d, a),
              b, (j * d.lanes + b[4]) * d.lanes + b[5], WeightIndexAt(d, b));
  }

  lemma WeightDigit(a: seq<int>, i: int, b: seq<int>, j: int, k: nat, n: int)
    requires |a| == |b| && k < |a| && Ordered(a[..k], i, b[..k], j) && 0 <= a[k] < n && 0 <= b[k] < n
    ensures Ordered(a[..k + 1], i * n + a[k], b[..k + 1], j * n + b[k])
  {
    NextDigit(a[..k], i, a[k], b[..k], j, b[k], n);
    assert a[..k + 1] == a[..k] + [a[k]] && b[..k + 1] == b[..k] + [b[k]];
  }

  /** The buffers of a 3x3 kernel over blocks of four channels. */
  lemma KernelSizes(d: Shape)
    requires d.lanes == 4 && d.taps == 3
    ensures InSize(d) == d.inBlocks * d.extents.hi * d.extents.wi * 4
    ensures WeightSize(d) == d.outBlocks * d.inBlocks * 144
    ensures OutSize(d) == d.outBlocks * d.extents.ho * d.extents.wo * 4
  {
  }
}
