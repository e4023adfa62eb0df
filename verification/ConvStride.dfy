/** Recovering the stride of the 3x3 convolution from the tensor extents. */
module ConvStride {
  import opened Arith

  /** `hi x wi` input rows and columns, `ho x wo` output rows and columns. */
  datatype Extents = Extents(hi: nat, wi: nat, ho: nat, wo: nat)

  const MAX_STRIDE: nat := 4

  /** C division: the quotient is truncated toward zero. */
  function TruncDiv(a: int, b: int): int
    requires b >= 1
  {
    if a >= 0 then a / b else -(-a / b)
  }

  predicate FitsAxis(input: nat, output: nat, c: int)
    requires c >= 1
  {
    TruncDiv(input - 3, c) + 1 == output
  }

  /** Stride `c` explains both extents. */
  predicate Consistent(e: Extents, c: int)
    requires c >= 1
  {
    FitsAxis(e.hi, e.ho, c) && FitsAxis(e.wi, e.wo, c)
  }

  /** The stride the kernel uses: the least consistent one in 1..4, or 0 if there is none. */
  ghost predicate IsRecovered(e: Extents, s: nat) {
    && s <= MAX_STRIDE
    && (s > 0 ==> Consistent(e, s))
    && (forall c :: 1 <= c <= MAX_STRIDE && (s == 0 || c < s) ==> !Consistent(e, c))
  }

  method RecoverStride(e: Extents) returns (s: nat)
    ensures IsRecovered(e, s)
  {
    s := 0;
    var c := 1;
    while c <= MAX_STRIDE && s == 0
      invariant 1 <= c <= MAX_STRIDE + 1
      invariant s == 0 ==> forall b :: 1 <= b < c ==> !Consistent(e, b)
      invariant s > 0 ==> s == c - 1 && IsRecovered(e, s)
    {
      if Consistent(e, c) {
        s := c;
      }
      c := c + 1;
    }
  }

  lemma RecoveredIsUnique(e: Extents, s: nat, s': nat)
    requires IsRecovered(e, s) && IsRecovered(e, s')
    ensures s == s'
  {
  }

  // Reads ------------------------------------------------------------------

  /** Every row and column a `k x k` window touches is inside the input. */
  ghost predicate ReadsInside(e: Extents, s: nat, k: nat) {
    forall oh: nat, ow: nat, kh: nat, kw: nat :: oh < e.ho && ow < e.wo && kh < k && kw < k ==>
      TouchedInside(e, s, oh, ow, kh, kw)
  }

  predicate TouchedInside(e: Extents, s: nat, oh: nat, ow: nat, kh: nat, kw: nat) {
    oh * s + kh < e.hi && ow * s + kw < e.wi
  }

  lemma AxisInside(input: nat, output: nat, s: nat, o: nat, k: nat)
    requires s >= 1 && input >= 3 && FitsAxis(input, output, s) && o < output && k < 3
    ensures o * s + k < input
  {
    var q := (input - 3) / s;
    Division(input - 3, s);
    ProductMonotone(o, q, s);
  }

  /**
   * A recovered stride keeps every read inside exactly when both extents are at
   * least 3. The kernel does not test that: C truncates -1/2 to 0, so extents
   * below 3 can be accepted (see SmallInputAccepted).
   */
  lemma ReadsInsideExactly(e: Extents, s: nat)
    requires s >= 1 && Consistent(e, s) && e.ho >= 1 && e.wo >= 1
    ensures ReadsInside(e, s, 3) <==> e.hi >= 3 && e.wi >= 3
  {
    if e.hi >= 3 && e.wi >= 3 {
      forall oh: nat, ow: nat, kh: nat, kw: nat | oh < e.ho && ow < e.wo && kh < 3 && kw < 3
        ensures TouchedInside(e, s, oh, ow, kh, kw)
      {
        AxisInside(e.hi, e.ho, s, oh, kh);
        AxisInside(e.wi, e.wo, s, ow, kw);
      }
    } else {
      assert !TouchedInside(e, s, 0, 0, 2, 2);
    }
  }

  /** What the kernel needs of the extents: nothing to read, no stride, or an input the window fits in. */
  predicate ExtentsReadable(e: Extents) {
    || e.ho == 0 || e.wo == 0
    || (forall c :: 1 <= c <= MAX_STRIDE ==> !Consistent(e, c))
    || (e.hi >= 3 && e.wi >= 3)
  }

  lemma ReadableExactly(e: Extents)
    ensures ExtentsReadable(e) <==> forall s: nat :: s >= 1 && IsRecovered(e, s) ==> ReadsInside(e, s, 3)
  {
    forall s: nat | s >= 1 && IsRecovered(e, s) && e.ho >= 1 && e.wo >= 1
      ensures ReadsInside(e, s, 3) <==> e.hi >= 3 && e.wi >= 3
    {
      ReadsInsideExactly(e, s);
    }
    if c :| 1 <= c <= MAX_STRIDE && Consistent(e, c) {
      var s := LeastConsistent(e, c);
    }
  }

  lemma {:induction false} LeastConsistent(e: Extents, c: nat) returns (s: nat)
    requires 1 <= c <= MAX_STRIDE && Consistent(e, c)
    ensures s >= 1 && IsRecovered(e, s)
  {
    if b: nat :| 1 <= b < c && Consistent(e, b) {
      s := LeastConsistent(e, b);
    } else {
      s := c;
    }
  }

  /** A 2x2 input with a 1x1 output is accepted with stride 2, and row 2 of it is read. */
  lemma SmallInputAccepted()
    ensures IsRecovered(Extents(2, 2, 1, 1), 2) && !ReadsInside(Extents(2, 2, 1, 1), 2, 3)
  {
    assert TruncDiv(-1, 2) == 0;
    assert TruncDiv(-1, 1) == -1;
    ReadsInsideExactly(Extents(2, 2, 1, 1), 2);
  }

  // Ambiguity --------------------------------------------------------------

  /** Two different strides in 1..4 cannot both give four or more outputs along an axis. */
  lemma AxisDecides(input: nat, output: nat, c: nat, c': nat)
    requires input >= 3 && output >= 4 && 1 <= c < c' <= MAX_STRIDE
    requires FitsAxis(input, output, c)
    ensures !FitsAxis(input, output, c')
  {
    var n, q := input - 3, output - 1;
    Division(n, c);
    Division(n, c');
    if FitsAxis(input, output, c') {
      Distributes(c', c, q);
      AtLeastOnce(c' - c, q);
    }
  }

  /** C quotients only grow toward each other: between two equal ones lie equal ones. */
  lemma FitsBetween(input: nat, output: nat, c: nat, b: nat, c': nat)
    requires 1 <= c <= b <= c' && FitsAxis(input, output, c) && FitsAxis(input, output, c')
    ensures FitsAxis(input, output, b)
  {
    var n := if input >= 3 then input - 3 else 3 - input;
    LargerDivisor(n, c, b);
    LargerDivisor(n, b, c');
  }

  lemma LargerDivisor(n: nat, a: nat, b: nat)
    requires 1 <= a <= b
    ensures n / b <= n / a
  {
    var q := n / b;
    Division(n, b);
    ProductMonotone(a, b, q);
    QuotientAtLeast(n, q, n - q * a, a);
  }

  /** Two neighbouring strides explain the extents. */
  predicate Ambiguous(e: Extents) {
    exists c :: 1 <= c < MAX_STRIDE && Consistent(e, c) && Consistent(e, c + 1)
  }

  /** At most one stride in 1..4 explains the extents exactly when no two neighbouring ones do. */
  lemma StrideIsUniqueExactly(e: Extents)
    ensures (forall c, c' ::
               1 <= c <= MAX_STRIDE && 1 <= c' <= MAX_STRIDE && Consistent(e, c) && Consistent(e, c') ==> c == c')
            <==> !Ambiguous(e)
  {
    forall c, c' | 1 <= c < c' <= MAX_STRIDE && Consistent(e, c) && Consistent(e, c')
      ensures Ambiguous(e)
    {
      FitsBetween(e.hi, e.ho, c, c + 1, c');
      FitsBetween(e.wi, e.wo, c, c + 1, c');
      assert Consistent(e, c) && Consistent(e, c + 1);
    }
  }

  /** A convolution of stride `t` is run with that stride exactly when the next smaller one does not
      explain the extents. */
  lemma TrueStrideIsRecoveredExactly(e: Extents, t: nat, s: nat)
    requires 1 <= t <= MAX_STRIDE && Consistent(e, t) && IsRecovered(e, s)
    ensures s == t <==> t == 1 || !Consistent(e, t - 1)
  {
    if s < t {
      FitsBetween(e.hi, e.ho, s, t - 1, t);
      FitsBetween(e.wi, e.wo, s, t - 1, t);
    }
  }

  /** For inputs of at least 3x3 with four or more outputs along either axis no other stride does. */
  lemma StrideIsDetermined(e: Extents, s: nat, c: nat)
    requires e.hi >= 3 && e.wi >= 3 && (e.ho >= 4 || e.wo >= 4)
    requires IsRecovered(e, s) && 1 <= c <= MAX_STRIDE && Consistent(e, c)
    ensures c == s
  {
    if c > s {
      if e.ho >= 4 {
        AxisDecides(e.hi, e.ho, s, c);
      } else {
        AxisDecides(e.wi, e.wo, s, c);
      }
    }
  }

  /** Below four outputs it is not: a stride-4 convolution from 11x11 to 3x3 is run with stride 3. */
  lemma SmallOutputAmbiguous()
    ensures IsRecovered(Extents(11, 11, 3, 3), 3) && Consistent(Extents(11, 11, 3, 3), 4)
  {
  }
}
