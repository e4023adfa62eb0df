/**
 * Which initial lock values make the protocol right: exactly those between one
 * and the number of buffers. The program sets both to 2 for two buffers.
 */
module StreamCredits {
  import opened Words
  import opened Arith
  import opened StreamModel
  import opened StreamSafety
  import opened StreamProgress

  ghost predicate Works(c: Config)
    requires Shaped(c)
  {
    forall run :: IsRun(c, run) ==> RunWorks(c, run)
  }

  /** No buffer is open on both sides, and if nobody can move, everything deliverable was sent. */
  ghost predicate RunWorks(c: Config, run: seq<State>)
    requires Shaped(c) && |run| > 0
  {
    var s := run[|run| - 1];
    && !Conflict(c, s)
    && (Stuck(c, s) ==> |s.emitted| == Deliverable(c) * c.words)
  }

  // Building runs ----------------------------------------------------------

  function Last(run: seq<State>): State
    requires |run| > 0
  {
    run[|run| - 1]
  }

  function Zeros(n: nat): (r: seq<int32>)
    ensures |r| == n
  {
    seq(n, i => 0)
  }

  lemma Start(c: Config) returns (run: seq<State>)
    requires Shaped(c)
    ensures IsRun(c, run) && Init(c, Last(run))
  {
    var bufs := seq(c.depth, i => Zeros(c.words));
    run := [State(c.inCredits, 0, 0, c.outCredits, bufs, bufs, AtLock, 0, 0, AcquireIn, 0, AtLock, 0, [])];
  }

  lemma Then(c: Config, run: seq<State>, a: Agent) returns (run': seq<State>)
    requires IsRun(c, run) && WellFormed(c, Last(run)) && Enabled(c, Last(run), a)
    ensures IsRun(c, run') && Last(run') == Act(c, Last(run), a)
  {
    run' := run + [Act(c, Last(run), a)];
    assert StepsTo(c, Last(run), Act(c, Last(run), a));
    forall i | 0 <= i < |run'| - 1
      ensures StepAt(c, run', i)
    {
      if i < |run| - 1 {
        assert StepAt(c, run, i);
      }
    }
  }

  /** `s'` is `s` up to the words stored in the buffers. */
  predicate SameButData(s: State, s': State) {
    s' == s.(inBuf := s'.inBuf, outBuf := s'.outBuf)
  }

  /** The first word of the `k`-th buffer. */
  function FirstWord(c: Config, bufs: seq<seq<int32>>, k: nat): int32
    requires Shaped(c) && BuffersOf(c, bufs)
  {
    bufs[Slot(c, k)][0]
  }

  lemma {:induction false} FillWords(c: Config, run: seq<State>, j: nat) returns (run': seq<State>)
    requires IsRun(c, run) && WellFormed(c, Last(run))
    requires Last(run).fill == Moving(j) && Last(run).taken + (c.words - j) <= |c.input|
    ensures IsRun(c, run') && WellFormed(c, Last(run'))
    ensures SameButData(Last(run).(fill := Moving(c.words), taken := Last(run).taken + (c.words - j)), Last(run'))
    ensures var k := Last(run).filled;
            j >= 1 ==> FirstWord(c, Last(run').inBuf, k) == FirstWord(c, Last(run).inBuf, k)
    decreases c.words - j
  {
    run' := run;
    if j < c.words {
      run' := Then(c, run, Fill);
      run' := FillWords(c, run', j + 1);
    }
  }

  lemma FillOne(c: Config, run: seq<State>) returns (run': seq<State>)
    requires IsRun(c, run) && WellFormed(c, Last(run))
    requires var s := Last(run); s.fill == AtLock && s.inFree >= 1 && s.taken + c.words <= |c.input|
    ensures IsRun(c, run') && WellFormed(c, Last(run'))
    ensures var s := Last(run);
            && SameButData(s.(inFree := s.inFree - 1, inFull := s.inFull + 1,
                              filled := s.filled + 1, taken := s.taken + c.words), Last(run'))
            && FirstWord(c, Last(run').inBuf, s.filled) == c.input[s.taken]
  {
    run' := Then(c, run, Fill);
    run' := Then(c, run', Fill);
    run' := FillWords(c, run', 1);
    run' := Then(c, run', Fill);
  }

  lemma {:induction false} ComputeWords(c: Config, run: seq<State>, j: nat) returns (run': seq<State>)
    requires IsRun(c, run) && WellFormed(c, Last(run)) && Last(run).core == Compute(j)
    ensures IsRun(c, run') && WellFormed(c, Last(run'))
    ensures SameButData(Last(run).(core := Compute(c.words)), Last(run'))
    ensures j >= 1 ==> FirstWord(c, Last(run').outBuf, Last(run).done) == FirstWord(c, Last(run).outBuf, Last(run).done)
    decreases c.words - j
  {
    run' := run;
    if j < c.words {
      run' := Then(c, run, Core);
      run' := ComputeWords(c, run', j + 1);
    }
  }

  lemma ProcessOne(c: Config, run: seq<State>) returns (run': seq<State>)
    requires IsRun(c, run) && WellFormed(c, Last(run))
    requires var s := Last(run); s.core == AcquireIn && s.done < c.rounds && s.inFull >= 1 && s.outFree >= 1
    ensures IsRun(c, run') && WellFormed(c, Last(run'))
    ensures var s := Last(run);
            SameButData(s.(inFull := s.inFull - 1, inFree := s.inFree + 1, outFull := s.outFull + 1,
                           outFree := s.outFree - 1, done := s.done + 1), Last(run'))
  {
    run' := Then(c, run, Core);
    run' := Then(c, run', Core);
    run' := ComputeWords(c, run', 0);
    run' := Then(c, run', Core);
    run' := Then(c, run', Core);
  }

  lemma {:induction false} FillMany(c: Config, n: nat) returns (run: seq<State>)
    requires Shaped(c) && n <= c.inCredits && Offset(c, n) <= |c.input|
    ensures IsRun(c, run) && WellFormed(c, Last(run))
    ensures var s := Last(run);
            && s.inFree == c.inCredits - n && s.inFull == n && s.filled == n && s.taken == Offset(c, n)
            && s.fill == AtLock && s.core == AcquireIn && s.done == 0
            && s.outFree == c.outCredits && s.outFull == 0 && s.drain == AtLock && s.drained == 0 && s.emitted == []
  {
    if n == 0 {
      run := Start(c);
    } else {
      run := FillMany(c, n - 1);
      run := FillOne(c, run);
    }
  }

  /** `n` buffers filled and processed, none drained. */
  lemma {:induction false} FillAndProcess(c: Config, n: nat) returns (run: seq<State>)
    requires Shaped(c) && c.inCredits >= 1 && n <= c.outCredits && n <= c.rounds && Offset(c, n) <= |c.input|
    ensures IsRun(c, run) && WellFormed(c, Last(run))
    ensures var s := Last(run);
            && s.inFree == c.inCredits && s.inFull == 0 && s.filled == n && s.taken == Offset(c, n)
            && s.outFree == c.outCredits - n && s.outFull == n && s.done == n
            && s.fill == AtLock && s.core == AcquireIn && s.drain == AtLock && s.drained == 0 && s.emitted == []
  {
    if n == 0 {
      run := Start(c);
    } else {
      run := FillAndProcess(c, n - 1);
      run := FillOne(c, run);
      run := ProcessOne(c, run);
    }
  }

  // What goes wrong outside the range ---------------------------------------

  /** No free input buffer to begin with: nobody ever moves. */
  lemma NoInCredit(c: Config)
    requires Shaped(c) && c.inCredits == 0
    ensures forall run :: IsRun(c, run) ==> |run| == 1 && Stuck(c, run[0])
    ensures Deliverable(c) >= 1 ==> !Works(c)
  {
    forall run | IsRun(c, run)
      ensures |run| == 1 && Stuck(c, run[0])
    {
      assert |run| > 1 ==> StepAt(c, run, 0);
    }
    var run := Start(c);
    if Deliverable(c) >= 1 {
      AtLeastOnce(Deliverable(c), c.words);
      assert IsRun(c, run) && !RunWorks(c, run);
    }
  }

  /** No free output buffer: the core takes its first input and waits for ever, and nothing is sent. */
  lemma NoOutCredit(c: Config)
    requires Shaped(c) && c.outCredits == 0
    ensures forall run :: IsRun(c, run) ==> Last(run).emitted == []
    ensures Deliverable(c) >= 1 ==> !Works(c)
  {
    forall run | IsRun(c, run)
      ensures Last(run).emitted == []
    {
      NoOutputEver(c, run, |run| - 1);
    }
    if Deliverable(c) >= 1 {
      var run := Start(c);
      var full := EveryRunCompletes(c, run);
      AtLeastOnce(Deliverable(c), c.words);
      assert IsRun(c, full) && Last(full).emitted == [] && !RunWorks(c, full);
    }
  }

  lemma {:induction false} NoOutputEver(c: Config, run: seq<State>, i: nat)
    requires IsRun(c, run) && c.outCredits == 0 && i < |run|
    ensures var s := run[i];
            && WellFormed(c, s) && s.emitted == [] && s.outFree == 0 && s.outFull == 0 && s.drain == AtLock
            && (s.core.AcquireIn? || s.core.AcquireOut?)
  {
    if i > 0 {
      NoOutputEver(c, run, i - 1);
      assert StepAt(c, run, i - 1);
    }
  }

  /** More credits than input buffers: the DMA reuses a buffer the core is reading. */
  lemma TooManyInCredits(c: Config)
    requires Shaped(c) && c.inCredits > c.depth && c.rounds >= 1 && Offset(c, c.depth) <= |c.input|
    ensures exists run :: IsRun(c, run) && InputConflict(c, Last(run))
    ensures !Works(c)
  {
    var run := FillMany(c, c.depth);
    run := Then(c, run, Core);
    run := Then(c, run, Fill);
    SlotAdvances(c, 0, c.depth);
    assert InputConflict(c, Last(run));
    assert IsRun(c, run) && !RunWorks(c, run);
  }

  /** More credits than output buffers: the core reuses a buffer that is still being sent. */
  lemma TooManyOutCredits(c: Config)
    requires Shaped(c) && c.outCredits > c.depth && c.inCredits >= 1
    requires c.rounds >= c.depth + 1 && Offset(c, c.depth + 1) <= |c.input|
    ensures exists run :: IsRun(c, run) && OutputConflict(c, Last(run))
    ensures !Works(c)
  {
    var run := FillAndProcess(c, c.depth);
    run := FillOne(c, run);
    run := Then(c, run, Core);
    run := Then(c, run, Core);
    run := Then(c, run, Drain);
    SlotAdvances(c, 0, c.depth);
    assert OutputConflict(c, Last(run));
    assert IsRun(c, run) && !RunWorks(c, run);
  }

  // When a conflict is reachable ----------------------------------------------

  /** Distinct buffers in one slot are at least `depth` apart. */
  lemma SameSlotIsFar(c: Config, a: nat, b: nat)
    requires Shaped(c) && a < b && Slot(c, a) == Slot(c, b)
    ensures b >= a + c.depth
  {
    if b < a + c.depth {
      SlotsDiffer(c, a, b);
    }
  }

  /** Some run brings the input DMA and the core into one input buffer. */
  ghost predicate InputConflictReachable(c: Config)
    requires Shaped(c)
  {
    exists run :: IsRun(c, run) && InputConflict(c, Last(run))
  }

  ghost predicate OutputConflictReachable(c: Config)
    requires Shaped(c)
  {
    exists run :: IsRun(c, run) && OutputConflict(c, Last(run))
  }

  /** The input buffers can be confused exactly when there are more credits than buffers, an iteration and
      a stream that fills them. */
  lemma InputConflictExactly(c: Config)
    requires Shaped(c)
    ensures InputConflictReachable(c) <==> c.inCredits > c.depth && c.rounds >= 1 && c.depth * c.words <= |c.input|
  {
    OffsetIsProduct(c, c.depth);
    if run :| IsRun(c, run) && InputConflict(c, Last(run)) {
      var s := Last(run);
      RunIsCounted(c, run, |run| - 1);
      SameSlotIsFar(c, s.done, s.filled);
      OffsetMonotone(c, c.depth, s.filled);
    }
    if c.inCredits > c.depth && c.rounds >= 1 && c.depth * c.words <= |c.input| {
      TooManyInCredits(c);
    }
  }

  /** The same for the output buffers, which take one more buffer and one more iteration. */
  lemma OutputConflictExactly(c: Config)
    requires Shaped(c)
    ensures OutputConflictReachable(c) <==>
            && c.outCredits > c.depth && c.inCredits >= 1 && c.rounds >= c.depth + 1
            && (c.depth + 1) * c.words <= |c.input|
  {
    OffsetIsProduct(c, c.depth + 1);
    if run :| IsRun(c, run) && OutputConflict(c, Last(run)) {
      var s := Last(run);
      RunIsCounted(c, run, |run| - 1);
      SameSlotIsFar(c, s.drained, s.done);
      OffsetMonotone(c, c.depth + 1, s.filled);
    }
    if c.outCredits > c.depth && c.inCredits >= 1 && c.rounds >= c.depth + 1 && (c.depth + 1) * c.words <= |c.input| {
      TooManyOutCredits(c);
    }
  }

  // The exact range ----------------------------------------------------------

  lemma UsableCreditsWork(c: Config)
    requires Shaped(c) && CreditsUsable(c)
    ensures Works(c)
  {
    forall run | IsRun(c, run)
      ensures RunWorks(c, run)
    {
      LocksAndBuffers(c, run, |run| - 1);
      if Stuck(c, Last(run)) {
        MaximalRunDelivers(c, run);
      }
    }
  }

  /** The protocol works for every stream and every iteration count exactly when both credits are in 1..depth. */
  lemma CreditRangeIsExact(depth: nat, words: nat, inCredits: nat, outCredits: nat)
    requires depth >= 1 && words >= 1
    ensures (forall rounds: nat, input: seq<int32> ::
               Works(Config(depth, words, inCredits, outCredits, rounds, input)))
            <==> (1 <= inCredits <= depth && 1 <= outCredits <= depth)
  {
    if 1 <= inCredits <= depth && 1 <= outCredits <= depth {
      forall rounds: nat, input: seq<int32>
        ensures Works(Config(depth, words, inCredits, outCredits, rounds, input))
      {
        UsableCreditsWork(Config(depth, words, inCredits, outCredits, rounds, input));
      }
    } else {
      ghost var sample := Config(depth, words, inCredits, outCredits, depth + 1, []);
      var c := sample.(input := Zeros(Offset(sample, depth + 1)));
      SameOffset(sample, c, depth + 1);
      SameOffset(sample, c, depth);
      OffsetMonotone(c, depth, depth + 1);
      EnoughToDeliver(c);
      if inCredits == 0 {
        NoInCredit(c);
      } else if outCredits == 0 {
        NoOutCredit(c);
      } else if inCredits > depth {
        TooManyInCredits(c);
      } else {
        TooManyOutCredits(c);
      }
    }
  }

  lemma SameOffset(c: Config, c': Config, k: nat)
    requires c.words == c'.words
    ensures Offset(c, k) == Offset(c', k)
  {
  }

  lemma EnoughToDeliver(c: Config)
    requires Shaped(c) && c.rounds >= 1 && |c.input| == Offset(c, c.depth + 1)
    ensures Deliverable(c) >= 1
  {
    WholeBuffers(c, c.depth + 1, 0);
  }
}
