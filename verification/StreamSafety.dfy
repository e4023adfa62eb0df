/** What every interleaving of the streaming protocol keeps. */
module StreamSafety {
  import opened Basics
  import opened Words
  import opened StreamModel

  // The invariant ---------------------------------------------------------

  /** Locks and counters only; holds whatever the initial credits are. */
  ghost predicate Credits(c: Config, s: State) {
    && s.inFree >= 0 && s.inFull >= 0 && s.outFull >= 0 && s.outFree >= 0
    && s.inFull + One(CoreHoldsIn(s)) == s.filled - s.done
    && s.inFree + One(FillHolds(s)) + (s.filled - s.done) == c.inCredits
    && s.outFull + One(DrainHolds(s)) == Published(s) - s.drained
    && s.outFree + One(CoreHoldsOut(s)) + (Published(s) - s.drained) == c.outCredits
    && s.done + One(CoreHoldsIn(s)) <= c.rounds
  }

  /** `buf` is the `k`-th bufferful of the input. */
  ghost predicate IsChunk(c: Config, buf: seq<int32>, k: nat) {
    Offset(c, k + 1) <= |c.input| && buf == c.input[Offset(c, k)..Offset(c, k + 1)]
  }

  ghost predicate IsDoubledChunk(c: Config, buf: seq<int32>, k: nat) {
    Offset(c, k + 1) <= |c.input| && buf == Doubled(c.input[Offset(c, k)..Offset(c, k + 1)])
  }

  function Progress(pc: DmaPc): nat {
    if pc.Moving? then pc.next else 0
  }

  /** Every buffer between `done` and `filled` holds its part of the input, and the one being filled its start. */
  ghost predicate InputHeld(c: Config, s: State)
    requires WellFormed(c, s)
  {
    && s.taken == Offset(c, s.filled) + Progress(s.fill)
    && (forall k: nat :: s.done <= k < s.filled ==> IsChunk(c, s.inBuf[Slot(c, k)], k))
    && s.inBuf[Slot(c, s.filled)][..Progress(s.fill)] == c.input[Offset(c, s.filled)..s.taken]
  }

  /** Every buffer between `drained` and `Published` holds its doubled part, and the one being written its start. */
  ghost predicate OutputHeld(c: Config, s: State)
    requires WellFormed(c, s)
  {
    && (forall k: nat :: s.drained <= k < Published(s) ==> IsDoubledChunk(c, s.outBuf[Slot(c, k)], k))
    && (s.core.Compute? ==>
          && Offset(c, s.done) + s.core.next <= |c.input|
          && s.outBuf[Slot(c, s.done)][..s.core.next]
             == Doubled(c.input[Offset(c, s.done)..Offset(c, s.done) + s.core.next]))
  }

  ghost predicate Sent(c: Config, s: State)
    requires WellFormed(c, s)
  {
    && Offset(c, s.drained) + Progress(s.drain) <= |c.input|
    && s.emitted == Doubled(c.input[..Offset(c, s.drained) + Progress(s.drain)])
  }

  ghost predicate Inv(c: Config, s: State) {
    && WellFormed(c, s)
    && Credits(c, s)
    && InputHeld(c, s)
    && OutputHeld(c, s)
    && Sent(c, s)
  }

  /** Never more credits than buffers. */
  predicate CreditsFit(c: Config) {
    c.inCredits <= c.depth && c.outCredits <= c.depth
  }

  // Slots and offsets -----------------------------------------------------

  lemma {:induction false} SlotAdvances(c: Config, a: nat, n: nat)
    requires Shaped(c) && n <= c.depth
    ensures Slot(c, a + n) == if Slot(c, a) + n < c.depth then Slot(c, a) + n else Slot(c, a) + n - c.depth
  {
    if n > 0 {
      SlotAdvances(c, a, n - 1);
    }
  }

  /** Buffers less than `depth` apart never share a slot. */
  lemma SlotsDiffer(c: Config, a: nat, b: nat)
    requires Shaped(c) && a < b < a + c.depth
    ensures Slot(c, a) != Slot(c, b)
  {
    SlotAdvances(c, a, b - a);
  }

  lemma OffsetIsProduct(c: Config, k: nat)
    ensures Offset(c, k) == k * c.words
  {
  }

  lemma {:induction false} OffsetMonotone(c: Config, k: nat, n: nat)
    requires k <= n
    ensures Offset(c, k) <= Offset(c, n)
  {
    if k < n {
      OffsetMonotone(c, k, n - 1);
    }
  }

  // Each step keeps the invariant -----------------------------------------

  lemma StepKeepsCredits(c: Config, s: State, a: Agent)
    requires WellFormed(c, s) && Enabled(c, s, a) && Credits(c, s)
    ensures Credits(c, Act(c, s, a))
  {
  }

  /** The shape, the locks and the stream position: what every run keeps whatever the initial credits are. */
  ghost predicate Counted(c: Config, s: State) {
    WellFormed(c, s) && Credits(c, s) && s.taken == Offset(c, s.filled) + Progress(s.fill)
  }

  lemma StepKeepsTaken(c: Config, s: State, a: Agent)
    requires WellFormed(c, s) && Enabled(c, s, a) && s.taken == Offset(c, s.filled) + Progress(s.fill)
    ensures var s' := Act(c, s, a); s'.taken == Offset(c, s'.filled) + Progress(s'.fill)
  {
  }

  lemma {:induction false} RunIsCounted(c: Config, run: seq<State>, i: nat)
    requires IsRun(c, run) && i < |run|
    ensures Counted(c, run[i])
  {
    if i > 0 {
      RunIsCounted(c, run, i - 1);
      assert StepAt(c, run, i - 1);
      AnyStepKeepsCounted(c, run[i - 1], run[i]);
    }
  }

  lemma StepKeepsCounted(c: Config, s: State, a: Agent)
    requires Counted(c, s) && Enabled(c, s, a)
    ensures Counted(c, Act(c, s, a))
  {
    StepKeepsCredits(c, s, a);
    StepKeepsTaken(c, s, a);
  }

  lemma AnyStepKeepsCounted(c: Config, s: State, s': State)
    requires Counted(c, s) && StepsTo(c, s, s')
    ensures Counted(c, s')
  {
    var a :| Enabled(c, s, a) && s' == Act(c, s, a);
    StepKeepsCounted(c, s, a);
  }

  lemma ReceiveWord(c: Config, s: State, j: nat)
    requires Inv(c, s) && CreditsFit(c) && Enabled(c, s, Fill)
    requires s.fill == Moving(j) && j < c.words
    ensures InputHeld(c, Act(c, s, Fill))
  {
    var s' := Act(c, s, Fill);
    forall k: nat | s.done <= k < s.filled
      ensures IsChunk(c, s'.inBuf[Slot(c, k)], k)
    {
      SlotsDiffer(c, k, s.filled);
      assert IsChunk(c, s.inBuf[Slot(c, k)], k);
    }
    var slot := Slot(c, s.filled);
    assert s'.inBuf[slot][..j + 1] == s.inBuf[slot][..j] + [c.input[s.taken]];
  }

  lemma BufferFilled(c: Config, s: State)
    requires Inv(c, s) && s.fill == Moving(c.words)
    ensures InputHeld(c, Act(c, s, Fill))
  {
    var s' := Act(c, s, Fill);
    assert s.inBuf[Slot(c, s.filled)][..c.words] == s.inBuf[Slot(c, s.filled)];
    forall k: nat | s.done <= k < s.filled + 1
      ensures IsChunk(c, s'.inBuf[Slot(c, k)], k)
    {
      if k < s.filled {
        assert IsChunk(c, s.inBuf[Slot(c, k)], k);
      }
    }
  }

  lemma FillKeepsInput(c: Config, s: State)
    requires Inv(c, s) && CreditsFit(c) && Enabled(c, s, Fill)
    ensures InputHeld(c, Act(c, s, Fill))
  {
    match s.fill
    case AtLock =>
    case Moving(j) =>
      if j < c.words {
        ReceiveWord(c, s, j);
      } else {
        BufferFilled(c, s);
      }
  }

  lemma CoreKeepsInput(c: Config, s: State)
    requires Inv(c, s) && Enabled(c, s, Core)
    ensures InputHeld(c, Act(c, s, Core))
  {
    var s' := Act(c, s, Core);
    forall k: nat | s'.done <= k < s'.filled
      ensures IsChunk(c, s'.inBuf[Slot(c, k)], k)
    {
      assert IsChunk(c, s.inBuf[Slot(c, k)], k);
    }
  }

  lemma CoreKeepsOutput(c: Config, s: State)
    requires Inv(c, s) && CreditsFit(c) && Enabled(c, s, Core)
    ensures OutputHeld(c, Act(c, s, Core))
  {
    var s' := Act(c, s, Core);
    match s.core
    case AcquireIn =>
      OutputUntouched(c, s, s');
    case AcquireOut =>
      OutputUntouched(c, s, s');
      assert IsChunk(c, s.inBuf[Slot(c, s.done)], s.done);
    case ReleaseIn =>
      OutputUntouched(c, s, s');
    case Compute(j) =>
      if j < c.words {
        ComputeWord(c, s, j);
      } else {
        PublishBuffer(c, s);
      }
  }

  /** Buffers published before stay published when no word of an output buffer changes. */
  lemma OutputUntouched(c: Config, s: State, s': State)
    requires Inv(c, s) && WellFormed(c, s')
    requires s'.outBuf == s.outBuf && s'.drained >= s.drained && Published(s') == Published(s)
    ensures forall k: nat :: s'.drained <= k < Published(s') ==> IsDoubledChunk(c, s'.outBuf[Slot(c, k)], k)
  {
    forall k: nat | s'.drained <= k < Published(s')
      ensures IsDoubledChunk(c, s'.outBuf[Slot(c, k)], k)
    {
      assert IsDoubledChunk(c, s.outBuf[Slot(c, k)], k);
    }
  }

  lemma ComputeWord(c: Config, s: State, j: nat)
    requires Inv(c, s) && CreditsFit(c) && s.core == Compute(j) && j < c.words
    ensures OutputHeld(c, Act(c, s, Core))
  {
    var s' := Act(c, s, Core);
    var slot, base := Slot(c, s.done), Offset(c, s.done);
    assert IsChunk(c, s.inBuf[slot], s.done);
    assert s.inBuf[slot][j] == c.input[base + j];
    forall k: nat | s'.drained <= k < Published(s')
      ensures IsDoubledChunk(c, s'.outBuf[Slot(c, k)], k)
    {
      SlotsDiffer(c, k, s.done);
      assert IsDoubledChunk(c, s.outBuf[Slot(c, k)], k);
    }
    OneMoreDoubled(s.outBuf[slot], c.input, base, j);
  }

  lemma OneMoreDoubled(buf: seq<int32>, input: seq<int32>, base: nat, j: nat)
    requires j < |buf| && base + j < |input| && buf[..j] == Doubled(input[base..base + j])
    ensures buf[j := Double(input[base + j])][..j + 1] == Doubled(input[base..base + j + 1])
  {
    assert buf[j := Double(input[base + j])][..j + 1] == buf[..j] + [Double(input[base + j])];
    assert input[base..base + j + 1] == input[base..base + j] + [input[base + j]];
  }

  lemma PublishBuffer(c: Config, s: State)
    requires Inv(c, s) && s.core == Compute(c.words)
    ensures OutputHeld(c, Act(c, s, Core))
  {
    var s' := Act(c, s, Core);
    assert s.outBuf[Slot(c, s.done)][..c.words] == s.outBuf[Slot(c, s.done)];
    forall k: nat | s'.drained <= k < Published(s')
      ensures IsDoubledChunk(c, s'.outBuf[Slot(c, k)], k)
    {
      if k < s.done {
        assert IsDoubledChunk(c, s.outBuf[Slot(c, k)], k);
      }
    }
  }

  lemma SendWord(c: Config, s: State, j: nat)
    requires Inv(c, s) && s.drain == Moving(j) && j < c.words
    ensures Sent(c, Act(c, s, Drain))
  {
    var at := Offset(c, s.drained) + j;
    assert IsDoubledChunk(c, s.outBuf[Slot(c, s.drained)], s.drained);
    assert s.outBuf[Slot(c, s.drained)][j] == Double(c.input[at]);
    assert c.input[..at + 1] == c.input[..at] + [c.input[at]];
    assert Doubled(c.input[..at + 1]) == Doubled(c.input[..at]) + [Double(c.input[at])];
  }

  lemma DrainKeepsSent(c: Config, s: State)
    requires Inv(c, s) && Enabled(c, s, Drain)
    ensures Sent(c, Act(c, s, Drain))
  {
    match s.drain
    case AtLock =>
    case Moving(j) =>
      if j < c.words {
        SendWord(c, s, j);
      }
  }

  lemma DrainKeepsInput(c: Config, s: State)
    requires Inv(c, s) && Enabled(c, s, Drain)
    ensures InputHeld(c, Act(c, s, Drain))
  {
    var s' := Act(c, s, Drain);
    forall k: nat | s'.done <= k < s'.filled
      ensures IsChunk(c, s'.inBuf[Slot(c, k)], k)
    {
      assert IsChunk(c, s.inBuf[Slot(c, k)], k);
    }
  }

  /** The input DMA leaves the output side alone. */
  lemma FillKeepsOutput(c: Config, s: State)
    requires Inv(c, s) && Enabled(c, s, Fill)
    ensures OutputHeld(c, Act(c, s, Fill)) && Sent(c, Act(c, s, Fill))
  {
    OutputUntouched(c, s, Act(c, s, Fill));
  }

  lemma CoreKeepsSent(c: Config, s: State)
    requires Inv(c, s) && Enabled(c, s, Core)
    ensures Sent(c, Act(c, s, Core))
  {
  }

  lemma DrainKeepsOutput(c: Config, s: State)
    requires Inv(c, s) && Enabled(c, s, Drain)
    ensures OutputHeld(c, Act(c, s, Drain))
  {
    OutputUntouched(c, s, Act(c, s, Drain));
  }

  lemma StepKeepsInv(c: Config, s: State, a: Agent)
    requires Inv(c, s) && CreditsFit(c) && Enabled(c, s, a)
    ensures Inv(c, Act(c, s, a))
  {
    StepKeepsCredits(c, s, a);
    match a
    case Fill =>
      FillKeepsInput(c, s);
      FillKeepsOutput(c, s);
    case Core =>
      CoreKeepsInput(c, s);
      CoreKeepsOutput(c, s);
      CoreKeepsSent(c, s);
    case Drain =>
      DrainKeepsInput(c, s);
      DrainKeepsOutput(c, s);
      DrainKeepsSent(c, s);
  }

  lemma InitInv(c: Config, s: State)
    requires Init(c, s)
    ensures Inv(c, s)
  {
  }

  lemma {:induction false} RunInv(c: Config, run: seq<State>, i: nat)
    requires IsRun(c, run) && CreditsFit(c) && i < |run|
    ensures Inv(c, run[i])
  {
    if i == 0 {
      InitInv(c, run[0]);
    } else {
      RunInv(c, run, i - 1);
      assert StepAt(c, run, i - 1);
      var a :| Enabled(c, run[i - 1], a) && run[i] == Act(c, run[i - 1], a);
      StepKeepsInv(c, run[i - 1], a);
    }
  }

  // Main results ----------------------------------------------------------

  /** In every state of every run, what has been sent is a prefix of the doubled input, in order. */
  lemma EmittedIsPrefix(c: Config, run: seq<State>, i: nat)
    requires IsRun(c, run) && CreditsFit(c) && i < |run|
    ensures run[i].emitted <= Doubled(c.input)
  {
    RunInv(c, run, i);
    var s := run[i];
    var n := Offset(c, s.drained) + Progress(s.drain);
    assert Doubled(c.input[..n]) == Doubled(c.input)[..n];
  }

  /** Credits are conserved, no lock goes negative, and no buffer is open on both sides. */
  lemma LocksAndBuffers(c: Config, run: seq<State>, i: nat)
    requires IsRun(c, run) && CreditsFit(c) && i < |run|
    ensures var s := run[i];
            && s.inFree + s.inFull + One(FillHolds(s)) + One(CoreHoldsIn(s)) == c.inCredits
            && s.outFree + s.outFull + One(CoreHoldsOut(s)) + One(DrainHolds(s)) == c.outCredits
            && s.inFree >= 0 && s.inFull >= 0 && s.outFull >= 0 && s.outFree >= 0
    ensures Shaped(c) && !Conflict(c, run[i])
  {
    RunInv(c, run, i);
    var s := run[i];
    if FillHolds(s) && CoreHoldsIn(s) {
      SlotsDiffer(c, s.done, s.filled);
    }
    if CoreHoldsOut(s) && DrainHolds(s) {
      SlotsDiffer(c, s.drained, s.done);
    }
  }
}
