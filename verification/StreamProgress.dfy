/** Every run of the streaming protocol ends, and ends with the whole output sent. */
module StreamProgress {
  import opened Basics
  import opened Arith
  import opened StreamModel
  import opened StreamSafety

  /** At least one credit on each side, and never more credits than buffers. */
  predicate CreditsUsable(c: Config) {
    1 <= c.inCredits <= c.depth && 1 <= c.outCredits <= c.depth
  }

  /** The buffers that can be processed: the kernel's iterations, or the whole buffers in the stream if fewer. */
  function Deliverable(c: Config): nat
    requires Shaped(c)
  {
    var whole := |c.input| / c.words;
    if c.rounds <= whole then c.rounds else whole
  }

  // A stuck state is a finished one ----------------------------------------

  lemma WholeBuffers(c: Config, k: nat, rest: nat)
    requires Shaped(c) && |c.input| == Offset(c, k) + rest
    ensures k <= |c.input| / c.words
    ensures rest < c.words ==> k == |c.input| / c.words
  {
    OffsetIsProduct(c, k);
    QuotientAtLeast(|c.input|, k, rest, c.words);
  }

  /** With nobody able to move, the output is drained and the core is at the top of its loop. */
  lemma StuckAtRest(c: Config, s: State)
    requires Inv(c, s) && CreditsUsable(c) && Stuck(c, s)
    ensures s.core == AcquireIn && s.drain == AtLock && s.drained == s.done
    ensures s.done < c.rounds ==> s.filled == s.done && s.fill.Moving? && s.taken == |c.input|
  {
    assert !Enabled(c, s, Drain) && !Enabled(c, s, Core) && !Enabled(c, s, Fill);
  }

  lemma StuckIsFinished(c: Config, s: State)
    requires Inv(c, s) && CreditsUsable(c) && Stuck(c, s)
    ensures s.drained == Deliverable(c)
    ensures Offset(c, Deliverable(c)) <= |c.input|
    ensures s.emitted == Doubled(c.input[..Offset(c, Deliverable(c))])
    ensures s.done == c.rounds <==> c.rounds <= |c.input| / c.words
  {
    StuckAtRest(c, s);
    assert !Enabled(c, s, Fill);
    OffsetMonotone(c, s.done, s.filled);
    WholeBuffers(c, s.done, |c.input| - Offset(c, s.done));
  }

  // Every step is counted --------------------------------------------------

  function DmaWork(c: Config, finished: nat, pc: DmaPc): nat {
    finished * (c.words + 2) + if pc.Moving? then 1 + pc.next else 0
  }

  function CoreWork(c: Config, s: State): nat {
    s.done * (c.words + 4) +
    match s.core
    case AcquireIn => 0
    case AcquireOut => 1
    case Compute(j) => 2 + j
    case ReleaseIn => c.words + 3
  }

  /** The number of steps taken so far. */
  function Work(c: Config, s: State): nat {
    DmaWork(c, s.filled, s.fill) + CoreWork(c, s) + DmaWork(c, s.drained, s.drain)
  }

  /** No run is longer: one attempt beyond the last whole input buffer, and `rounds` of the other two agents. */
  function WorkBound(c: Config): nat
    requires Shaped(c)
  {
    (|c.input| / c.words + 1) * (c.words + 2) + c.rounds * (c.words + 4) + c.rounds * (c.words + 2)
  }

  lemma StepIsWork(c: Config, s: State, a: Agent)
    requires WellFormed(c, s) && Enabled(c, s, a)
    ensures Work(c, Act(c, s, a)) == Work(c, s) + 1
  {
    NextMultiple(s.filled, c.words + 2);
    NextMultiple(s.done, c.words + 4);
    NextMultiple(s.drained, c.words + 2);
  }

  lemma DmaWorkBounded(c: Config, finished: nat, pc: DmaPc, limit: nat)
    requires finished + One(pc.Moving?) <= limit
    requires pc.Moving? ==> pc.next <= c.words
    ensures DmaWork(c, finished, pc) <= limit * (c.words + 2)
  {
    NextMultiple(finished, c.words + 2);
    ProductMonotone(finished + One(pc.Moving?), limit, c.words + 2);
  }

  lemma WorkBounded(c: Config, s: State)
    requires Counted(c, s)
    ensures Work(c, s) <= WorkBound(c)
  {
    WholeBuffers(c, s.filled, |c.input| - Offset(c, s.filled));
    DmaWorkBounded(c, s.filled, s.fill, |c.input| / c.words + 1);
    DmaWorkBounded(c, s.drained, s.drain, c.rounds);
    NextMultiple(s.done, c.words + 4);
    ProductMonotone(s.done + One(CoreHoldsIn(s)), c.rounds, c.words + 4);
  }

  lemma {:induction false} RunCountsWork(c: Config, run: seq<State>, i: nat)
    requires IsRun(c, run) && i < |run|
    ensures Work(c, run[i]) == i
  {
    if i > 0 {
      RunCountsWork(c, run, i - 1);
      assert StepAt(c, run, i - 1);
      var a :| Enabled(c, run[i - 1], a) && run[i] == Act(c, run[i - 1], a);
      StepIsWork(c, run[i - 1], a);
    }
  }

  // Main results -----------------------------------------------------------

  /** No schedule runs forever, whatever the initial credits. */
  lemma RunsAreBounded(c: Config, run: seq<State>)
    requires IsRun(c, run)
    ensures Shaped(c) && |run| <= WorkBound(c) + 1
  {
    var last := |run| - 1;
    RunIsCounted(c, run, last);
    RunCountsWork(c, run, last);
    WorkBounded(c, run[last]);
  }

  /** As long as a deliverable word is missing, some agent can step. */
  lemma NeverDeadlocks(c: Config, run: seq<State>, i: nat)
    requires IsRun(c, run) && CreditsUsable(c) && i < |run|
    requires |run[i].emitted| < Deliverable(c) * c.words
    ensures !Stuck(c, run[i])
  {
    RunInv(c, run, i);
    if Stuck(c, run[i]) {
      StuckIsFinished(c, run[i]);
      OffsetIsProduct(c, Deliverable(c));
    }
  }

  /** A run that cannot go on has sent exactly the deliverable part of the doubled input, whatever the schedule. */
  lemma MaximalRunDelivers(c: Config, run: seq<State>)
    requires IsRun(c, run) && CreditsUsable(c) && Stuck(c, run[|run| - 1])
    ensures Deliverable(c) * c.words <= |c.input|
    ensures run[|run| - 1].emitted == Doubled(c.input[..Deliverable(c) * c.words])
    ensures run[|run| - 1].done == c.rounds <==> c.rounds <= |c.input| / c.words
  {
    RunInv(c, run, |run| - 1);
    StuckIsFinished(c, run[|run| - 1]);
    OffsetIsProduct(c, Deliverable(c));
  }

  /** Every run, however it was scheduled, extends to one that cannot go on. */
  lemma {:induction false} EveryRunCompletes(c: Config, run: seq<State>) returns (full: seq<State>)
    requires IsRun(c, run) && Shaped(c)
    ensures IsRun(c, full) && run <= full && Stuck(c, full[|full| - 1])
    decreases WorkBound(c) + 1 - |run|
  {
    var s := run[|run| - 1];
    RunIsCounted(c, run, |run| - 1);
    if Stuck(c, s) {
      full := run;
    } else {
      var a :| Enabled(c, s, a);
      var longer := run + [Act(c, s, a)];
      assert StepsTo(c, s, Act(c, s, a));
      forall i | 0 <= i < |longer| - 1
        ensures StepAt(c, longer, i)
      {
        if i < |run| - 1 {
          assert StepAt(c, run, i);
        }
      }
      RunsAreBounded(c, longer);
      full := EveryRunCompletes(c, longer);
    }
  }
}
