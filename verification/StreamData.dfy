/**
 * Which initial lock values keep the data right: exactly those for which no buffer can be
 * overwritten, or nothing is sent at all.
 */
module StreamData {
  import opened Words
  import opened StreamModel
  import opened StreamSafety
  import opened StreamCredits

  /** Whatever the schedule, the words sent are a prefix of the doubled input. */
  ghost predicate DataSafe(c: Config) {
    forall run :: IsRun(c, run) ==> Last(run).emitted <= Doubled(c.input)
  }

  /** With as many credits as buffers, or with nothing sent, they are. */
  lemma SafeCredits(c: Config)
    requires Shaped(c) && (CreditsFit(c) || c.outCredits == 0 || c.inCredits == 0)
    ensures DataSafe(c)
  {
    forall run | IsRun(c, run)
      ensures Last(run).emitted <= Doubled(c.input)
    {
      if CreditsFit(c) {
        EmittedIsPrefix(c, run, |run| - 1);
      } else if c.outCredits == 0 {
        NoOutputEver(c, run, |run| - 1);
      } else {
        NoInCredit(c);
      }
    }
  }

  /** Send the first word of the buffer the output DMA is about to take. */
  lemma SendFirst(c: Config, run: seq<State>) returns (run': seq<State>)
    requires IsRun(c, run) && WellFormed(c, Last(run))
    requires var s := Last(run); s.drain == AtLock && s.outFull >= 1 && s.drained == 0 && s.emitted == []
    ensures IsRun(c, run') && Last(run').emitted == [FirstWord(c, Last(run).outBuf, 0)]
  {
    run' := Then(c, run, Drain);
    run' := Then(c, run', Drain);
  }

  /** More credits than input buffers: the core reads a word that the DMA has already overwritten. */
  lemma InputOverwritten(c: Config) returns (run: seq<State>)
    requires Shaped(c) && c.inCredits > c.depth && c.outCredits >= 1 && c.rounds >= 1 && Offset(c, c.depth) < |c.input|
    ensures IsRun(c, run) && Last(run).emitted == [Double(c.input[Offset(c, c.depth)])]
  {
    run := FillMany(c, c.depth);
    run := Then(c, run, Core);
    run := Then(c, run, Core);
    run := Then(c, run, Fill);
    run := Then(c, run, Fill);
    SlotAdvances(c, 0, c.depth);
    assert FirstWord(c, Last(run).inBuf, 0) == c.input[Offset(c, c.depth)];
    run := Then(c, run, Core);
    run := ComputeWords(c, run, 1);
    run := Then(c, run, Core);
    run := SendFirst(c, run);
  }

  /** More credits than output buffers: the output DMA sends a word that the core has already overwritten. */
  lemma OutputOverwritten(c: Config) returns (run: seq<State>)
    requires Shaped(c) && c.outCredits > c.depth && c.inCredits >= 1
    requires c.rounds >= c.depth + 1 && Offset(c, c.depth + 1) <= |c.input|
    ensures IsRun(c, run) && Last(run).emitted == [Double(c.input[Offset(c, c.depth)])]
  {
    run := FillAndProcess(c, c.depth);
    run := FillOne(c, run);
    run := Then(c, run, Core);
    run := Then(c, run, Core);
    run := Then(c, run, Core);
    SlotAdvances(c, 0, c.depth);
    run := SendFirst(c, run);
  }

  /** A stream of zeros with a one at position `at`. */
  function Marked(n: nat, at: nat): (r: seq<int32>)
    requires at < n
    ensures |r| == n && r[at] == 1 && forall i :: 0 <= i < n && i != at ==> r[i] == 0
  {
    seq(n, i => if i == at then 1 else 0)
  }

  lemma WrongFirstWord(c: Config, run: seq<State>, at: nat)
    requires 0 < at < |c.input| && c.input[at] == 1 && c.input[0] == 0
    requires IsRun(c, run) && Last(run).emitted == [Double(c.input[at])]
    ensures !DataSafe(c)
  {
    assert Double(1) == 2 && Double(0) == 0;
    assert Last(run).emitted[0] != Doubled(c.input)[0];
  }

  /** The data are right for every stream and every iteration count exactly when no side has more credits than
      buffers while the other side lets anything through. */
  lemma DataSafeExactly(depth: nat, words: nat, inCredits: nat, outCredits: nat)
    requires depth >= 1 && words >= 1
    ensures (forall rounds: nat, input: seq<int32> ::
               DataSafe(Config(depth, words, inCredits, outCredits, rounds, input)))
            <==> (inCredits <= depth || outCredits == 0) && (outCredits <= depth || inCredits == 0)
  {
    if (inCredits <= depth || outCredits == 0) && (outCredits <= depth || inCredits == 0) {
      forall rounds: nat, input: seq<int32>
        ensures DataSafe(Config(depth, words, inCredits, outCredits, rounds, input))
      {
        SafeCredits(Config(depth, words, inCredits, outCredits, rounds, input));
      }
    } else {
      var sample := Config(depth, words, inCredits, outCredits, depth + 1, []);
      OffsetMonotone(sample, 1, depth);
      var c := sample.(input := Marked(Offset(sample, depth + 1), Offset(sample, depth)));
      SameOffset(sample, c, depth);
      SameOffset(sample, c, depth + 1);
      var run;
      if inCredits > depth && outCredits >= 1 {
        run := InputOverwritten(c);
      } else {
        run := OutputOverwritten(c);
      }
      WrongFirstWord(c, run, Offset(c, depth));
    }
  }
}
