/**
 * The ping-pong streaming kernel: an input DMA, the core and an output DMA that
 * share `depth` input buffers, `depth` output buffers and four counting locks.
 *
 * Every agent is sequential, so a run is decided by which agent moves next. One
 * step is one lock operation or the transfer of one word.
 */
module StreamModel {
  import opened Basics
  import opened Words

  /**
   * `inCredits` and `outCredits` are the initial values of the two locks that
   * count free buffers (locks 0 and 3), `rounds` is the iteration count of the
   * kernel loop and `input` is everything the shim DMA sends. Nothing ties
   * `|input|` to `rounds`: the stream may end early, late or inside a buffer.
   */
  datatype Config = Config(
    depth: nat,
    words: nat,
    inCredits: nat,
    outCredits: nat,
    rounds: nat,
    input: seq<int32>)

  predicate Shaped(c: Config) {
    c.depth >= 1 && c.words >= 1
  }

  datatype Agent = Fill | Core | Drain

  /** A DMA waits for its lock, or is about to move word `next` of its buffer. */
  datatype DmaPc = AtLock | Moving(next: nat)

  datatype CorePc = AcquireIn | AcquireOut | Compute(next: nat) | ReleaseIn

  /**
   * Lock 0 is `inFree`, lock 1 `inFull`, lock 2 `outFull` and lock 3 `outFree`.
   * `filled`, `done` and `drained` count the buffers each agent has finished;
   * `taken` is how many words of the input have arrived.
   */
  datatype State = State(
    inFree: int,
    inFull: int,
    outFull: int,
    outFree: int,
    inBuf: seq<seq<int32>>,
    outBuf: seq<seq<int32>>,
    fill: DmaPc,
    filled: nat,
    taken: nat,
    core: CorePc,
    done: nat,
    drain: DmaPc,
    drained: nat,
    emitted: seq<int32>)

  predicate BuffersOf(c: Config, bufs: seq<seq<int32>>) {
    |bufs| == c.depth && forall i :: 0 <= i < |bufs| ==> |bufs[i]| == c.words
  }

  /** The shape every step needs to be defined. */
  predicate WellFormed(c: Config, s: State) {
    && Shaped(c)
    && BuffersOf(c, s.inBuf)
    && BuffersOf(c, s.outBuf)
    && (s.fill.Moving? ==> s.fill.next <= c.words)
    && (s.core.Compute? ==> s.core.next <= c.words)
    && (s.drain.Moving? ==> s.drain.next <= c.words)
    && s.taken <= |c.input|
  }

  /** The slot of a channel's `k`-th buffer: its descriptors form a cycle, ping to pong to ping. */
  function Slot(c: Config, k: nat): (slot: nat)
    requires Shaped(c)
    ensures slot < c.depth
  {
    if k == 0 then 0
    else
      var prev := Slot(c, k - 1);
      if prev + 1 == c.depth then 0 else prev + 1
  }

  /** The number of words in `k` whole buffers, `k * words`. */
  function Offset(c: Config, k: nat): nat {
    if k == 0 then 0 else Offset(c, k - 1) + c.words
  }

  /** `aie::add(v, v)` on one int32 lane. */
  function Double(w: int32): int32 {
    Wrap32(w + w)
  }

  function Doubled(ws: seq<int32>): (r: seq<int32>)
    ensures |r| == |ws|
    ensures forall i :: 0 <= i < |ws| ==> r[i] == Double(ws[i])
  {
    seq(|ws|, i requires 0 <= i < |ws| => Double(ws[i]))
  }

  predicate Init(c: Config, s: State) {
    && WellFormed(c, s)
    && s.inFree == c.inCredits && s.inFull == 0
    && s.outFull == 0 && s.outFree == c.outCredits
    && s.fill == AtLock && s.filled == 0 && s.taken == 0
    && s.core == AcquireIn && s.done == 0
    && s.drain == AtLock && s.drained == 0 && s.emitted == []
  }

  /** A lock operation blocks on an empty lock; the input DMA also blocks on an empty stream. */
  predicate Enabled(c: Config, s: State, a: Agent) {
    match a
    case Fill =>
      (match s.fill
       case AtLock => s.inFree >= 1
       case Moving(j) => j < c.words ==> s.taken < |c.input|)
    case Core =>
      (match s.core
       case AcquireIn => s.done < c.rounds && s.inFull >= 1
       case AcquireOut => s.outFree >= 1
       case Compute(_) => true
       case ReleaseIn => true)
    case Drain =>
      (match s.drain
       case AtLock => s.outFull >= 1
       case Moving(_) => true)
  }

  function Put(bufs: seq<seq<int32>>, slot: nat, j: nat, w: int32): (r: seq<seq<int32>>)
    requires slot < |bufs| && j < |bufs[slot]|
    ensures |r| == |bufs| && |r[slot]| == |bufs[slot]|
    ensures forall i :: 0 <= i < |bufs| && i != slot ==> r[i] == bufs[i]
    ensures r[slot] == bufs[slot][j := w]
  {
    var buf: seq<int32> := bufs[slot][j := w];
    bufs[slot := buf]
  }

  function Act(c: Config, s: State, a: Agent): (s': State)
    requires WellFormed(c, s) && Enabled(c, s, a)
    ensures WellFormed(c, s')
  {
    match a
    case Fill => FillAct(c, s)
    case Core => CoreAct(c, s)
    case Drain => DrainAct(c, s)
  }

  /** Take a free input buffer, copy one buffer of words from the stream, publish it. */
  function FillAct(c: Config, s: State): (s': State)
    requires WellFormed(c, s) && Enabled(c, s, Fill)
    ensures WellFormed(c, s')
  {
    match s.fill
    case AtLock => s.(inFree := s.inFree - 1, fill := Moving(0))
    case Moving(j) =>
      if j < c.words then
        s.(inBuf := Put(s.inBuf, Slot(c, s.filled), j, c.input[s.taken]),
           fill := Moving(j + 1), taken := s.taken + 1)
      else
        s.(inFull := s.inFull + 1, fill := AtLock, filled := s.filled + 1)
  }

  /** One iteration of the kernel: acquire both windows, double the words, release out, then in. */
  function CoreAct(c: Config, s: State): (s': State)
    requires WellFormed(c, s) && Enabled(c, s, Core)
    ensures WellFormed(c, s')
  {
    match s.core
    case AcquireIn => s.(inFull := s.inFull - 1, core := AcquireOut)
    case AcquireOut => s.(outFree := s.outFree - 1, core := Compute(0))
    case Compute(j) =>
      if j < c.words then
        s.(outBuf := Put(s.outBuf, Slot(c, s.done), j, Double(s.inBuf[Slot(c, s.done)][j])),
           core := Compute(j + 1))
      else
        s.(outFull := s.outFull + 1, core := ReleaseIn)
    case ReleaseIn => s.(inFree := s.inFree + 1, core := AcquireIn, done := s.done + 1)
  }

  /** Take a full output buffer, send its words, give the buffer back. */
  function DrainAct(c: Config, s: State): (s': State)
    requires WellFormed(c, s) && Enabled(c, s, Drain)
    ensures WellFormed(c, s')
  {
    match s.drain
    case AtLock => s.(outFull := s.outFull - 1, drain := Moving(0))
    case Moving(j) =>
      if j < c.words then
        s.(emitted := s.emitted + [s.outBuf[Slot(c, s.drained)][j]], drain := Moving(j + 1))
      else
        s.(outFree := s.outFree + 1, drain := AtLock, drained := s.drained + 1)
  }

  /** `run` is one possible execution: `run[0]` is initial and each state follows by some agent's step. */
  ghost predicate IsRun(c: Config, run: seq<State>) {
    && |run| > 0
    && Init(c, run[0])
    && forall i :: 0 <= i < |run| - 1 ==> StepAt(c, run, i)
  }

  ghost predicate StepAt(c: Config, run: seq<State>, i: int)
    requires 0 <= i < |run| - 1
  {
    StepsTo(c, run[i], run[i + 1])
  }

  ghost predicate StepsTo(c: Config, s: State, s': State) {
    WellFormed(c, s) && exists a :: Enabled(c, s, a) && s' == Act(c, s, a)
  }

  ghost predicate Stuck(c: Config, s: State) {
    forall a :: !Enabled(c, s, a)
  }

  // Who holds which buffer ------------------------------------------------

  predicate FillHolds(s: State) { s.fill.Moving? }
  predicate CoreHoldsIn(s: State) { !s.core.AcquireIn? }
  predicate CoreHoldsOut(s: State) { s.core.Compute? }
  predicate DrainHolds(s: State) { s.drain.Moving? }

  /** A DMA and the core have the same buffer open. */
  predicate Conflict(c: Config, s: State)
    requires Shaped(c)
  {
    InputConflict(c, s) || OutputConflict(c, s)
  }

  predicate InputConflict(c: Config, s: State)
    requires Shaped(c)
  {
    FillHolds(s) && CoreHoldsIn(s) && Slot(c, s.filled) == Slot(c, s.done)
  }

  predicate OutputConflict(c: Config, s: State)
    requires Shaped(c)
  {
    CoreHoldsOut(s) && DrainHolds(s) && Slot(c, s.done) == Slot(c, s.drained)
  }

  /** Output buffers the core has handed over: one more than `done` between its two releases. */
  function Published(s: State): nat {
    s.done + One(s.core.ReleaseIn?)
  }
}
