/** The vector loop of the streaming kernel, in place on the two windows. */
module StreamKernel {
  import opened Words
  import opened StreamModel

  const VECTOR_LENGTH: nat := 32

  function AddLanes(a: seq<int32>, b: seq<int32>): (r: seq<int32>)
    requires |a| == |b|
    ensures |r| == |a|
    ensures forall i :: 0 <= i < |a| ==> r[i] == Wrap32(a[i] as int + b[i] as int)
  {
    seq(|a|, i requires 0 <= i < |a| => Wrap32(a[i] as int + b[i] as int))
  }

  /** Doubling the next vector extends the doubled prefix by that vector added to itself. */
  lemma DoubledSlice(ws: seq<int32>, at: nat, v: seq<int32>)
    requires at + |v| <= |ws| && v == ws[at..at + |v|]
    ensures Doubled(ws[..at + |v|]) == Doubled(ws[..at]) + AddLanes(v, v)
  {
  }

  /** Store one vector: only its own lanes of the window change. */
  method StoreVector(window: array<int32>, at: nat, v: seq<int32>)
    requires |v| == VECTOR_LENGTH && at + VECTOR_LENGTH <= window.Length
    modifies window
    ensures window[..at + VECTOR_LENGTH] == old(window[..at]) + v
    ensures window[at + VECTOR_LENGTH..] == old(window[at + VECTOR_LENGTH..])
  {
    forall i | 0 <= i < VECTOR_LENGTH {
      window[at + i] := v[i];
    }
  }

  /**
   * One iteration of the kernel between its acquires and releases. The loop takes
   * two vectors at a time, so the window must be a whole number of pairs; what it
   * leaves is what the core of StreamModel computes word by word.
   */
  method DoubleWindow(ptrIn: array<int32>, ptrOut: array<int32>)
    requires ptrIn != ptrOut && ptrIn.Length == ptrOut.Length
    requires ptrIn.Length % 64 == 0
    modifies ptrOut
    ensures ptrOut[..] == Doubled(ptrIn[..])
  {
    var j := 0;
    while j < ptrIn.Length
      invariant 0 <= j <= ptrIn.Length && j % 64 == 0
      invariant ptrOut[..j] == Doubled(ptrIn[..][..j])
    {
      var v0 := ptrIn[j..j + VECTOR_LENGTH];
      var v1 := ptrIn[j + VECTOR_LENGTH..j + 2 * VECTOR_LENGTH];
      DoubledSlice(ptrIn[..], j, v0);
      DoubledSlice(ptrIn[..], j + VECTOR_LENGTH, v1);
      v0 := AddLanes(v0, v0);
      v1 := AddLanes(v1, v1);
      StoreVector(ptrOut, j, v0);
      StoreVector(ptrOut, j + VECTOR_LENGTH, v1);
      j := j + VECTOR_LENGTH * 2;
    }
    assert ptrIn[..][..j] == ptrIn[..];
    assert ptrOut[..j] == ptrOut[..];
  }
}
