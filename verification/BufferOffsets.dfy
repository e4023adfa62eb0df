/**
 * The byte ranges of raw buffers: allocations, the offsets taken into them, and what is
 * declared over them.
 */
module BufferOffsets {
  import opened Basics
  import opened ByteOffsets

  // Where a variable comes from -------------------------------------------------------------

  /** Op `j` is the last one before `n` that defines `name`. */
  ghost predicate LastDefined(ops: seq<Op>, n: nat, name: string, j: nat)
    requires n <= |ops|
  {
    j < n && Defines(ops, j + 1, name) && forall i :: j + 1 < i <= n ==> !Defines(ops, i, name)
  }

  lemma {:induction false} KnownSince(ops: seq<Op>, n: nat, name: string, j: nat)
    requires n <= |ops| && LastDefined(ops, n, name, j)
    ensures name in EnvAt(ops, n) && EnvAt(ops, n)[name] == Learn(EnvAt(ops, j), ops[j]).0.value
    decreases n
  {
    if j + 1 < n {
      assert !Defines(ops, n, name);
      KnownSince(ops, n - 1, name, j);
    }
  }

  /** `name` was made out of the allocation at op `root`: declared over it, cut out of it or offset into it. */
  ghost predicate DerivedFrom(ops: seq<Op>, n: nat, name: string, root: nat)
    requires n <= |ops|
    decreases n
  {
    n > 0 &&
    var op := ops[n - 1];
    if !Defines(ops, n, name) then DerivedFrom(ops, n - 1, name, root)
    else
      match op
      case Allocate(_, _) => root == n - 1
      case DeclareData(_, mem, _) => DerivedFrom(ops, n - 1, mem, root)
      case PartitionTensor(_, data, _, _) => DerivedFrom(ops, n - 1, data, root)
      case ExtractSlice(_, src, _, _, _, _) => DerivedFrom(ops, n - 1, src, root)
      case BufferOffset(_, base, _) => DerivedFrom(ops, n - 1, base, root)
      case _ => false
  }

  /** However it was made, a variable is known with the size and the name of its allocation. */
  lemma {:induction false} AllocationIsKept(ops: seq<Op>, n: nat, name: string, root: nat)
    requires n <= |ops| && DerivedFrom(ops, n, name, root)
    ensures root < n && ops[root].Allocate? && name in EnvAt(ops, n)
    ensures var info := EnvAt(ops, n)[name];
            info.allocSize == ops[root].size && info.allocVar == ops[root].result
    decreases n
  {
    var op := ops[n - 1];
    if !Defines(ops, n, name) {
      AllocationIsKept(ops, n - 1, name, root);
    } else {
      match op
      case DeclareData(_, mem, _) => AllocationIsKept(ops, n - 1, mem, root);
      case PartitionTensor(_, data, _, _) => AllocationIsKept(ops, n - 1, data, root);
      case ExtractSlice(_, src, _, _, _, _) => AllocationIsKept(ops, n - 1, src, root);
      case BufferOffset(_, base, _) => AllocationIsKept(ops, n - 1, base, root);
      case _ =>
    }
  }

  /** Data declared over anything made out of an allocation are annotated with the whole allocation. */
  lemma DeclaredDataIsWhole(ops: seq<Op>, i: nat, root: nat)
    requires i < |ops| && ops[i].DeclareData? && DerivedFrom(ops, i, ops[i].mem, root)
    ensures root < i && ops[root].Allocate? && RangeOf(ops, i) == Some(Range(0, ops[root].size))
  {
    AllocationIsKept(ops, i, ops[i].mem, root);
  }

  // Offsets add up -----------------------------------------------------------------------------

  /** `name` lies `total` bytes into the allocation at op `root`, by any number of buffer offsets. */
  ghost predicate OffsetInto(ops: seq<Op>, n: nat, name: string, root: nat, total: int)
    requires n <= |ops|
    decreases n
  {
    n > 0 &&
    var op := ops[n - 1];
    if !Defines(ops, n, name) then OffsetInto(ops, n - 1, name, root, total)
    else
      || (op.Allocate? && root == n - 1 && total == 0)
      || (op.BufferOffset? && OffsetInto(ops, n - 1, op.base, root, total - op.offset))
  }

  /** Then that is what is known about it: a byte of the allocation, at the sum of the offsets. */
  lemma {:induction false} OffsetsAdd(ops: seq<Op>, n: nat, name: string, root: nat, total: int)
    requires n <= |ops| && OffsetInto(ops, n, name, root, total)
    ensures root < n && ops[root].Allocate? && name in EnvAt(ops, n)
    ensures EnvAt(ops, n)[name] == Info(1, [], total, ops[root].size, ops[root].result)
    decreases n
  {
    var op := ops[n - 1];
    if !Defines(ops, n, name) {
      OffsetsAdd(ops, n - 1, name, root, total);
    } else if op.BufferOffset? {
      OffsetsAdd(ops, n - 1, op.base, root, total - op.offset);
    }
  }

  /** The rest of the allocation from `at` on; nothing if `at` is at or beyond its end. */
  predicate IsRest(r: Range, at: int, size: int) {
    r.lo == at && r.hi == (if at < size then size else at)
  }

  /** A buffer offset is annotated with the rest of its allocation from the sum of the offsets on. */
  lemma OffsetAnnotation(ops: seq<Op>, i: nat, root: nat, total: int)
    requires i < |ops| && ops[i].BufferOffset? && OffsetInto(ops, i, ops[i].base, root, total)
    ensures root < i && ops[root].Allocate? && RangeOf(ops, i).Some?
    ensures IsRest(RangeOf(ops, i).value, total + ops[i].offset, ops[root].size)
  {
    OffsetsAdd(ops, i, ops[i].base, root, total);
  }

  /** Non-negative offsets that stay inside the allocation narrow the range of the buffer they are taken from. */
  lemma OffsetsNarrow(ops: seq<Op>, i: nat, j: nat, root: nat, total: int)
    requires i < |ops| && ops[i].BufferOffset? && LastDefined(ops, i, ops[i].base, j) && ops[j].BufferOffset?
    requires OffsetInto(ops, j, ops[j].base, root, total)
    ensures root < j && ops[root].Allocate? && RangeOf(ops, i).Some? && RangeOf(ops, j).Some?
    ensures var at := total + ops[j].offset;
            IsRest(RangeOf(ops, i).value, at + ops[i].offset, ops[root].size)
            && (ops[i].offset >= 0 && at + ops[i].offset <= ops[root].size ==>
                Within(RangeOf(ops, i).value, RangeOf(ops, j).value))
  {
    OffsetAnnotation(ops, j, root, total);
    OffsetsAdd(ops, j, ops[j].base, root, total);
    KnownSince(ops, i, ops[i].base, j);
  }

  // Declared tensors -----------------------------------------------------------------------------

  /** A tensor declared over a partition or a slice is annotated with exactly its bytes. */
  lemma DeclaredTensorIsSource(ops: seq<Op>, i: nat, j: nat)
    requires i < |ops| && ops[i].DeclareTensor? && LastDefined(ops, i, ops[i].src, j)
    requires ops[j].PartitionTensor? || ops[j].ExtractSlice?
    ensures RangeOf(ops, i).Some? && RangeOf(ops, i) == RangeOf(ops, j)
  {
    KnownSince(ops, i, ops[i].src, j);
    if ops[j].ExtractSlice? {
      Product2(ops[j].size0, ops[j].size1);
    }
  }

  /** What is made over a variable nothing defines: an offset has no bytes, data their own size, the rest no range. */
  lemma OverUnknown(ops: seq<Op>, i: nat)
    requires i < |ops|
    ensures ops[i].BufferOffset? && ops[i].base !in EnvAt(ops, i) ==>
              RangeOf(ops, i).Some? && IsRest(RangeOf(ops, i).value, ops[i].offset, 0)
    ensures ops[i].DeclareData? && ops[i].mem !in EnvAt(ops, i) ==> RangeOf(ops, i) == Some(Range(0, ops[i].size))
    ensures (ops[i].DeclareTensor? || ops[i].ExtractSlice?) && ops[i].src !in EnvAt(ops, i) ==> RangeOf(ops, i).None?
  {
  }

  /**
   * Declared over an offset into an allocation it starts at the right byte, but is one byte
   * long, because nothing gives the buffer a shape. So it is annotated like the offset it
   * is declared over exactly when that is the last byte of the allocation.
   */
  lemma DeclaredOverOffsetExactly(ops: seq<Op>, i: nat, j: nat, root: nat, total: int)
    requires i < |ops| && ops[i].DeclareTensor? && LastDefined(ops, i, ops[i].src, j) && ops[j].BufferOffset?
    requires OffsetInto(ops, j, ops[j].base, root, total)
    ensures root < j && ops[root].Allocate? && RangeOf(ops, i).Some? && RangeOf(ops, j).Some?
    ensures var at := total + ops[j].offset;
            && RangeOf(ops, i) == Some(Range(at, at + 1)) && RangeOf(ops, j).value.lo == at
            && (RangeOf(ops, i) == RangeOf(ops, j) <==> at == ops[root].size - 1)
  {
    KnownSince(ops, i, ops[i].src, j);
    OffsetAnnotation(ops, j, root, total);
    OffsetsAdd(ops, j, ops[j].base, root, total);
    assert Product([]) == 1;
  }

  /** 100 bytes are allocated, and a tensor is declared 16 bytes into the buffer that starts at byte 16. */
  const NESTED: seq<Op> := [Allocate("m", 100), BufferOffset("a", "m", 16), BufferOffset("b", "a", 16),
                            DeclareTensor("b")]

  lemma {:induction false} NestedEnv()
    ensures EnvAt(NESTED, 1) == map["m" := Info(1, [], 0, 100, "m")]
    ensures EnvAt(NESTED, 2) == EnvAt(NESTED, 1)["a" := Info(1, [], 16, 100, "m")]
    ensures EnvAt(NESTED, 3) == EnvAt(NESTED, 2)["b" := Info(1, [], 32, 100, "m")]
  {
    assert EnvAt(NESTED, 0) == map[];
  }

  /** The buffer is annotated with bytes 32 to 99, and the tensor with byte 32 alone. */
  lemma DeclaredTensorIsOneByte()
    ensures RangeOf(NESTED, 2) == Some(Range(32, 100)) && RangeOf(NESTED, 3) == Some(Range(32, 33))
  {
    NestedEnv();
    assert Product([]) == 1;
  }

  // Shapes -----------------------------------------------------------------------------------------

  /** The element count of a shape: extents multiply, in any grouping. */
  lemma {:induction false} ProductOfParts(a: seq<int>, b: seq<int>)
    ensures Product(a + b) == Product(a) * Product(b)
    ensures forall n :: Product([n]) == n
  {
    forall n
      ensures Product([n]) == n
    {
      assert [n][..0] == [];
    }
    if b == [] {
      assert a + b == a;
    } else {
      var front, last := b[..|b| - 1], b[|b| - 1];
      ProductOfParts(a, front);
      assert (a + b)[..|a + b| - 1] == a + front;
      assert Product(a) * Product(front) * last == Product(a) * (Product(front) * last);
    }
  }

  /** A partition tensor is annotated with its elements from byte 0 on, whatever it is declared over. */
  lemma PartitionAnnotation(ops: seq<Op>, i: nat)
    requires i < |ops| && ops[i].PartitionTensor?
    ensures RangeOf(ops, i) == Some(Range(0, Product(ops[i].shape) * ops[i].elemSize))
  {
  }

  /**
   * Where a slice starts, whatever the shape of its source: a row further down is the row
   * length further on, a column further is one element further, and without a second
   * extent rows do not count.
   */
  lemma SliceStarts(p: Info, off0: int, off1: int, size0: int, size1: int)
    ensures SliceInfo(p, 0, 0, size0, size1).offset == p.offset
    ensures SliceInfo(p, off0, off1 + 1, size0, size1).offset
            == SliceInfo(p, off0, off1, size0, size1).offset + p.elemSize
    ensures SliceInfo(p, off0 + 1, off1, size0, size1).offset
            == SliceInfo(p, off0, if |p.shape| >= 2 then off1 + p.shape[1] else off1, size0, size1).offset
  {
    var row := Dim1(p);
    assert (off0 + 1) * row + off1 == off0 * row + (off1 + row);
    assert (off0 * row + off1 + 1) * p.elemSize == (off0 * row + off1) * p.elemSize + p.elemSize;
  }
}
