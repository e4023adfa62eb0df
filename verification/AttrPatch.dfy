/**
 * Re-typing the AIE aperture: the EL3 stage-1 translation tables are walked to
 * the level-1 descriptor of the aperture and its AttrIndx field is rewritten.
 * Descriptors follow section D8.3 of the Arm Architecture Reference Manual (DDI
 * 0487) for a 4 KB granule and 48-bit addresses; levels 0 to 3.
 */
module AttrPatch {
  import opened Arith

  /** A 64-bit word; masks and shifts are written as quotients and remainders of powers of two. */
  type word = x: int | 0 <= x < 0x1_0000_0000_0000_0000

  const XAIE_BASE_ADDR: word := 0x200_0000_0000

  /** Physical memory by word address; words never written read as 0. */
  type Memory = map<int, word>

  function Load(mem: Memory, addr: int): word {
    if addr in mem then mem[addr] else 0
  }

  /** The 9-bit table index of `va` at a level: bits 47:39, 38:30, 29:21 and 20:12. */
  function Index(va: word, level: nat): int {
    if level == 0 then va / 0x80_0000_0000 % 0x200
    else if level == 1 then va / 0x4000_0000 % 0x200
    else if level == 2 then va / 0x20_0000 % 0x200
    else va / 0x1000 % 0x200
  }

  function EntryAddr(base: int, va: word, level: nat): int {
    base + Index(va, level) * 8
  }

  /** Bits 1:0. */
  function Type(d: word): (t: int)
    ensures 0 <= t < 4
  {
    d % 4
  }

  /** Bits 47:12, in place. */
  function TableAddr(d: word): int {
    d / 0x1000 % 0x10_0000_0000 * 0x1000
  }

  /** Bits 4:2. */
  function AttrIndx(d: word): (i: int)
    ensures 0 <= i < 8
  {
    d / 4 % 8
  }

  /** A leaf maps a page at level 3 and a block at levels 1 and 2. */
  predicate IsLeaf(d: word, level: nat) {
    if level == 3 then Type(d) == 3 else 1 <= level <= 2 && Type(d) == 1
  }

  predicate IsTable(d: word, level: nat) {
    level < 3 && Type(d) == 3
  }

  /** The high bits of the leaf and the low bits of `va`: 1 GB and 2 MB blocks, 4 KB pages. */
  function OutputAddr(d: word, va: word, level: nat): int {
    if level == 1 then d / 0x4000_0000 % 0x4_0000 * 0x4000_0000 + va % 0x4000_0000
    else if level == 2 then d / 0x20_0000 % 0x800_0000 * 0x20_0000 + va % 0x20_0000
    else TableAddr(d) + va % 0x1000
  }

  /** A finished walk: the addresses of the descriptors read, and the translation if there is one. */
  datatype Walk = Fault(trail: seq<int>) | Mapped(trail: seq<int>, out: int, attr: int)

  function WalkFrom(mem: Memory, base: int, va: word, level: nat, trail: seq<int>): Walk
    requires level < 4
    decreases 4 - level
  {
    var at := EntryAddr(base, va, level);
    var d := Load(mem, at);
    if IsLeaf(d, level) then Mapped(trail + [at], OutputAddr(d, va, level), AttrIndx(d))
    else if IsTable(d, level) then WalkFrom(mem, TableAddr(d), va, level + 1, trail + [at])
    else Fault(trail + [at])
  }

  function Translate(mem: Memory, ttbr: word, va: word): Walk {
    WalkFrom(mem, TableAddr(ttbr), va, 0, [])
  }

  // The fields of addresses and descriptors ----------------------------------------------

  lemma ShiftTwice(x: int, a: int, b: int)
    requires a >= 1 && b >= 1 && x >= 0
    ensures x / (a * b) == x / a / b && x % (a * b) == x / a % b * a + x % a
  {
    var q, r := x / a, x % a;
    Division(x, a);
    Division(q, b);
    Digits(q % b, r, b, a);
    assert x == q / b * (a * b) + (q % b * a + r) by {
      assert (q / b * b + q % b) * a == q / b * (a * b) + q % b * a;
    }
    QuotientUnique(x, q / b, q % b * a + r, a * b);
  }

  lemma Digits(hi: int, lo: int, m: int, n: int)
    requires 0 <= hi < m && 0 <= lo < n
    ensures 0 <= hi * n + lo < n * m
  {
    ProductMonotone(hi + 1, m, n);
    NextMultiple(hi, n);
  }

  /** The four table indices and the page offset make up the low 48 bits of an address. */
  lemma IndicesMakeUp(va: word)
    ensures va % 0x1_0000_0000_0000 == Index(va, 0) * 0x80_0000_0000 + Index(va, 1) * 0x4000_0000
                                       + Index(va, 2) * 0x20_0000 + Index(va, 3) * 0x1000 + va % 0x1000
  {
    ShiftTwice(va, 0x1000, 0x200);
    ShiftTwice(va, 0x20_0000, 0x200);
    ShiftTwice(va, 0x4000_0000, 0x200);
    ShiftTwice(va, 0x80_0000_0000, 0x200);
  }

  /** A descriptor points to a page: what it holds besides is above bit 47 or below bit 12. */
  lemma TableAddrIs(d: word)
    ensures TableAddr(d) % 0x1000 == 0 && 0 <= TableAddr(d) < 0x1_0000_0000_0000
    ensures d == d / 0x1_0000_0000_0000 * 0x1_0000_0000_0000 + TableAddr(d) + d % 0x1000
  {
    ShiftTwice(d, 0x1000, 0x10_0000_0000);
  }

  /** The bytes a leaf maps: 1 GB, 2 MB or 4 KB. */
  function LeafSize(level: nat): int {
    if level == 1 then 0x4000_0000 else if level == 2 then 0x20_0000 else 0x1000
  }

  /** Translation keeps the offset in the block or page, and takes the rest from the leaf. */
  lemma OutputAddrIs(d: word, va: word, level: nat)
    requires 1 <= level <= 3
    ensures OutputAddr(d, va, level) % LeafSize(level) == va % LeafSize(level)
    ensures OutputAddr(d, va, level) / LeafSize(level) == d % 0x1_0000_0000_0000 / LeafSize(level)
  {
    var size := LeafSize(level);
    var frames := if level == 1 then 0x4_0000 else if level == 2 then 0x800_0000 else 0x10_0000_0000;
    ShiftTwice(d, size, frames);
    Division(va, size);
    QuotientUnique(OutputAddr(d, va, level), d / size % frames, va % size, size);
    QuotientUnique(d % (size * frames), d / size % frames, d % size, size);
  }

  /** The entries of a table fill its page, eight bytes each. */
  lemma EntryInTable(base: int, va: word, level: nat)
    ensures base <= EntryAddr(base, va, level) <= base + 0x1000 - 8
    ensures (EntryAddr(base, va, level) - base) % 8 == 0
  {
  }

  // The rewritten descriptor ------------------------------------------------------------

  /** `d` with bits 4:2 replaced by the low three bits of `indx`. */
  function WithAttr(d: word, indx: nat): word {
    d - AttrIndx(d) * 4 + indx % 8 * 4
  }

  /** Bits 63:5, 4:2 and 1:0 make up the word. */
  lemma Fields(d: word)
    ensures d == d / 32 * 32 + AttrIndx(d) * 4 + Type(d)
  {
  }

  lemma FieldsUnique(d: word, hi: int, attr: int, t: int)
    requires d == hi * 32 + attr * 4 + t && 0 <= attr < 8 && 0 <= t < 4
    ensures d / 32 == hi && AttrIndx(d) == attr && Type(d) == t
  {
  }

  lemma WithAttrIs(d: word, indx: nat)
    ensures WithAttr(d, indx) / 32 == d / 32
    ensures Type(WithAttr(d, indx)) == Type(d) && AttrIndx(WithAttr(d, indx)) == indx % 8
  {
    Fields(d);
    FieldsUnique(WithAttr(d, indx), d / 32, indx % 8, Type(d));
  }

  /** Everything above bit 4 determines the table address and the output address. */
  lemma HighBits(d: word, e: word, va: word, level: nat)
    requires d / 32 == e / 32
    ensures TableAddr(d) == TableAddr(e) && OutputAddr(d, va, level) == OutputAddr(e, va, level)
  {
    assert d / 0x1000 == d / 32 / 0x80 && e / 0x1000 == e / 32 / 0x80;
    assert d / 0x20_0000 == d / 32 / 0x1_0000 && e / 0x20_0000 == e / 32 / 0x1_0000;
    assert d / 0x4000_0000 == d / 32 / 0x200_0000 && e / 0x4000_0000 == e / 32 / 0x200_0000;
  }

  // The patch ---------------------------------------------------------------------------

  /** The address of the level-1 descriptor of `va`. */
  function L1Addr(mem: Memory, ttbr: word, va: word): int {
    EntryAddr(TableAddr(Load(mem, EntryAddr(TableAddr(ttbr), va, 0))), va, 1)
  }

  /** The code the patch returns, from the two descriptors it reads. */
  function PatchCode(mem: Memory, ttbr: word, va: word): int {
    if Type(Load(mem, EntryAddr(TableAddr(ttbr), va, 0))) != 3 then -1
    else
      var d := Load(mem, L1Addr(mem, ttbr, va));
      if Type(d) == 0 then -3 else if Type(d) == 3 then -2 else 0
  }

  function Patched(mem: Memory, ttbr: word, va: word, indx: nat): Memory {
    var at := L1Addr(mem, ttbr, va);
    if PatchCode(mem, ttbr, va) == 0 then mem[at := WithAttr(Load(mem, at), indx)] else mem
  }

  class Tables {
    var mem: Memory
    const ttbr: word

    constructor (mem: Memory, ttbr: word)
      ensures this.mem == mem && this.ttbr == ttbr
    {
      this.mem := mem;
      this.ttbr := ttbr;
    }

    /** `patch_aie_attr`: returns 0 after rewriting, or a negative code with memory as it was. */
    method Patch(va: word, indx: nat) returns (code: int)
      modifies this
      ensures code == PatchCode(old(mem), ttbr, va)
      ensures mem == Patched(old(mem), ttbr, va, indx)
      ensures code != 0 ==> mem == old(mem)
      ensures forall at :: Load(old(mem), at) % 4 in {0, 3} ==> Load(mem, at) == Load(old(mem), at)
    {
      var l0 := EntryAddr(TableAddr(ttbr), va, 0);
      var l0d := Load(mem, l0);
      if Type(l0d) != 3 {
        return -1;
      }
      var l1 := EntryAddr(TableAddr(l0d), va, 1);
      var l1d := Load(mem, l1);
      if Type(l1d) == 0 {
        return -3;
      }
      if Type(l1d) == 3 {
        return -2;
      }
      mem := mem[l1 := WithAttr(l1d, indx)];
      return 0;
    }
  }

  // What it does to every translation -----------------------------------------------------

  /** `w'` is `w` as seen after the word at `at` got a new AttrIndx. */
  ghost predicate SameBut(w: Walk, w': Walk, at: int, indx: nat) {
    && w'.trail == w.trail
    && (w.Fault? <==> w'.Fault?)
    && (w.Mapped? ==>
          && w'.out == w.out
          && w'.attr == if w.trail != [] && w.trail[|w.trail| - 1] == at then indx % 8 else w.attr)
  }

  lemma {:induction false} WalkAfterRewrite(mem: Memory, at: int, indx: nat, base: int, va: word, level: nat,
                                            trail: seq<int>)
    requires level < 4
    ensures SameBut(WalkFrom(mem, base, va, level, trail),
                    WalkFrom(mem[at := WithAttr(Load(mem, at), indx)], base, va, level, trail), at, indx)
    decreases 4 - level
  {
    var mem' := mem[at := WithAttr(Load(mem, at), indx)];
    var here := EntryAddr(base, va, level);
    var d, d' := Load(mem, here), Load(mem', here);
    if here == at {
      WithAttrIs(d, indx);
    }
    HighBits(d, d', va, level);
    assert Type(d') == Type(d) && TableAddr(d') == TableAddr(d);
    if !IsLeaf(d, level) && IsTable(d, level) {
      WalkAfterRewrite(mem, at, indx, TableAddr(d), va, level + 1, trail + [here]);
    }
  }

  /**
   * Whatever the tables look like, aliased or not: after a patch every address is
   * translated through the same descriptors to the same output, or still faults, and
   * its AttrIndx changes only if its last descriptor is the rewritten one.
   */
  lemma PatchKeepsTranslations(mem: Memory, ttbr: word, va: word, indx: nat, other: word)
    ensures PatchCode(mem, ttbr, va) == 0 ==>
            SameBut(Translate(mem, ttbr, other), Translate(Patched(mem, ttbr, va, indx), ttbr, other),
                    L1Addr(mem, ttbr, va), indx)
    ensures PatchCode(mem, ttbr, va) != 0 ==>
            Translate(Patched(mem, ttbr, va, indx), ttbr, other) == Translate(mem, ttbr, other)
  {
    if PatchCode(mem, ttbr, va) == 0 {
      WalkAfterRewrite(mem, L1Addr(mem, ttbr, va), indx, TableAddr(ttbr), other, 0, []);
    }
  }

  /**
   * The codes say where the walk of the aperture ends: at level 0, below level 1, or at
   * level 1, there on a descriptor whose low bits are 00 or on another one.
   */
  lemma CodeTellsDepth(mem: Memory, ttbr: word, va: word)
    ensures var w, code := Translate(mem, ttbr, va), PatchCode(mem, ttbr, va);
            && (code == -1 <==> |w.trail| == 1)
            && (code == -2 <==> |w.trail| >= 3)
            && (code == -3 <==> |w.trail| == 2 && Load(mem, w.trail[1]) % 4 == 0)
            && (code == 0 <==> |w.trail| == 2 && Load(mem, w.trail[1]) % 4 in {1, 2})
            && (code == -1 || code == -3 ==> w.Fault?)
  {
    var l0 := EntryAddr(TableAddr(ttbr), va, 0);
    var d0 := Load(mem, l0);
    if Type(d0) == 3 {
      var l1 := EntryAddr(TableAddr(d0), va, 1);
      assert Translate(mem, ttbr, va) == WalkFrom(mem, TableAddr(d0), va, 1, [l0]);
      if Type(Load(mem, l1)) == 3 {
        TrailGrows(mem, TableAddr(Load(mem, l1)), va, 2, [l0] + [l1]);
      }
    }
  }

  lemma {:induction false} TrailGrows(mem: Memory, base: int, va: word, level: nat, trail: seq<int>)
    requires level < 4
    ensures |WalkFrom(mem, base, va, level, trail).trail| > |trail|
    decreases 4 - level
  {
    var at := EntryAddr(base, va, level);
    if !IsLeaf(Load(mem, at), level) && IsTable(Load(mem, at), level) {
      TrailGrows(mem, TableAddr(Load(mem, at)), va, level + 1, trail + [at]);
    }
  }

  /**
   * A return of 0 is documented as "block descriptor found and patched". That holds
   * exactly when the low two bits are 01: type 10, an invalid descriptor, is neither 0
   * nor 3 and is rewritten too, and the aperture stays unmapped.
   */
  lemma SuccessMapsExactly(mem: Memory, ttbr: word, va: word, indx: nat)
    requires PatchCode(mem, ttbr, va) == 0
    ensures var at := L1Addr(mem, ttbr, va);
            var w := Translate(Patched(mem, ttbr, va, indx), ttbr, va);
            && (w.Mapped? <==> Type(Load(mem, at)) == 1)
            && (w.Mapped? ==> w.attr == indx % 8 && w.trail[|w.trail| - 1] == at)
  {
    var l0 := EntryAddr(TableAddr(ttbr), va, 0);
    var at := L1Addr(mem, ttbr, va);
    var w := Translate(mem, ttbr, va);
    assert w == WalkFrom(mem, TableAddr(Load(mem, l0)), va, 1, [l0]);
    assert w.trail == [l0] + [at];
    PatchKeepsTranslations(mem, ttbr, va, indx, va);
  }

  /** A level-0 table at 0 whose entry 4 points to a level-1 table at 0x1000 with entry 0 as given. */
  function TablesWith(d: word): Memory {
    map[32 := 0x1003, 0x1000 := d]
  }

  lemma SampleReads(d: word)
    ensures EntryAddr(TableAddr(0), XAIE_BASE_ADDR, 0) == 32 && L1Addr(TablesWith(d), 0, XAIE_BASE_ADDR) == 0x1000
  {
    assert Index(XAIE_BASE_ADDR, 0) == 4 && Index(XAIE_BASE_ADDR, 1) == 0;
    assert TableAddr(0) == 0 && TableAddr(0x1003) == 0x1000;
  }

  /** The low bits of the level-1 descriptor decide. */
  lemma SampleCodes(d: word)
    ensures PatchCode(TablesWith(d), 0, XAIE_BASE_ADDR) ==
            if d % 4 == 0 then -3 else if d % 4 == 3 then -2 else 0
  {
    SampleReads(d);
  }

  /** Tables that were never written map nothing, and the patch leaves them alone. */
  lemma NothingMapped(ttbr: word, va: word, indx: nat)
    ensures Translate(map[], ttbr, va).Fault? && PatchCode(map[], ttbr, va) == -1
    ensures Patched(map[], ttbr, va, indx) == map[]
  {
  }

  /** The patch can report success for an aperture that faults. */
  lemma InvalidDescriptorPatched(indx: nat)
    ensures PatchCode(TablesWith(2), 0, XAIE_BASE_ADDR) == 0
    ensures Translate(Patched(TablesWith(2), 0, XAIE_BASE_ADDR, indx), 0, XAIE_BASE_ADDR).Fault?
  {
    SampleReads(2);
    SampleCodes(2);
    SuccessMapsExactly(TablesWith(2), 0, XAIE_BASE_ADDR, indx);
  }
}
