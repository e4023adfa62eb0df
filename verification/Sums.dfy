/** Finite sums over an index, and the exchanges needed to reorder a loop nest. */
module Sums {
  import opened Arith

  ghost function Sum(n: nat, f: int -> int): int {
    if n == 0 then 0 else Sum(n - 1, f) + f(n - 1)
  }

  lemma SumStep(n: nat, f: int -> int)
    requires n > 0
    ensures Sum(n, f) == Sum(n - 1, f) + f(n - 1)
  {
  }

  lemma {:induction false} SumEqual(n: nat, f: int -> int, g: int -> int)
    requires forall i :: 0 <= i < n ==> f(i) == g(i)
    ensures Sum(n, f) == Sum(n, g)
  {
    if n > 0 {
      SumEqual(n - 1, f, g);
    }
  }

  lemma {:induction false} SumPlus(n: nat, h: int -> int, f: int -> int, g: int -> int)
    requires forall i :: 0 <= i < n ==> h(i) == f(i) + g(i)
    ensures Sum(n, h) == Sum(n, f) + Sum(n, g)
  {
    if n > 0 {
      SumPlus(n - 1, h, f, g);
    }
  }

  lemma {:induction false} SumZero(n: nat, f: int -> int)
    requires forall i :: 0 <= i < n ==> f(i) == 0
    ensures Sum(n, f) == 0
  {
    if n > 0 {
      SumZero(n - 1, f);
    }
  }

  // Blocks -------------------------------------------------------------------

  ghost function From(f: int -> int, base: int): int -> int {
    r => f(base + r)
  }

  lemma {:induction false} SumAppend(n: nat, m: nat, f: int -> int)
    ensures Sum(n + m, f) == Sum(n, f) + Sum(m, From(f, n))
  {
    if m > 0 {
      SumAppend(n, m - 1, f);
    }
  }

  ghost function Block(m: nat, f: int -> int, q: int): int {
    Sum(m, From(f, q * m))
  }

  ghost function Blocks(m: nat, f: int -> int): int -> int {
    q => Block(m, f, q)
  }

  /** A sum over `n * m` indices, block by block. */
  lemma {:induction false} SumBlocks(n: nat, m: nat, f: int -> int)
    ensures n * m >= 0 && Sum(n * m, f) == Sum(n, Blocks(m, f))
  {
    if n > 0 {
      SumBlocks(n - 1, m, f);
      NextMultiple(n - 1, m);
      SumAppend((n - 1) * m, m, f);
    }
  }

  // Two indices --------------------------------------------------------------

  ghost function Fix(f: (int, int) -> int, i: int): int -> int {
    j => f(i, j)
  }

  ghost function RowSum(m: nat, f: (int, int) -> int, i: int): int {
    Sum(m, Fix(f, i))
  }

  ghost function Rows(m: nat, f: (int, int) -> int): int -> int {
    i => RowSum(m, f, i)
  }

  ghost function Sum2(n: nat, m: nat, f: (int, int) -> int): int {
    Sum(n, Rows(m, f))
  }

  ghost function Swapped(f: (int, int) -> int): (int, int) -> int {
    (j, i) => f(i, j)
  }

  lemma Sum2Equal(n: nat, m: nat, f: (int, int) -> int, g: (int, int) -> int)
    requires forall i, j :: 0 <= i < n && 0 <= j < m ==> f(i, j) == g(i, j)
    ensures Sum2(n, m, f) == Sum2(n, m, g)
  {
    forall i | 0 <= i < n
      ensures RowSum(m, f, i) == RowSum(m, g, i)
    {
      SumEqual(m, Fix(f, i), Fix(g, i));
    }
    SumEqual(n, Rows(m, f), Rows(m, g));
  }

  /** Two nested sums may be exchanged. */
  lemma {:induction false} SumSwap(n: nat, m: nat, f: (int, int) -> int)
    ensures Sum2(n, m, f) == Sum2(m, n, Swapped(f))
  {
    if n == 0 {
      SumZero(m, Rows(n, Swapped(f)));
    } else {
      SumSwap(n - 1, m, f);
      SumPlus(m, Rows(n, Swapped(f)), Rows(n - 1, Swapped(f)), Fix(f, n - 1));
    }
  }

  // Three indices ------------------------------------------------------------

  ghost function Slice(f: (int, int, int) -> int, i: int): (int, int) -> int {
    (j, k) => f(i, j, k)
  }

  ghost function PlaneSum(m: nat, l: nat, f: (int, int, int) -> int, i: int): int {
    Sum2(m, l, Slice(f, i))
  }

  ghost function Planes(m: nat, l: nat, f: (int, int, int) -> int): int -> int {
    i => PlaneSum(m, l, f, i)
  }

  ghost function Sum3(n: nat, m: nat, l: nat, f: (int, int, int) -> int): int {
    Sum(n, Planes(m, l, f))
  }

  ghost function Rotated(f: (int, int, int) -> int): (int, int, int) -> int {
    (k, i, j) => f(i, j, k)
  }

  /** `f` summed over its middle index. */
  ghost function Middle(m: nat, f: (int, int, int) -> int): (int, int) -> int {
    (i, k) => RowSum(m, Slice(Rotated(f), k), i)
  }

  lemma PlaneIsMiddle(m: nat, l: nat, f: (int, int, int) -> int, i: int)
    ensures PlaneSum(m, l, f, i) == RowSum(l, Middle(m, f), i)
  {
    SumSwap(m, l, Slice(f, i));
    forall k
      ensures RowSum(m, Swapped(Slice(f, i)), k) == Middle(m, f)(i, k)
    {
      SumEqual(m, Fix(Swapped(Slice(f, i)), k), Fix(Slice(Rotated(f), k), i));
    }
    SumEqual(l, Rows(m, Swapped(Slice(f, i))), Fix(Middle(m, f), i));
  }

  /** The innermost of three indices may be moved outermost. */
  lemma SumRotate(n: nat, m: nat, l: nat, f: (int, int, int) -> int)
    ensures Sum3(n, m, l, f) == Sum3(l, n, m, Rotated(f))
  {
    forall i
      ensures PlaneSum(m, l, f, i) == RowSum(l, Middle(m, f), i)
    {
      PlaneIsMiddle(m, l, f, i);
    }
    SumEqual(n, Planes(m, l, f), Rows(l, Middle(m, f)));
    SumSwap(n, l, Middle(m, f));
    forall k
      ensures RowSum(n, Swapped(Middle(m, f)), k) == PlaneSum(n, m, Rotated(f), k)
    {
      SumEqual(n, Fix(Swapped(Middle(m, f)), k), Rows(m, Slice(Rotated(f), k)));
    }
    SumEqual(l, Rows(n, Swapped(Middle(m, f))), Planes(n, m, Rotated(f)));
  }

  /** The terms of block `q` of the first index, with the position in the block as the last one. */
  ghost function InBlock(m: nat, f: (int, int, int) -> int, q: int): (int, int, int) -> int {
    (i, j, r) => f(q * m + r, i, j)
  }

  ghost function BlockTotal(m: nat, a: nat, b: nat, f: (int, int, int) -> int, q: int): int {
    Sum3(a, b, m, InBlock(m, f, q))
  }

  ghost function BlockTotals(m: nat, a: nat, b: nat, f: (int, int, int) -> int): int -> int {
    q => BlockTotal(m, a, b, f, q)
  }

  lemma BlockRotates(m: nat, a: nat, b: nat, f: (int, int, int) -> int, q: int)
    ensures BlockTotal(m, a, b, f, q) == Block(m, Planes(a, b, f), q)
  {
    var g := InBlock(m, f, q);
    SumRotate(a, b, m, g);
    forall r
      ensures PlaneSum(a, b, Rotated(g), r) == PlaneSum(a, b, f, q * m + r)
    {
      Sum2Equal(a, b, Slice(Rotated(g), r), Slice(f, q * m + r));
    }
    SumEqual(m, Planes(a, b, Rotated(g)), From(Planes(a, b, f), q * m));
  }

  /** Block by block with the position in the block innermost, or the whole range outermost: the same sum. */
  lemma SumBlocked(n: nat, m: nat, a: nat, b: nat, f: (int, int, int) -> int)
    ensures n * m >= 0 && Sum(n, BlockTotals(m, a, b, f)) == Sum3(n * m, a, b, f)
  {
    forall q
      ensures BlockTotal(m, a, b, f, q) == Block(m, Planes(a, b, f), q)
    {
      BlockRotates(m, a, b, f, q);
    }
    SumEqual(n, BlockTotals(m, a, b, f), Blocks(m, Planes(a, b, f)));
    SumBlocks(n, m, Planes(a, b, f));
  }
}
