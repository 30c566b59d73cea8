/** Finite sums of integer-valued functions, with the few laws the counting proofs need. */
module Sums {
  import opened Numbers

  /** The sum of `f(i)` over `lo <= i < hi`. */
  ghost function Sum(f: int -> int, lo: int, hi: int): int
    decreases hi - lo
  {
    if lo >= hi then 0 else f(lo) + Sum(f, lo + 1, hi)
  }

  lemma {:induction false} SumSplit(f: int -> int, lo: int, mid: int, hi: int)
    requires lo <= mid <= hi
    ensures Sum(f, lo, hi) == Sum(f, lo, mid) + Sum(f, mid, hi)
    decreases mid - lo
  {
    if lo < mid {
      SumSplit(f, lo + 1, mid, hi);
    }
  }

  lemma {:induction false} SumLast(f: int -> int, lo: int, hi: int)
    requires lo <= hi
    ensures Sum(f, lo, hi + 1) == Sum(f, lo, hi) + f(hi)
  {
    SumSplit(f, lo, hi, hi + 1);
    assert Sum(f, hi, hi + 1) == f(hi) + Sum(f, hi + 1, hi + 1);
  }

  lemma {:induction false} SumEqual(f: int -> int, g: int -> int, lo: int, hi: int)
    requires forall i :: lo <= i < hi ==> f(i) == g(i)
    ensures Sum(f, lo, hi) == Sum(g, lo, hi)
    decreases hi - lo
  {
    if lo < hi {
      SumEqual(f, g, lo + 1, hi);
    }
  }

  lemma {:induction false} SumMonotone(f: int -> int, g: int -> int, lo: int, hi: int)
    requires forall i :: lo <= i < hi ==> f(i) <= g(i)
    ensures Sum(f, lo, hi) <= Sum(g, lo, hi)
    decreases hi - lo
  {
    if lo < hi {
      SumMonotone(f, g, lo + 1, hi);
    }
  }

  lemma {:induction false} SumNonNegative(f: int -> int, lo: int, hi: int)
    requires forall i :: lo <= i < hi ==> 0 <= f(i)
    ensures 0 <= Sum(f, lo, hi)
    decreases hi - lo
  {
    if lo < hi {
      SumNonNegative(f, lo + 1, hi);
    }
  }

  lemma {:induction false} SumAdd(f: int -> int, g: int -> int, h: int -> int, lo: int, hi: int)
    requires forall i :: lo <= i < hi ==> h(i) == f(i) + g(i)
    ensures Sum(h, lo, hi) == Sum(f, lo, hi) + Sum(g, lo, hi)
    decreases hi - lo
  {
    if lo < hi {
      SumAdd(f, g, h, lo + 1, hi);
    }
  }

  /** Summing backwards: the terms of `g` over a window are the terms of `f` in reverse. */
  lemma {:induction false} SumReverse(f: int -> int, g: int -> int, n: int, count: nat)
    requires forall v :: 0 <= v < count ==> f(v) == g(n - v)
    ensures Sum(f, 0, count) == Sum(g, n - count + 1, n + 1)
  {
    if count > 0 {
      SumReverse(f, g, n, count - 1);
      SumLast(f, 0, count - 1);
    }
  }

  ghost function Row(cell: (int, int) -> int, i: int): int -> int {
    j => cell(i, j)
  }

  ghost function Column(cell: (int, int) -> int, j: int): int -> int {
    i => cell(i, j)
  }

  /** Exchanging the order of a rectangular double sum. */
  lemma {:induction false} SumSwap(
      rows: int -> int, cols: int -> int, cell: (int, int) -> int, m: nat, k: nat)
    requires forall i :: 0 <= i < m ==> rows(i) == Sum(Row(cell, i), 0, k)
    requires forall j :: 0 <= j < k ==> cols(j) == Sum(Column(cell, j), 0, m)
    ensures Sum(rows, 0, m) == Sum(cols, 0, k)
  {
    if m == 0 {
      SumZero(cols, 0, k);
    } else {
      var less := (j: int) => Sum(Column(cell, j), 0, m - 1);
      SumSwap(rows, less, cell, m - 1, k);
      SumLast(rows, 0, m - 1);
      forall j | 0 <= j < k ensures cols(j) == less(j) + Row(cell, m - 1)(j) {
        SumLast(Column(cell, j), 0, m - 1);
      }
      SumAdd(less, Row(cell, m - 1), cols, 0, k);
    }
  }

  lemma {:induction false} SumZero(f: int -> int, lo: int, hi: int)
    requires forall i :: lo <= i < hi ==> f(i) == 0
    ensures Sum(f, lo, hi) == 0
    decreases hi - lo
  {
    if lo < hi {
      SumZero(f, lo + 1, hi);
    }
  }

  /** Capping every term of a sum of nonnegative terms does not change the capped sum. */
  lemma {:induction false} CappedSum(f: int -> int, g: int -> int, cap: nat, lo: int, hi: int)
    requires forall i :: lo <= i < hi ==> 0 <= g(i) && f(i) == Min(cap, g(i))
    ensures Min(cap, Sum(f, lo, hi)) == Min(cap, Sum(g, lo, hi))
    ensures 0 <= Sum(f, lo, hi) && 0 <= Sum(g, lo, hi)
    decreases hi - lo
  {
    if lo < hi {
      CappedSum(f, g, cap, lo + 1, hi);
    }
  }
}
