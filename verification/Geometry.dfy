/** Sizes of planes as sums over their rows, so that proofs about them need no products. */
module Geometry {
  import opened Align

  /** The bytes of n rows of the given stride: their product, see RowsIsProduct. */
  function Rows(n: nat, stride: nat): nat {
    if n == 0 then 0 else Rows(n - 1, stride) + stride
  }

  /** Rows and columns of a subsampled plane. */
  function Half(n: nat): nat {
    (n + 1) / 2
  }

  lemma {:induction false} RowsIsProduct(n: nat, stride: nat)
    ensures Rows(n, stride) == n * stride
  {
    if n == 0 {
    } else {
      RowsIsProduct(n - 1, stride);
    }
  }

  lemma {:induction false} RowsAdd(a: nat, b: nat, stride: nat)
    ensures Rows(a + b, stride) == Rows(a, stride) + Rows(b, stride)
  {
    if b == 0 {
    } else {
      RowsAdd(a, b - 1, stride);
      assert a + b - 1 == a + (b - 1);
    }
  }

  lemma {:induction false} RowsWiden(n: nat, s: nat, t: nat)
    ensures Rows(n, s + t) == Rows(n, s) + Rows(n, t)
  {
    if n == 0 {
    } else {
      RowsWiden(n - 1, s, t);
    }
  }

  lemma RowsMono(a: nat, b: nat, s: nat, t: nat)
    requires a <= b && s <= t
    ensures Rows(a, s) <= Rows(b, t)
  {
    RowsAdd(a, b - a, t);
    RowsWiden(a, s, t - s);
  }

  /** Half of an even number of rows, and of an odd one. */
  lemma HalfRows(n: nat, stride: nat)
    ensures Rows(n, stride) / 2 == Rows(n / 2, stride) + if n % 2 == 0 then 0 else stride / 2
    ensures Half(n) == n / 2 + n % 2
  {
    RowsAdd(n / 2, n / 2, stride);
    RowsAdd(n / 2 + n / 2, n % 2, stride);
    assert n / 2 + n / 2 + n % 2 == n;
    assert Rows(1, stride) == Rows(0, stride) + stride;
  }

  /** Twice the rows at half the stride. */
  lemma RowsDouble(n: nat, stride: nat)
    ensures Rows(n, 2 * stride) == Rows(2 * n, stride)
  {
    RowsWiden(n, stride, stride);
    RowsAdd(n, n, stride);
  }

  lemma SumOfMultiples(a: nat, b: nat, m: nat)
    requires m > 0 && a % m == 0 && b % m == 0
    ensures (a + b) % m == 0
  {
    MulDistributes(m, a / m, b / m);
    MultipleOf(a / m + b / m, m);
  }

  lemma {:induction false} RowsOfMultiples(n: nat, stride: nat, m: nat)
    requires m > 0 && stride % m == 0
    ensures Rows(n, stride) % m == 0
  {
    if n == 0 {
    } else {
      RowsOfMultiples(n - 1, stride, m);
      SumOfMultiples(Rows(n - 1, stride), stride, m);
    }
  }

  /** Rows in groups of k: k rows together are one row of k times the stride. */
  lemma {:induction false} RowsGrouped(n: nat, k: nat, stride: nat)
    ensures Rows(k * n, stride) == Rows(n, Rows(k, stride))
  {
    if n > 0 {
      MulDistributes(k, n - 1, 1);
      RowsGrouped(n - 1, k, stride);
      RowsAdd(k * (n - 1), k, stride);
    } else {
      assert k * n == 0;
    }
  }

  lemma HalfFits(w: nat, half: nat)
    requires w <= 2 * half
    ensures Half(w) <= half
  {
  }

  /** A stride aligned to 16 holds a pair of bytes for every two columns. */
  lemma NarrowStride(w: nat, s: nat)
    requires s == AlignUp(w, 16)
    ensures s % 16 == 0 && s == 2 * (s / 2) && 2 * Half(w) <= s
  {
    var q := AlignUpQuotient(w, 16);
    MultipleOf(q, 16);
    HalfFits(w, 8 * q);
  }

  /** Heights are made even by one row at most. */
  lemma EvenRows(h: nat)
    ensures AlignUp(h, 2) == 2 * Half(h)
  {
    var q := AlignUpQuotient(h, 2);
  }
}
