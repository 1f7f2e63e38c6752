/** The alignment bit trick of both gralloc modules, and what it computes
    (gralloc/alloc_device.h, gralloc960/gralloc_helper.h). */
module Align {

  function Pow2(k: nat): (p: nat)
    ensures p >= 1
  {
    if k == 0 then 1 else 2 * Pow2(k - 1)
  }

  /** Bitwise and. */
  function And(x: nat, y: nat): nat {
    if x == 0 || y == 0 then 0
    else (if x % 2 == 1 && y % 2 == 1 then 1 else 0) + 2 * And(x / 2, y / 2)
  }

  /** Bitwise complement of a w-bit word. */
  function Not(x: nat, w: nat): nat
    requires x < Pow2(w)
  {
    Pow2(w) - 1 - x
  }

  /** GRALLOC_ALIGN and round_up_to_page_size on w-bit words: (value + (base - 1)) & ~(base - 1). */
  function GrallocAlign(value: nat, base: nat, w: nat): nat
    requires 0 < base <= Pow2(w)
  {
    And((value + (base - 1)) % Pow2(w), Not(base - 1, w))
  }

  /** The least multiple of base that is not below value: see LeastMultiple. */
  function AlignUp(value: nat, base: nat): (r: nat)
    requires base > 0
    ensures value <= r < value + base
  {
    if value == 0 then 0 else if value <= base then base else base + AlignUp(value - base, base)
  }

  lemma DivMul(q: int, base: int, r: int)
    requires base > 0 && 0 <= r < base
    ensures (q * base + r) / base == q && (q * base + r) % base == r
  {
    var x := q * base + r;
    var d := x / base - q;
    assert x == base * (x / base) + x % base;
    assert base * d == r - x % base by {
      assert base * d == base * (x / base) - base * q;
    }
  }

  lemma {:induction false} MulSign(base: int, d: int)
    requires base > 0
    ensures d >= 1 ==> base * d >= base
    ensures d <= 0 ==> base * d <= 0
    decreases if d >= 0 then d else -d
  {
    if d >= 1 {
      MulSign(base, d - 1);
      if d >= 2 {
        assert base * d == base * (d - 1) + base;
      }
    } else if d < 0 {
      MulSign(base, d + 1);
      assert base * d == base * (d + 1) - base;
    }
  }

  lemma MultiplesApart(a: int, b: int, base: int)
    requires base > 0 && base * a < base * b
    ensures base * a + base <= base * b
  {
    assert base * b - base * a == base * (b - a);
    MulSign(base, b - a);
  }

  lemma MultipleOf(q: int, base: int)
    requires base > 0
    ensures base * q % base == 0
  {
    DivMul(q, base, 0);
    assert q * base + 0 == base * q;
  }

  lemma {:induction false} AlignUpQuotient(value: nat, base: nat) returns (q: nat)
    requires base > 0
    ensures AlignUp(value, base) == base * q
  {
    if value == 0 {
      q := 0;
    } else if value <= base {
      q := 1;
    } else {
      q := AlignUpQuotient(value - base, base);
      MulDistributes(base, q, 1);
      q := q + 1;
    }
  }

  lemma AlignUpIsMultiple(value: nat, base: nat)
    requires base > 0
    ensures AlignUp(value, base) % base == 0
  {
    var q := AlignUpQuotient(value, base);
    MultipleOf(q, base);
  }

  /** r is a multiple of base, and the least one that is not below v. */
  predicate LeastMultipleOf(r: int, base: int, v: int)
    requires base > 0
  {
    r % base == 0 && v <= r < v + base
  }

  lemma AlignUpIsLeast(v: nat, base: nat)
    requires base > 0
    ensures LeastMultipleOf(AlignUp(v, base), base, v)
  {
    AlignUpIsMultiple(v, base);
  }

  lemma LeastMultiple(value: nat, base: nat)
    requires base > 0
    ensures var r := AlignUp(value, base);
            && value <= r < value + base
            && r % base == 0
            && forall m: nat :: m % base == 0 && value <= m ==> r <= m
  {
    var r := AlignUp(value, base);
    AlignUpIsMultiple(value, base);
    forall m: nat | m % base == 0 && value <= m
      ensures r <= m
    {
      assert m == base * (m / base) && r == base * (r / base);
      if m < r {
        MultiplesApart(m / base, r / base, base);
      }
    }
  }

  /** A value that is a multiple already stays. */
  lemma AlignedStays(value: nat, base: nat)
    requires base > 0 && value % base == 0
    ensures AlignUp(value, base) == value
  {
    LeastMultiple(value, base);
  }

  lemma MulDistributes(a: int, b: int, c: int)
    ensures a * (b + c) == a * b + a * c
  {
  }

  lemma {:induction false} AndAllOnes(x: nat, w: nat)
    requires x < Pow2(w)
    ensures And(x, Pow2(w) - 1) == x
  {
    if w == 0 || x == 0 {
    } else {
      assert (Pow2(w) - 1) % 2 == 1 && (Pow2(w) - 1) / 2 == Pow2(w - 1) - 1;
      AndAllOnes(x / 2, w - 1);
    }
  }

  lemma HalfMod(x: int, m: nat)
    requires m > 0
    ensures x % (2 * m) == 2 * (x / 2 % m) + x % 2
  {
    var q, r := x / 2 / m, x / 2 % m;
    assert x / 2 == m * q + r;
    assert x == q * (2 * m) + (2 * r + x % 2) by {
      assert 2 * (m * q) == q * (2 * m);
    }
    DivMul(q, 2 * m, 2 * r + x % 2);
  }

  lemma AndEven(x: nat, y: nat)
    ensures And(x, 2 * y) == 2 * And(x / 2, y)
  {
    assert 2 * y % 2 == 0 && 2 * y / 2 == y;
  }

  lemma OneBitMore(x: nat, y: nat, base: nat)
    requires base > 0 && And(x / 2, y) == x / 2 - x / 2 % base
    ensures And(x, 2 * y) == x - x % (2 * base)
  {
    HalfMod(x, base);
    AndEven(x, y);
  }

  /** Masking with ~(2^k - 1) clears the low k bits. */
  lemma {:induction false} AndClearsLowBits(x: nat, k: nat, w: nat)
    requires k <= w && x < Pow2(w)
    ensures Pow2(k) <= Pow2(w) && And(x, Pow2(w) - Pow2(k)) == x - x % Pow2(k)
  {
    if k == 0 {
      AndAllOnes(x, w);
    } else {
      AndClearsLowBits(x / 2, k - 1, w - 1);
      OneBitMore(x, Pow2(w - 1) - Pow2(k - 1), Pow2(k - 1));
    }
  }

  lemma SmallMod(x: nat, m: nat)
    requires x < m
    ensures x % m == x
  {
  }

  lemma AlignUpIsMasking(value: nat, base: nat, s: nat)
    requires base > 0 && s == value + (base - 1)
    ensures AlignUp(value, base) == s - s % base
  {
    var r, m := AlignUp(value, base), s - s % base;
    LeastMultiple(value, base);
    assert m == base * (s / base);
    MultipleOf(s / base, base);
    assert value <= m < value + base && r <= m;
    assert r == base * (r / base);
    if r < m {
      MultiplesApart(r / base, s / base, base);
    }
  }

  lemma TrickIsMasking(value: nat, base: nat, all: nat, w: nat, s: nat)
    requires all == Pow2(w) && 0 < base <= all && s == value + (base - 1) < all
    ensures GrallocAlign(value, base, w) == And(s, all - base)
  {
    SmallMod(s, all);
  }

  /** For every power of two, the trick rounds up to the least multiple, as long as the sum fits
      the word. */
  lemma TrickIsAlignUp(value: nat, k: nat, w: nat)
    requires k <= w && value + (Pow2(k) - 1) < Pow2(w)
    ensures Pow2(k) <= Pow2(w) && GrallocAlign(value, Pow2(k), w) == AlignUp(value, Pow2(k))
  {
    var b, all := Pow2(k), Pow2(w);
    var s := value + (b - 1);
    AndClearsLowBits(s, k, w);
    TrickIsMasking(value, b, all, w, s);
    AlignUpIsMasking(value, b, s);
  }

  lemma WrappedSum(s: nat, all: nat)
    requires all <= s < 2 * all
    ensures s % all == s - all
  {
    DivMul(1, all, s - all);
  }

  lemma TrickWraps(value: nat, k: nat, w: nat)
    requires k <= w && value < Pow2(w) <= value + (Pow2(k) - 1)
    ensures Pow2(k) <= Pow2(w) && GrallocAlign(value, Pow2(k), w) < value
  {
    var b, all := Pow2(k), Pow2(w);
    var x := value + (b - 1) - all;
    AndClearsLowBits(0, k, w);
    WrappedSum(value + (b - 1), all);
    AndClearsLowBits(x, k, w);
    assert x % b >= 0;
  }

  /** It rounds up exactly then; a sum that wraps gives something below the value. */
  lemma TrickRoundsUpExactly(value: nat, k: nat, w: nat)
    requires k <= w && value < Pow2(w)
    ensures Pow2(k) <= Pow2(w)
    ensures GrallocAlign(value, Pow2(k), w) >= value <==> value + (Pow2(k) - 1) < Pow2(w)
  {
    if value + (Pow2(k) - 1) < Pow2(w) {
      TrickIsAlignUp(value, k, w);
    } else {
      TrickWraps(value, k, w);
    }
  }

  /** The bases that the two modules use. */
  predicate UsedBase(base: nat) {
    base in {2, 16, 32, 64, 128, 256, 1024, 4096}
  }

  lemma UsedBasesArePowers(base: nat) returns (k: nat)
    requires UsedBase(base)
    ensures k <= 12 && Pow2(k) == base
  {
    k := if base == 2 then 1 else if base == 16 then 4 else if base == 32 then 5 else if base == 64 then 6
         else if base == 128 then 7 else if base == 256 then 8 else if base == 1024 then 10 else 12;
    assert Pow2(4) == 16;
    assert Pow2(8) == 16 * Pow2(4);
    assert Pow2(12) == 16 * Pow2(8);
  }

  lemma {:induction false} Pow2Grows(k: nat, w: nat)
    requires k <= w
    ensures Pow2(k) <= Pow2(w)
    decreases w
  {
    if k == w {
    } else {
      Pow2Grows(k, w - 1);
    }
  }

  /** So wherever the code aligns to one of them, in 32 or 64 bits, AlignUp is what it computes. */
  lemma UsedTrick(value: nat, base: nat, w: nat)
    requires UsedBase(base) && 12 <= w && value + (base - 1) < Pow2(w)
    ensures base <= Pow2(w) && GrallocAlign(value, base, w) == AlignUp(value, base)
  {
    var k := UsedBasesArePowers(base);
    Pow2Grows(k, w);
    TrickIsAlignUp(value, k, w);
  }
}
