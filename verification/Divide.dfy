/**
 * The divide step of the DSP56001 on integers, and what 24 of them compute (src/dsp_cpu.c:1920-1965).
 */
module Divide {
  import opened Accumulator
  import opened Division

  /** One DIV: shift, add or subtract the divisor s * 2^24, and take the carry in as a quotient bit. */
  function DivStep(a: int, carry: bool, s: int): int {
    Wrap56(if (a < 0) != (s < 0) then Wrap56(2 * a) + s * 0x100_0000 else Wrap56(2 * a) - s * 0x100_0000)
    + (if carry then 1 else 0)
  }

  /** The accumulator after k divide steps; each step leaves C set iff its result is not negative. */
  function DivRun(a: int, carry: bool, s: int, k: nat): int {
    if k == 0 then a
    else
      var before := DivRun(a, carry, s, k - 1);
      DivStep(before, if k == 1 then carry else before >= 0, s)
  }

  function Abs(x: int): int {
    if x < 0 then -x else x
  }

  /** The quotient bits collected by the first k steps: the initial carry, then one bit per step. */
  function Bits(a: int, carry: bool, s: int, k: nat): (q: nat)
    ensures q < Power2(k)
  {
    if k == 0 then 0
    else
      var before := DivRun(a, carry, s, k - 1);
      2 * Bits(a, carry, s, k - 1) + (if (if k == 1 then carry else before >= 0) then 1 else 0)
  }

  /** The partial remainder after k steps: the accumulator without the quotient bits in its low end. */
  function Partial(a: int, s: int, k: nat): int {
    if k == 0 then a
    else
      var p := Partial(a, s, k - 1);
      if p < 0 then 2 * p + Abs(s) * 0x100_0000 else 2 * p - Abs(s) * 0x100_0000
  }

  lemma {:induction false} PartialRange(a: int, s: int, k: nat)
    requires -Abs(s) * 0x100_0000 <= a < Abs(s) * 0x100_0000
    ensures -Abs(s) * 0x100_0000 <= Partial(a, s, k) < Abs(s) * 0x100_0000
  {
    if k > 0 { PartialRange(a, s, k - 1); }
  }

  /** The partial remainder keeps its low k bits clear, so the quotient bits never touch it. */
  lemma {:induction false} PartialDivisible(a: int, s: int, k: nat) returns (m: int)
    requires k <= 24
    ensures Partial(a, s, k) == m * Power2(k)
  {
    if k == 0 {
      m := a;
    } else {
      var h := PartialDivisible(a, s, k - 1);
      var f := PowerDivides(k);
      m := StepDivisible(h, Power2(k - 1), Abs(s), f, Partial(a, s, k - 1) < 0);
    }
  }

  lemma StepDivisible(h: int, p: int, n: int, f: int, negative: bool) returns (m: int)
    requires f * (2 * p) == 0x100_0000
    ensures m * (2 * p) == 2 * (h * p) + (if negative then n * 0x100_0000 else -n * 0x100_0000)
  {
    m := if negative then h + n * f else h - n * f;
    assert n * f * (2 * p) == n * (f * (2 * p));
    assert h * (2 * p) == 2 * (h * p);
    assert (h + n * f) * (2 * p) == h * (2 * p) + n * f * (2 * p);
    assert (h - n * f) * (2 * p) == h * (2 * p) - n * f * (2 * p);
  }

  /** 2^24 is a multiple of every smaller power of two. */
  lemma {:induction false} PowerDivides(k: nat) returns (f: int)
    requires k <= 24
    ensures f * Power2(k) == 0x100_0000
    decreases 24 - k
  {
    if k == 24 {
      Power24();
      f := 1;
    } else {
      var g := PowerDivides(k + 1);
      f := 2 * g;
    }
  }

  lemma Power24()
    ensures Power2(23) == 0x80_0000 && Power2(24) == 0x100_0000
  {
    assert Power2(8) == 0x100;
    assert Power2(16) == 0x1_0000;
  }

  /** The step invariant: the accumulator is the partial remainder with the bits so far below it. */
  lemma {:induction false} DivInvariant(a: int, carry: bool, s: int, k: nat)
    requires k <= 24 && 0 < Abs(s) <= 0x80_0000
    requires -Abs(s) * 0x100_0000 <= a < Abs(s) * 0x100_0000
    ensures DivRun(a, carry, s, k) == Partial(a, s, k) + Bits(a, carry, s, k)
    ensures DivRun(a, carry, s, k) < 0 <==> Partial(a, s, k) < 0
  {
    PartialGap(a, s, k);
    if k > 0 {
      DivInvariant(a, carry, s, k - 1);
      PartialRange(a, s, k - 1);
      PowerBound(k - 1);
      var before := DivRun(a, carry, s, k - 1);
      StepAddsBit(Partial(a, s, k - 1), Bits(a, carry, s, k - 1), if k == 1 then carry else before >= 0, s);
    }
  }

  /** One step on a partial remainder p with the bits q below it. */
  lemma StepAddsBit(p: int, q: int, carry: bool, s: int)
    requires 0 < Abs(s) <= 0x80_0000 && -Abs(s) * 0x100_0000 <= p < Abs(s) * 0x100_0000
    requires 0 <= q < 0x100_0000 && (p + q < 0 <==> p < 0)
    ensures DivStep(p + q, carry, s)
            == (if p < 0 then 2 * p + Abs(s) * 0x100_0000 else 2 * p - Abs(s) * 0x100_0000)
               + 2 * q + (if carry then 1 else 0)
  {
    StepFits(p + q, s);
  }

  /** A negative partial remainder leaves room for the quotient bits. */
  lemma PartialGap(a: int, s: int, k: nat)
    requires k <= 24
    ensures Partial(a, s, k) < 0 ==> Partial(a, s, k) + Power2(k) <= 0
  {
    var m := PartialDivisible(a, s, k);
    SignOfMultiple(m, Power2(k));
  }

  lemma SignOfMultiple(m: int, p: int)
    requires 0 < p
    ensures m < 0 ==> m * p <= -p
    ensures m >= 0 ==> m * p >= 0
  {
  }

  lemma {:induction false} PowerBound(k: nat)
    requires k <= 24
    ensures Power2(k) <= 0x100_0000
  {
    var f := PowerDivides(k);
    assert f >= 1 by { assert f <= 0 ==> f * Power2(k) <= 0; }
    assert f * Power2(k) >= Power2(k);
  }

  lemma StepFits(a: int, s: int)
    requires -0x8000_0000_0000 <= a < 0x8000_0100_0000 && 0 < Abs(s) <= 0x80_0000
    ensures DivStep(a, false, s) == if (a < 0) != (s < 0) then 2 * a + s * 0x100_0000 else 2 * a - s * 0x100_0000
  {
    WrapsTo(2 * a, 2 * a, 0);
    var r := if (a < 0) != (s < 0) then 2 * a + s * 0x100_0000 else 2 * a - s * 0x100_0000;
    WrapsTo(r, r, 0);
  }

  /** The quotient that the bits of k steps stand for, once the two sign bits are taken out. */
  function QuotientOf(a: int, carry: bool, s: int, k: nat): int
    requires k >= 1
  {
    Bits(a, carry, s, k) - (if carry then Power2(k - 1) else 0) - (if a < 0 then Power2(k - 1) else 0)
  }

  lemma {:induction false} BitsMeaning(a: int, carry: bool, s: int, k: nat)
    requires 1 <= k <= 24 && 0 < Abs(s) <= 0x80_0000
    requires -Abs(s) * 0x100_0000 <= a < Abs(s) * 0x100_0000
    ensures Partial(a, s, k) == a * Power2(k) - Abs(s) * 0x100_0000 * (2 * QuotientOf(a, carry, s, k) + 1)
  {
    if k > 1 {
      DivInvariant(a, carry, s, k - 1);
      BitsMeaning(a, carry, s, k - 1);
      var bit := if Partial(a, s, k - 1) >= 0 then 1 else 0;
      assert QuotientOf(a, carry, s, k) == 2 * QuotientOf(a, carry, s, k - 1) + bit;
      DoubleQuotient(Abs(s) * 0x100_0000, QuotientOf(a, carry, s, k - 1), bit);
      DoublePower(a, k);
    } else {
      FirstStep(a, carry, s);
    }
  }

  lemma FirstStep(a: int, carry: bool, s: int)
    ensures Partial(a, s, 1) == a * Power2(1) - Abs(s) * 0x100_0000 * (2 * QuotientOf(a, carry, s, 1) + 1)
  {
    assert QuotientOf(a, carry, s, 1) == if a < 0 then -1 else 0;
  }

  lemma DoublePower(a: int, k: nat)
    requires k >= 1
    ensures a * Power2(k) == 2 * (a * Power2(k - 1))
  {
    var p := Power2(k - 1);
    assert a * (2 * p) == 2 * (a * p);
  }

  lemma DoubleQuotient(d: int, q: int, bit: int)
    requires bit in {0, 1}
    ensures d * (2 * (2 * q + bit) + 1) == 2 * (d * (2 * q + 1)) + (if bit == 1 then d else -d)
  {
    assert 2 * (2 * q + bit) + 1 == 2 * (2 * q + 1) + (2 * bit - 1);
    assert d * (2 * (2 * q + 1) + (2 * bit - 1)) == d * (2 * (2 * q + 1)) + d * (2 * bit - 1);
    assert d * (2 * (2 * q + 1)) == 2 * (d * (2 * q + 1));
  }

  /** The remainder that goes with a quotient, shifted as the accumulator holds it. */
  lemma RemainderOf(d: int, n: int, q: int)
    requires 0 < n
    requires -n * 0x100_0000 <= d * 0x100_0000 - n * 0x100_0000 * (2 * q + 1) < n * 0x100_0000
    ensures q == d / (2 * n)
    ensures d * 0x100_0000 - n * 0x100_0000 * (2 * q + 1) == (d % (2 * n) - n) * 0x100_0000
  {
    var rem := d - n * (2 * q + 1);
    assert n * 0x100_0000 * (2 * q + 1) == n * (2 * q + 1) * 0x100_0000;
    assert q * (2 * n) == n * (2 * q);
    assert n * (2 * q + 1) == n * (2 * q) + n;
    Quotient(d, 2 * n, q, rem + n);
  }

  /**
   * Twenty-four divide steps divide: for every non-zero divisor and every dividend that does not
   * overflow, the low limb is the quotient of the dividend by twice the size of the divisor (offset
   * by the sign of the dividend and the carry the run started with) and the two upper limbs are the
   * remainder less |s|. Starting with C as the sign of the dividend makes the quotient exact.
   */
  lemma {:induction false} DivideTheorem(d: int, carry: bool, s: int, r: seq<int>)
    requires 0 < Abs(s) <= 0x80_0000
    requires -Abs(s) * 0x100_0000 <= d < Abs(s) * 0x100_0000
    requires IsLimbs(r) && Signed(r) == DivRun(d, carry, s, 24)
    ensures r[2] - (if carry then 0x80_0000 else 0) - (if d < 0 then 0x80_0000 else 0) == d / (2 * Abs(s))
    ensures carry == (d < 0) ==> Signed24(r[2]) == d / (2 * Abs(s))
    ensures Signed([r[0], r[1], 0]) == (d % (2 * Abs(s)) - Abs(s)) * 0x100_0000
  {
    Power24();
    DivInvariant(d, carry, s, 24);
    BitsMeaning(d, carry, s, 24);
    PartialRange(d, s, 24);
    RemainderOf(d, Abs(s), QuotientOf(d, carry, s, 24));
    LimbsOf(r, d % (2 * Abs(s)) - Abs(s), Bits(d, carry, s, 24));
    QuotientRange(d, Abs(s), d / (2 * Abs(s)));
  }

  /** What a division is for: the quotient by twice the size of the divisor, and the remainder less that size. */
  predicate Divided(d: int, s: int, r: seq<int>)
    requires s != 0 && IsLimbs(r)
  {
    && Signed24(r[2]) == d / (2 * Abs(s))
    && Signed([r[0], r[1], 0]) == (d % (2 * Abs(s)) - Abs(s)) * 0x100_0000
  }

  /** With the sign of the dividend as carry, 24 steps divide exactly the dividends of that range. */
  lemma {:induction false} DivideIff(d: int, s: int, r: seq<int>)
    requires 0 < Abs(s) <= 0x80_0000 && IsLimbs(r) && Signed(r) == DivRun(d, d < 0, s, 24)
    ensures Divided(d, s, r) <==> -Abs(s) * 0x100_0000 <= d < Abs(s) * 0x100_0000
  {
    if -Abs(s) * 0x100_0000 <= d < Abs(s) * 0x100_0000 {
      DivideTheorem(d, d < 0, s, r);
    } else {
      if Divided(d, s, r) {
        QuotientOutside(d, Abs(s), d / (2 * Abs(s)));
      }
    }
  }

  /** Outside the range the quotient does not fit the low limb. */
  lemma QuotientOutside(d: int, n: int, q: int)
    requires 0 < n && q == d / (2 * n) && -0x80_0000 <= q < 0x80_0000
    ensures -n * 0x100_0000 <= d < n * 0x100_0000
  {
    MulOrder(q, 0x7f_ffff, 2 * n);
    MulOrder(q, -0x80_0000, 2 * n);
  }

  lemma LimbsOf(r: seq<int>, high: int, low: int)
    requires IsLimbs(r) && 0 <= low < 0x100_0000
    requires Signed(r) == high * 0x100_0000 + low
    ensures r[2] == low && Signed([r[0], r[1], 0]) == high * 0x100_0000
  {
    LowLimbs(r);
    Quotient(Signed(r), 0x100_0000, high, low);
  }

  lemma QuotientRange(d: int, n: int, q: int)
    requires 0 < n && -n * 0x100_0000 <= d < n * 0x100_0000
    requires q == d / (2 * n)
    ensures if d < 0 then -0x80_0000 <= q < 0 else 0 <= q < 0x80_0000
  {
    var g := 2 * n;
    MulOrder(q, 0x80_0000, g);
    MulOrder(q, -0x80_0001, g);
    MulOrder(q, 0, g);
    MulOrder(q, -1, g);
  }
}
