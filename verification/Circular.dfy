/** Modulo address arithmetic: when an update keeps an address in its circular buffer (src/dsp_cpu.c:1410-1450). */
module Circular {
  import opened Division

  /** Conversion to a signed 16-bit number. */
  function Sint16(x: int): (r: int)
    ensures -0x8000 <= r < 0x8000
  {
    (x + 0x8000) % 0x1_0000 - 0x8000
  }

  lemma Sint16Is(x: int, y: int, k: int)
    requires -0x8000 <= y < 0x8000 && x == y + k * 0x1_0000
    ensures Sint16(x) == y
  {
  }

  /** The size of the memory block that holds a buffer: doubling p until the buffer fits. */
  function Grow(p: nat, modulo: nat): (size: nat)
    requires 1 <= p
    ensures modulo <= size && (size == p || size < 2 * modulo)
    decreases modulo - p
  {
    if p >= modulo then p else Grow(2 * p, modulo)
  }

  function BufSize(modulo: nat): (size: nat)
    ensures modulo <= size
  {
    Grow(1, modulo)
  }

  lemma {:induction false} GrowIsLeast(j: nat, modulo: nat, k: nat)
    requires modulo <= Power2(k) && (j == 0 || Power2(j - 1) < modulo)
    ensures exists i: nat :: j <= i <= k && Grow(Power2(j), modulo) == Power2(i)
    decreases modulo - Power2(j)
  {
    if k < j { PowerOrder(k, j - 1); assert false; }
    if Power2(j) < modulo {
      GrowIsLeast(j + 1, modulo, k);
    }
  }

  /** The size loop finds the least power of two that is not below the modulus. */
  lemma BufSizeIsLeastPower(modulo: nat, k: nat)
    requires modulo <= Power2(k)
    ensures exists i: nat :: i <= k && BufSize(modulo) == Power2(i)
  {
    GrowIsLeast(0, modulo, k);
  }

  /** The sum of address and modifier brought back between the bounds of a buffer at lobound. */
  function Wrapped(r: int, lobound: int, modulo: int, n: int): (next: int)
    ensures 0 <= next < 0x1_0000
  {
    var hibound := lobound + modulo - 1;
    var t := Sint16(Sint16(r) + n);
    if n == modulo then t % 0x1_0000
    else if t > hibound then Sint16(t - modulo) % 0x1_0000
    else if t < lobound then Sint16(t + modulo) % 0x1_0000
    else t % 0x1_0000
  }

  /** dsp_update_rn_modulo as a function of the three registers. */
  function ModuloUpdate(r: int, m: int, n: int): (next: int)
    requires 0 <= m
    ensures 0 <= next < 0x1_0000
  {
    Wrapped(r, r - r % BufSize(m + 1), m + 1, n)
  }

  /** One update of the word at offset off by n moves it around the ring. */
  predicate MovesAround(base: int, m: int, off: int, n: int)
    requires 0 <= m
  {
    ModuloUpdate(base + off, m, n) == base + (off + n) % (m + 1)
  }

  /** Every update by at most m moves around the buffer of m + 1 words at base. */
  ghost predicate IsCircular(base: int, m: int)
    requires 0 <= m
  {
    forall off, n | 0 <= off <= m && -m <= n <= m :: MovesAround(base, m, off, n)
  }

  /** A buffer starts at a multiple of its block size. */
  predicate IsBuffer(base: int, m: int) {
    1 <= m <= 0x7fff && 0 <= base < 0x1_0000 && base % BufSize(m + 1) == 0
  }

  /** The buffers whose arithmetic stays within signed 16 bits, and the one that fills half the space. */
  predicate InLowHalf(base: int, m: int) {
    base + 2 * (m + 1) <= 0x8000 || (m == 0x7fff && base == 0)
  }

  /** The mask finds the base of the buffer from every word of it. */
  lemma LowBound(base: int, m: int, off: int, n: int)
    requires IsBuffer(base, m) && 0 <= off <= m
    ensures ModuloUpdate(base + off, m, n) == Wrapped(base + off, base, m + 1, n)
  {
    var p := BufSize(m + 1);
    Quotient(base + off, p, base / p, off);
  }

  /**
   * Larger modifiers do not go around the ring: the sum is brought back by one length of the buffer at
   * most, and not at all for the length itself.
   */
  lemma FarUpdate(base: int, m: int, off: int, n: int)
    requires IsBuffer(base, m) && 0 <= off <= m && base + off < 0x8000
    requires (m < n && base + off + n < 0x8000) || (n < -m && -0x8000 <= base + off + n)
    ensures ModuloUpdate(base + off, m, n)
            == if n == m + 1 then base + off + n
               else if n > m then base + off + n - (m + 1)
               else (base + off + n + (m + 1)) % 0x1_0000
  {
    LowBound(base, m, off, n);
    WrappedFar(base + off, base, m + 1, n);
  }

  lemma WrappedFar(r: int, lobound: int, modulo: int, n: int)
    requires 0 <= lobound <= r < lobound + modulo && r < 0x8000 && 1 <= modulo <= 0x8000
    requires (modulo <= n && r + n < 0x8000) || (n <= -modulo && -0x8000 <= r + n)
    ensures Wrapped(r, lobound, modulo, n)
            == if n == modulo then r + n else if n > 0 then r + n - modulo else (r + n + modulo) % 0x1_0000
  {
    Sint16Is(r, r, 0);
    Sint16Is(r + n, r + n, 0);
    if n > modulo {
      Sint16Is(r + n - modulo, r + n - modulo, 0);
    } else if n < 0 {
      Sint16Is(r + n + modulo, r + n + modulo, 0);
    }
  }

  lemma WrapOffset(off: int, n: int, m: int)
    requires 0 <= off <= m && -m <= n <= m
    ensures (off + n) % (m + 1)
            == if off + n > m then off + n - (m + 1) else if off + n < 0 then off + n + (m + 1) else off + n
  {
    var q := if off + n > m then 1 else if off + n < 0 then -1 else 0;
    Quotient(off + n, m + 1, q, off + n - q * (m + 1));
  }

  /** A sum that stays within signed 16 bits comes back between the bounds. */
  lemma WrapsBackLow(r: int, lobound: int, modulo: int, n: int)
    requires 0 <= lobound <= r < lobound + modulo && lobound + 2 * modulo <= 0x8000 && -modulo < n < modulo
    ensures Wrapped(r, lobound, modulo, n)
            == if r + n >= lobound + modulo then r + n - modulo else if r + n < lobound then r + n + modulo else r + n
  {
    var t := if r + n >= lobound + modulo then r + n - modulo else if r + n < lobound then r + n + modulo else r + n;
    Sint16Is(r, r, 0);
    Sint16Is(r + n, r + n, 0);
    Sint16Is(t, t, 0);
  }

  /** The buffer of half the space: sums beyond it turn negative and are brought back just the same. */
  lemma WrapsBackHalf(r: int, n: int)
    requires 0 <= r < 0x8000 && -0x8000 < n < 0x8000
    ensures Wrapped(r, 0, 0x8000, n)
            == if r + n >= 0x8000 then r + n - 0x8000 else if r + n < 0 then r + n + 0x8000 else r + n
  {
    Sint16Is(r, r, 0);
    if r + n >= 0x8000 {
      Sint16Is(r + n, r + n - 0x1_0000, 1);
      Sint16Is(r + n - 0x8000, r + n - 0x8000, 0);
    } else {
      Sint16Is(r + n, r + n, 0);
      Sint16Is(r + n + 0x8000, if r + n < 0 then r + n + 0x8000 else r + n - 0x8000, if r + n < 0 then 0 else 1);
    }
  }

  /** Inside the low half the sum comes back between the bounds as it should. */
  lemma WrapsBack(base: int, m: int, off: int, n: int)
    requires 0 <= base && 1 <= m <= 0x7fff && InLowHalf(base, m) && 0 <= off <= m && -m <= n <= m
    ensures Wrapped(base + off, base, m + 1, n)
            == base + (if off + n > m then off + n - (m + 1) else if off + n < 0 then off + n + (m + 1) else off + n)
  {
    if base + 2 * (m + 1) <= 0x8000 {
      WrapsBackLow(base + off, base, m + 1, n);
    } else {
      WrapsBackHalf(off, n);
    }
  }

  lemma UpdateIsExact(base: int, m: int, off: int, n: int)
    requires IsBuffer(base, m) && InLowHalf(base, m) && 0 <= off <= m && -m <= n <= m
    ensures MovesAround(base, m, off, n)
  {
    LowBound(base, m, off, n);
    WrapOffset(off, n, m);
    WrapsBack(base, m, off, n);
  }

  /** Outside it, some update by at most m is wrong. */
  lemma UpdateCanFail(base: int, m: int)
    requires IsBuffer(base, m) && !InLowHalf(base, m)
    ensures !IsCircular(base, m)
  {
    if base >= 0x8000 {
      HighBufferMoves(base, m);
    } else {
      BlockBelowMiddle(base, m);
      LastWordMoves(base, m);
    }
  }

  /** A buffer in the upper half is left by an update that should not move at all. */
  lemma HighBufferMoves(base: int, m: int)
    requires IsBuffer(base, m) && 0x8000 <= base
    ensures !MovesAround(base, m, 0, 0)
  {
    LowBound(base, m, 0, 0);
    WrapOffset(0, 0, m);
    LooksNegative(base, m);
  }

  lemma LooksNegative(base: int, m: int)
    requires 1 <= m <= 0x7fff && 0x8000 <= base < 0x1_0000
    ensures Wrapped(base, base, m + 1, 0) != base
  {
    Sint16Is(base, base - 0x1_0000, 1);
    Sint16Is(base - 0x1_0000, base - 0x1_0000, 0);
    var t := base - 0x1_0000 + m + 1;
    Sint16Is(t, t, 0);
  }

  /** A buffer below the middle whose double does not fit overflows when its last word moves by m. */
  lemma LastWordMoves(base: int, m: int)
    requires IsBuffer(base, m) && base + m < 0x8000 && base % 2 == 0 && !InLowHalf(base, m)
    ensures !MovesAround(base, m, m, m)
  {
    LowBound(base, m, m, m);
    WrapOffset(m, m, m);
    Overflows(base, m);
  }

  lemma Overflows(base: int, m: int)
    requires 1 <= m <= 0x7fff && 0 <= base && base + m < 0x8000 && base % 2 == 0 && !InLowHalf(base, m)
    ensures Wrapped(base + m, base, m + 1, m) != base + m - 1
  {
    Sint16Is(base + m, base + m, 0);
    var sum := base + 2 * m;
    Sint16Is(sum, sum - 0x1_0000, 1);
    var t := sum - 0x1_0000 + m + 1;
    Sint16Is(t, t, 0);
  }

  lemma Power15()
    ensures Power2(15) == 0x8000
  {
    assert Power2(8) == 0x100;
  }

  /** The block size of a buffer divides half the address space, and is even. */
  lemma PowerBlocks(modulo: nat, k: nat) returns (blocks: nat)
    requires 2 <= modulo <= Power2(k)
    ensures blocks * BufSize(modulo) == Power2(k) && BufSize(modulo) % 2 == 0
  {
    BufSizeIsLeastPower(modulo, k);
    var i: nat :| i <= k && BufSize(modulo) == Power2(i);
    assert Power2(i) >= 2;
    assert i > 0 && Power2(i) == 2 * Power2(i - 1);
    var j: nat := k - i;
    PowerSum(j, i);
    blocks := Power2(j);
  }

  lemma BlockDivides(m: int) returns (blocks: nat)
    requires 1 <= m <= 0x7fff
    ensures blocks * BufSize(m + 1) == 0x8000 && BufSize(m + 1) % 2 == 0
  {
    Power15();
    blocks := PowerBlocks(m + 1, 15);
  }

  /** A buffer below the middle lies below it with its whole block, at an even address. */
  lemma BlockBelowMiddle(base: int, m: int)
    requires IsBuffer(base, m) && base < 0x8000
    ensures base + BufSize(m + 1) <= 0x8000 && base % 2 == 0
  {
    var blocks := BlockDivides(m);
    MultipleBelow(Over(base, BufSize(m + 1)), BufSize(m + 1), blocks);
  }

  lemma MultipleBelow(q: nat, p: nat, blocks: nat)
    requires q * p < blocks * p && p % 2 == 0
    ensures q * p + p <= blocks * p && q * p % 2 == 0
  {
    if q >= blocks {
      MulMonotonic(blocks, q, p);
      assert false;
    }
    MulMonotonic(q + 1, blocks, p);
    var h := p / 2;
    assert q * p == 2 * (q * h);
  }

  /** Modulo addressing is circular exactly for the buffers in the low half. */
  lemma CircularIff(base: int, m: int)
    requires IsBuffer(base, m)
    ensures IsCircular(base, m) <==> InLowHalf(base, m)
  {
    if InLowHalf(base, m) {
      forall off, n | 0 <= off <= m && -m <= n <= m
        ensures MovesAround(base, m, off, n)
      {
        UpdateIsExact(base, m, off, n);
      }
    } else {
      UpdateCanFail(base, m);
    }
  }

  function Sum(ns: seq<int>): int {
    if ns == [] then 0 else Sum(ns[..|ns| - 1]) + ns[|ns| - 1]
  }

  /** The address after a sequence of updates. */
  function ModuloRun(r: int, m: int, ns: seq<int>): int
    requires 0 <= m
  {
    if ns == [] then r else ModuloUpdate(ModuloRun(r, m, ns[..|ns| - 1]), m, ns[|ns| - 1])
  }

  /** Over any sequence of updates by at most m, the address walks the ring. */
  lemma {:induction false} CircularRun(base: int, m: int, off: int, ns: seq<int>)
    requires IsBuffer(base, m) && InLowHalf(base, m) && 0 <= off <= m
    requires forall i | 0 <= i < |ns| :: -m <= ns[i] <= m
    ensures ModuloRun(base + off, m, ns) == base + (off + Sum(ns)) % (m + 1)
    ensures base <= ModuloRun(base + off, m, ns) <= base + m
  {
    if ns == [] {
      Quotient(off, m + 1, 0, off);
    } else {
      var init, n := ns[..|ns| - 1], ns[|ns| - 1];
      CircularRun(base, m, off, init);
      var r := ModuloRun(base + off, m, init);
      assert ModuloRun(base + off, m, ns) == ModuloUpdate(r, m, n) && Sum(ns) == Sum(init) + n;
      NextOnRing(base, m, off + Sum(init), n);
    }
  }

  lemma NextOnRing(base: int, m: int, sum: int, n: int)
    requires IsBuffer(base, m) && InLowHalf(base, m) && -m <= n <= m
    ensures ModuloUpdate(base + sum % (m + 1), m, n) == base + (sum + n) % (m + 1)
  {
    var k := m + 1;
    var r := sum % k;
    RemainderRange(sum, k);
    ReduceSummand(sum, n, k);
    UpdateIsExact(base, m, r, n);
  }
}
