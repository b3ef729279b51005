/** Reversing the low bits of a number, and stepping an address in reversed order (src/dsp_cpu.c:1369-1408). */
module BitReverse {
  import opened Division

  /** The low k bits of x in reverse order. */
  function Rev(x: nat, k: nat): (r: nat)
    ensures r < Power2(k)
    decreases k
  {
    if k == 0 then 0 else (if x % 2 == 1 then Power2(k - 1) else 0) + Rev(x / 2, k - 1)
  }

  /** Halving a number whose upper field is z: the low bit belongs to the lower field y. */
  lemma HalveSum(y: nat, z: nat)
    ensures (y + 2 * z) / 2 == y / 2 + z && (y + 2 * z) % 2 == y % 2
  {
  }

  lemma Associate(a: int, b: int, c: int)
    ensures a * (b * c) == a * b * c && a * (2 * c) == 2 * (a * c)
  {
  }

  lemma Distribute(a: int, b: int, c: int)
    ensures (a + b) * c == a * c + b * c
  {
  }

  /** Reversal seen from the other end: the top bit of the field comes out lowest. */
  lemma {:induction false} RevTopBit(y: nat, bit: bool, k: nat)
    requires y < Power2(k)
    ensures Rev(if bit then y + Power2(k) else y, k + 1) == 2 * Rev(y, k) + (if bit then 1 else 0)
    decreases k
  {
    if k > 0 {
      HalveSum(y, if bit then Power2(k - 1) else 0);
      RevTopBit(y / 2, bit, k - 1);
    }
  }

  /** Reversing twice gives the field back. */
  lemma {:induction false} RevTwice(x: nat, k: nat)
    ensures Rev(Rev(x, k), k) == x % Power2(k)
    decreases k
  {
    if k > 0 {
      RevTwice(x / 2, k - 1);
      RevTopBit(Rev(x / 2, k - 1), x % 2 == 1, k - 1);
      HalveField(x, Power2(k - 1));
    }
  }

  lemma HalveField(x: nat, p: nat)
    requires 0 < p
    ensures x % (2 * p) == 2 * (x / 2 % p) + x % 2
  {
    var h := x / 2;
    assert x == 2 * h + x % 2 && h == h / p * p + h % p;
    assert h / p * (2 * p) == 2 * (h / p * p);
    Quotient(x, 2 * p, h / p, 2 * (h % p) + x % 2);
  }

  /** A number of two fields reverses field by field. */
  lemma {:induction false} RevSplit(low: nat, high: nat, j: nat, k: nat)
    requires low < Power2(j)
    ensures Rev(low + high * Power2(j), j + k) == Rev(low, j) * Power2(k) + Rev(high, k)
    decreases j
  {
    if j > 0 {
      var p, w := Power2(j - 1), Power2(k);
      Associate(high, 1, p);
      HalveSum(low, high * p);
      RevSplit(low / 2, high, j - 1, k);
      PowerSum(j - 1, k);
      Distribute(if low % 2 == 1 then p else 0, Rev(low / 2, j - 1), w);
    }
  }

  /** The bits of r above its low k bits, in place. */
  function Upper(r: nat, k: nat): (u: nat)
    ensures u + r % Power2(k) == r
  {
    Over(r, Power2(k)) * Power2(k)
  }

  /** Counting within k bits. */
  function CountUp(x: nat, n: nat, k: nat): (s: nat)
    ensures s < Power2(k)
  {
    (x + n) % Power2(k)
  }

  /** The update itself: count up by one in the reversed low k bits. */
  function Step(r: nat, k: nat): nat {
    Upper(r, k) + Rev(CountUp(Rev(r, k), 1, k), k)
  }

  function Run(r: nat, k: nat, j: nat): nat {
    if j == 0 then r else Step(Run(r, k, j - 1), k)
  }

  /** Only the field matters to its reversal. */
  lemma {:induction false} RevOfField(x: nat, k: nat)
    ensures Rev(x % Power2(k), k) == Rev(x, k)
    decreases k
  {
    if k > 0 {
      HalveField(x, Power2(k - 1));
      RevOfField(x / 2, k - 1);
    }
  }

  /** A block address made from an upper part and a field has that upper part and that field. */
  lemma FieldOf(r: nat, k: nat, f: nat)
    requires f < Power2(k)
    ensures (Upper(r, k) + f) % Power2(k) == f && Upper(Upper(r, k) + f, k) == Upper(r, k)
    ensures Rev(Upper(r, k) + f, k) == Rev(f, k)
  {
    Quotient(Upper(r, k) + f, Power2(k), Over(r, Power2(k)), f);
    RevOfField(Upper(r, k) + f, k);
  }

  lemma RevTwiceSmall(f: nat, k: nat)
    requires f < Power2(k)
    ensures Rev(Rev(f, k), k) == f
  {
    RevTwice(f, k);
    Quotient(f, Power2(k), 0, f);
  }

  /** One update counts the reversed field up by one. */
  lemma StepMeaning(r: nat, k: nat)
    ensures Upper(Step(r, k), k) == Upper(r, k) && Rev(Step(r, k), k) == (Rev(r, k) + 1) % Power2(k)
  {
    var f := CountUp(Rev(r, k), 1, k);
    FieldOf(r, k, Rev(f, k));
    RevTwiceSmall(f, k);
  }

  /** j updates: the reversed field has counted j modulo its size, the upper bits are as before. */
  lemma {:induction false} RunMeaning(r: nat, k: nat, j: nat)
    ensures Upper(Run(r, k, j), k) == Upper(r, k)
    ensures Rev(Run(r, k, j), k) == (Rev(r, k) + j) % Power2(k)
  {
    if j == 0 {
      Quotient(Rev(r, k), Power2(k), 0, Rev(r, k));
    } else {
      RunMeaning(r, k, j - 1);
      StepMeaning(Run(r, k, j - 1), k);
      ReduceSummand(Rev(r, k) + j - 1, 1, Power2(k));
    }
  }

  /** Two addresses of one block with the same reversed field are the same. */
  lemma SameAddress(x: nat, y: nat, k: nat)
    requires Upper(x, k) == Upper(y, k) && Rev(x, k) == Rev(y, k)
    ensures x == y
  {
    RevTwice(x, k);
    RevTwice(y, k);
  }

  /** When the run reaches the block address that holds field f. */
  function VisitTime(r: nat, k: nat, a: nat): nat {
    (Rev(a, k) - Rev(r, k)) % Power2(k)
  }

  /**
   * The run enumerates the block of 2^k addresses that holds r: every address of it is reached at
   * exactly one time below 2^k, nothing outside is touched, and after 2^k updates r is back.
   */
  lemma {:induction false} RunEnumeratesBlock(r: nat, k: nat, a: nat, j: nat)
    requires Upper(a, k) == Upper(r, k) && j < Power2(k)
    ensures Run(r, k, j) == a <==> j == VisitTime(r, k, a)
    ensures Upper(Run(r, k, j), k) == Upper(r, k)
    ensures Run(r, k, Power2(k)) == r
  {
    var p := Power2(k);
    RunMeaning(r, k, j);
    SameField(Rev(r, k), Rev(a, k), j, p);
    if Rev(Run(r, k, j), k) == Rev(a, k) {
      SameAddress(Run(r, k, j), a, k);
    }
    RunMeaning(r, k, p);
    Quotient(Rev(r, k) + p, p, 1, Rev(r, k));
    SameAddress(Run(r, k, p), r, k);
  }

  /** Counting j up from x modulo p arrives at y exactly for the difference. */
  lemma SameField(x: int, y: int, j: int, p: int)
    requires 0 <= x < p && 0 <= y < p && 0 <= j < p
    ensures (x + j) % p == y <==> j == (y - x) % p
  {
    Quotient(x + j, p, if x + j < p then 0 else 1, if x + j < p then x + j else x + j - p);
    Quotient(y - x, p, if y >= x then 0 else -1, if y >= x then y - x else y - x + p);
  }

  /** Addition that carries from the top bit of a word downwards. */
  function ReverseCarryAdd(r: nat, n: nat, width: nat): nat {
    Rev(CountUp(Rev(r, width), Rev(n, width), width), width)
  }

  /** The least significant set bit of n, or 16 when the low 16 bits are clear. */
  function LowestBit(n: nat, from: nat): (k: nat)
    requires from <= 16
    ensures from <= k <= 16
    decreases 16 - from
  {
    if from == 16 || n / Power2(from) % 2 == 1 then from else LowestBit(n, from + 1)
  }

  lemma {:induction false} RevZero(k: nat)
    ensures Rev(0, k) == 0
  {
    if k > 0 { RevZero(k - 1); }
  }

  lemma {:induction false} RevOfPower(k: nat, h: nat, width: nat)
    requires width == k + 1 + h
    ensures Rev(Power2(k), width) == Power2(h)
    decreases k
  {
    if k == 0 {
      RevZero(h);
    } else {
      RevOfPower(k - 1, h, width - 1);
      HalveSum(0, Power2(k - 1));
    }
  }

  /** Reducing the upper of two fields. */
  lemma FieldModulo(x: nat, y: nat, p: nat, w: nat)
    requires y < w && 0 < p && 0 < p * w
    ensures (x * w + y) % (p * w) == x % p * w + y
  {
    var q, f := x / p, x % p;
    assert x == q * p + f;
    Distribute(q * p, f, w);
    Associate(q, p, w);
    assert f * w + y < p * w by { MulMonotonic(f + 1, p, w); Distribute(f, 1, w); }
    Quotient(x * w + y, p * w, q, f * w + y);
  }

  lemma HighField(r: nat, p: nat, w: nat)
    requires 0 < p && r < p * w
    ensures Over(r, p) < w
  {
    if Over(r, p) >= w {
      MulMonotonic(w, Over(r, p), p);
      assert false;
    }
  }

  /** Adding a power of two with reversed carry touches only the field up to its bit, and counts it up. */
  lemma AddPower(r: nat, k: nat, h: nat, width: nat, amount: nat)
    requires width == k + 1 + h && amount == Power2(h) && r < Power2(width)
    ensures Rev(CountUp(Rev(r, width), amount, width), width) == Step(r, k + 1)
  {
    var j := k + 1;
    PowerSum(j, h);
    HighField(r, Power2(j), Power2(h));
    AddToHigh(r, j, h);
    JoinFields(Over(r, Power2(j)), CountUp(Rev(r, j), 1, j), j, h);
  }

  /** The same count in the reversed word: the upper field counts up by one. */
  lemma AddToHigh(r: nat, j: nat, h: nat)
    ensures CountUp(Rev(r, j + h), Power2(h), j + h)
            == CountUp(Rev(r, j), 1, j) * Power2(h) + Rev(Over(r, Power2(j)), h)
  {
    PowerSum(j, h);
    RevFields(r, j, h);
    CountHigh(Rev(r, j), Rev(Over(r, Power2(j)), h), Power2(j), Power2(h), Power2(j + h));
  }

  lemma CountHigh(x: nat, y: nat, p: nat, w: nat, size: nat)
    requires y < w && 0 < p && size == p * w && 0 < size
    ensures (x * w + y + w) % size == (x + 1) % p * w + y
  {
    Distribute(x, 1, w);
    FieldModulo(x + 1, y, p, w);
  }

  lemma RevFields(r: nat, j: nat, h: nat)
    ensures Rev(r, j + h) == Rev(r, j) * Power2(h) + Rev(Over(r, Power2(j)), h)
  {
    var low, high := r % Power2(j), Over(r, Power2(j));
    RevOfField(r, j);
    RevSplit(low, high, j, h);
    assert low + high * Power2(j) == r;
  }

  lemma JoinFields(high: nat, x: nat, j: nat, h: nat)
    requires high < Power2(h) && x < Power2(j)
    ensures Rev(x * Power2(h) + Rev(high, h), j + h) == high * Power2(j) + Rev(x, j)
  {
    RevSplit(Rev(high, h), x, h, j);
    RevTwiceSmall(high, h);
  }

  /** Reverse-carry addition tells the amounts added apart, whatever they are added to. */
  lemma AddIsInjective(r: nat, m: nat, n: nat, width: nat)
    requires m < Power2(width) && n < Power2(width)
    requires ReverseCarryAdd(r, m, width) == ReverseCarryAdd(r, n, width)
    ensures m == n
  {
    var p := Power2(width);
    var x, u, v := Rev(r, width), Rev(m, width), Rev(n, width);
    RevTwiceSmall(CountUp(x, u, width), width);
    RevTwiceSmall(CountUp(x, v, width), width);
    CancelModulo(x, u, v, p);
    RevTwiceSmall(m, width);
    RevTwiceSmall(n, width);
  }

  lemma CancelModulo(x: nat, u: nat, v: nat, p: nat)
    requires x < p && u < p && v < p && (x + u) % p == (x + v) % p
    ensures u == v
  {
    Quotient(x + u, p, if x + u < p then 0 else 1, if x + u < p then x + u else x + u - p);
    Quotient(x + v, p, if x + v < p then 0 else 1, if x + v < p then x + v else x + v - p);
  }

  /**
   * The update looks only at the lowest set bit of N, so it is the reverse-carry addition of N that
   * the DSP56001 defines exactly when N has no other bit.
   */
  lemma UpdateIsReverseCarryAdd(r: nat, n: nat)
    requires r < 0x1_0000 && 0 < n < 0x1_0000
    ensures LowestBit(n, 0) < 16
    ensures Step(r, LowestBit(n, 0) + 1) == ReverseCarryAdd(r, n, 16) <==> n == Power2(LowestBit(n, 0))
  {
    Power16();
    LowestBitExists(n, 0);
    UpdateIsReverseCarryAddIn(r, n, LowestBit(n, 0), 16);
  }

  lemma AddPowerIsStep(r: nat, k: nat, width: nat)
    requires r < Power2(width) && k < width
    ensures ReverseCarryAdd(r, Power2(k), width) == Step(r, k + 1)
  {
    RevOfPower(k, width - k - 1, width);
    AddPower(r, k, width - k - 1, width, Rev(Power2(k), width));
  }

  lemma UpdateIsReverseCarryAddIn(r: nat, n: nat, k: nat, width: nat)
    requires r < Power2(width) && n < Power2(width) && k < width
    ensures Step(r, k + 1) == ReverseCarryAdd(r, n, width) <==> n == Power2(k)
  {
    AddPowerIsStep(r, k, width);
    PowerOrder(k + 1, width);
    if ReverseCarryAdd(r, Power2(k), width) == ReverseCarryAdd(r, n, width) {
      AddIsInjective(r, Power2(k), n, width);
    }
  }

  lemma Power16()
    ensures Power2(16) == 0x1_0000
  {
    assert Power2(8) == 0x100;
  }

  /** A non-zero 16-bit number has a lowest set bit among its 16. */
  lemma {:induction false} LowestBitExists(n: nat, from: nat)
    requires from <= 16 && 0 < n < 0x1_0000 && n % Power2(from) == 0
    ensures LowestBit(n, from) < 16
    decreases 16 - from
  {
    if from == 16 {
      Power16();
      assert false;
    } else if n / Power2(from) % 2 == 0 {
      DoubleDivisor(n, Power2(from));
      LowestBitExists(n, from + 1);
    }
  }

  lemma DoubleDivisor(n: nat, p: nat)
    requires 0 < p && n % p == 0 && n / p % 2 == 0
    ensures n % (2 * p) == 0
  {
    var h := n / p / 2;
    Associate(h, 1, p);
    Associate(2, h, p);
    Quotient(n, 2 * p, h, 0);
  }
}
