/**
 * The condition codes of the DSP56001: how an arithmetic result sets them (src/dsp_cpu.c:1028-1108)
 * and how a conditional instruction reads them (src/dsp_cpu.c:1516-1540).
 */
module ConditionCodes {
  import opened Accumulator
  import opened Division

  /** The condition code and scaling mode bits of the status register. */
  datatype Flags = Flags(c: bool, v: bool, z: bool, n: bool, u: bool, e: bool, l: bool, s0: bool, s1: bool)

  /** S1 and S0 as a number. */
  function Scaling(f: Flags): (m: int)
    ensures 0 <= m < 4
  {
    (if f.s1 then 2 else 0) + (if f.s0 then 1 else 0)
  }

  /** One more than the largest accumulator that needs no extension bits in a scaling mode; 3 counts as 1. */
  function Limit(scaling: int): int {
    if scaling == 0 then 0x8000_0000_0000 else if scaling == 2 then 0x4000_0000_0000 else 0x1_0000_0000_0000
  }

  function Unit(f: Flags): int
    requires !(f.s0 && f.s1)
  {
    Limit(Scaling(f))
  }

  /** E, U, N and Z for a result: extension in use, unnormalised, negative, zero. */
  function CcrOf(f: Flags, v: int): Flags {
    var g := f.(n := v < 0, z := v == 0);
    if f.s0 && f.s1 then g
    else g.(e := !(-Unit(f) <= v < Unit(f)), u := v / (Unit(f) / 2) % 4 in {0, 3})
  }

  /** E, U, N and Z already say what there is to say about v. */
  predicate Describes(f: Flags, v: int) {
    f == CcrOf(f, v)
  }

  /** The bits above the range of a scaling mode are all clear or all set; 1 and 3 look at the extension byte only. */
  predicate PassesTest(high: int, upper: int, scaling: int) {
    var value := if scaling == 0 then high * 2 + upper / 0x80_0000 % 2
                 else if scaling == 2 then high * 4 + upper / 0x40_0000 % 4
                 else high;
    var ones := if scaling == 0 then 0x1ff else if scaling == 2 then 0x3ff else 0xff;
    value == 0 || value == ones
  }

  lemma TestMeaning(d: seq<int>, scaling: int)
    requires IsLimbs(d) && 0 <= scaling < 4
    ensures PassesTest(d[0], d[1], scaling) <==> -Limit(scaling) <= Signed(d) < Limit(scaling)
  {
    if scaling == 2 {
      Quotient(d[1] / 0x40_0000, 4, 0, d[1] / 0x40_0000);
    } else if scaling == 0 {
      Quotient(d[1] / 0x80_0000, 2, 0, d[1] / 0x80_0000);
    }
  }

  /** dsp_ccr_extension. */
  function Extension(f: Flags, d0: int, d1: int): bool
    requires 0 <= d0 < 0x100 && 0 <= d1 < 0x100_0000
  {
    if f.s0 && f.s1 then f.e else !PassesTest(d0, d1, Scaling(f))
  }

  /** dsp_ccr_unnormalized. */
  function Unnormalized(f: Flags, d0: int, d1: int): bool
    requires 0 <= d0 < 0x100 && 0 <= d1 < 0x100_0000
  {
    if f.s0 && f.s1 then f.u
    else
      var value := if f.s0 then d0 * 2 % 4 + d1 / 0x80_0000 % 2
                   else if f.s1 then d1 / 0x20_0000 % 4
                   else d1 / 0x40_0000 % 4;
      value == 0 || value == 3
  }

  /** The four calls that end every arithmetic instruction. */
  function SetCcr(f: Flags, d: seq<int>): Flags
    requires IsLimbs(d)
  {
    f.(e := Extension(f, d[0], d[1]), u := Unnormalized(f, d[0], d[1]), n := SignBit(d[0]) == 1,
       z := d[2] == 0 && d[1] == 0 && d[0] == 0)
  }

  /** E in the three scaling modes. */
  lemma ExtensionMeaning(f: Flags, d: seq<int>)
    requires IsLimbs(d) && !(f.s0 && f.s1)
    ensures Extension(f, d[0], d[1]) <==> !(-Unit(f) <= Signed(d) < Unit(f))
  {
    TestMeaning(d, Scaling(f));
  }

  // The two bits U looks at, as bits of the number, in each scaling mode.

  lemma TwoBits(d: seq<int>)
    requires IsLimbs(d)
    ensures Signed(d) / 0x4000_0000_0000 % 4 == d[1] / 0x40_0000 % 4
  {
    var high, b := if d[0] < 0x80 then d[0] else d[0] - 0x100, d[1] / 0x40_0000;
    Quotient(Signed(d), 0x4000_0000_0000, high * 4 + b, d[1] % 0x40_0000 * 0x100_0000 + d[2]);
    Quotient(high * 4 + b, 4, high, b);
  }

  lemma TwoBitsScaledUp(d: seq<int>)
    requires IsLimbs(d)
    ensures Signed(d) / 0x2000_0000_0000 % 4 == d[1] / 0x20_0000 % 4
  {
    var high, b := if d[0] < 0x80 then d[0] else d[0] - 0x100, d[1] / 0x20_0000;
    Quotient(Signed(d), 0x2000_0000_0000, high * 8 + b, d[1] % 0x20_0000 * 0x100_0000 + d[2]);
    Quotient(high * 8 + b, 4, high * 2 + b / 4, b % 4);
  }

  lemma TwoBitsScaledDown(d: seq<int>)
    requires IsLimbs(d)
    ensures Signed(d) / 0x8000_0000_0000 % 4 == d[0] * 2 % 4 + d[1] / 0x80_0000 % 2
  {
    var high, b := if d[0] < 0x80 then d[0] else d[0] - 0x100, d[1] / 0x80_0000;
    Quotient(Signed(d), 0x8000_0000_0000, high * 2 + b, d[1] % 0x80_0000 * 0x100_0000 + d[2]);
    Quotient(high * 2 + b, 4, high / 2, high % 2 * 2 + b);
    Quotient(d[0] * 2, 4, d[0] / 2, d[0] % 2 * 2);
  }

  lemma UnnormalizedMeaning(f: Flags, d: seq<int>)
    requires IsLimbs(d) && !(f.s0 && f.s1)
    ensures Unnormalized(f, d[0], d[1]) <==> Signed(d) / (Unit(f) / 2) % 4 in {0, 3}
  {
    if f.s0 {
      TwoBitsScaledDown(d);
    } else if f.s1 {
      TwoBitsScaledUp(d);
    } else {
      TwoBits(d);
    }
  }

  /** The limb tests of the four routines decide about the number. */
  lemma CcrMeaning(f: Flags, d: seq<int>)
    requires IsLimbs(d)
    ensures SetCcr(f, d) == CcrOf(f, Signed(d))
  {
    if !(f.s0 && f.s1) {
      ExtensionMeaning(f, d);
      UnnormalizedMeaning(f, d);
    }
  }

  /** An accumulator read without its sign, as the borrow of a subtraction sees it. */
  function AsUnsigned(v: int): int {
    v % 0x100_0000_0000_0000
  }

  lemma UnsignedOf(d: seq<int>)
    requires IsLimbs(d)
    ensures AsUnsigned(Signed(d)) == Unsigned(d)
  {
    Quotient(Signed(d), 0x100_0000_0000_0000, if d[0] < 0x80 then 0 else -1, Unsigned(d));
  }

  /** The flags that comparing d with s leaves behind. */
  predicate Compared(f: Flags, d: int, s: int) {
    && f.c == (AsUnsigned(d) < AsUnsigned(s))
    && f.v == !Fits56(d - s)
    && Describes(f, Wrap56(d - s))
  }

  /** dsp_calc_cc: condition code number 0..15. */
  function CalcCc(f: Flags, code: int): bool
    requires 0 <= code < 16
  {
    var nv := f.n != f.v;
    var zue := f.z || (!f.u && !f.e);
    var znv := f.z || nv;
    [f.c, nv, f.z, f.n, zue, f.e, f.l, znv][code % 8] == (code / 8 % 2 == 1)
  }

  const CC := 0
  const GE := 1
  const NE := 2
  const PL := 3
  const NN := 4
  const EC := 5
  const LC := 6
  const GT := 7
  const CS := 8
  const LT := 9
  const EQ := 10
  const MI := 11
  const NR := 12
  const ES := 13
  const LS := 14
  const LE := 15

  /** A number is normalised in a scaling mode when it fits and uses the top bit of the range. */
  predicate Normal(f: Flags, v: int)
    requires !(f.s0 && f.s1)
  {
    -Unit(f) <= v < -(Unit(f) / 2) || Unit(f) / 2 <= v < Unit(f)
  }

  lemma UpperBits(v: int, h: int)
    requires 0 < h && -2 * h <= v < 2 * h
    ensures v / h % 4 in {0, 3} <==> -h <= v < h
  {
    var q := v / h;
    MulOrder(q, 2, h);
    MulOrder(q, 1, h);
    MulOrder(q, 0, h);
    MulOrder(q, -1, h);
    MulOrder(q, -2, h);
  }

  /** With flags that describe a number, the remaining branches decide about it. */
  lemma ResultAndBranch(f: Flags, v: int)
    requires Describes(f, v) && !(f.s0 && f.s1)
    ensures (CalcCc(f, PL) <==> v >= 0) && (CalcCc(f, MI) <==> v < 0)
    ensures (CalcCc(f, EC) <==> -Unit(f) <= v < Unit(f)) && (CalcCc(f, ES) <==> !(-Unit(f) <= v < Unit(f)))
    ensures (CalcCc(f, NR) <==> v == 0 || Normal(f, v)) && (CalcCc(f, NN) <==> v != 0 && !Normal(f, v))
    ensures (CalcCc(f, LS) <==> f.l) && (CalcCc(f, LC) <==> !f.l)
  {
    if -Unit(f) <= v < Unit(f) {
      UpperBits(v, Unit(f) / 2);
    }
  }

  /** After a compare every branch decides the true order, also where the subtraction overflows. */
  lemma CompareAndBranch(f: Flags, d: int, s: int)
    requires Fits56(d) && Fits56(s) && Compared(f, d, s)
    ensures CalcCc(f, GE) <==> d >= s
    ensures CalcCc(f, LT) <==> d < s
    ensures CalcCc(f, GT) <==> d > s
    ensures CalcCc(f, LE) <==> d <= s
    ensures CalcCc(f, EQ) <==> d == s
    ensures CalcCc(f, NE) <==> d != s
    ensures CalcCc(f, CC) <==> AsUnsigned(d) >= AsUnsigned(s)
    ensures CalcCc(f, CS) <==> AsUnsigned(d) < AsUnsigned(s)
  {
    var k := if d - s < -0x80_0000_0000_0000 then -1 else if d - s >= 0x80_0000_0000_0000 then 1 else 0;
    WrapsTo(d - s, d - s - k * 0x100_0000_0000_0000, k);
  }
}
