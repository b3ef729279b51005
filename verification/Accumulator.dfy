/**
 * The 56-bit accumulator arithmetic of the DSP (src/dsp_cpu.c:3538-3806): accumulators are three limbs
 * of 8, 24 and 24 bits, and the operations work on the limbs with their carries.
 */
module Accumulator {
  import opened Division

  predicate IsLimbs(s: seq<int>) {
    |s| == 3 && 0 <= s[0] < 0x100 && 0 <= s[1] < 0x100_0000 && 0 <= s[2] < 0x100_0000
  }

  /** The limbs read as one unsigned 56-bit number. */
  function Unsigned(s: seq<int>): int
    requires |s| == 3
  {
    s[0] * 0x1_0000_0000_0000 + s[1] * 0x100_0000 + s[2]
  }

  /** The limbs read as one two's complement 56-bit number. */
  function Signed(s: seq<int>): int
    requires |s| == 3
  {
    if s[0] < 0x80 then Unsigned(s) else Unsigned(s) - 0x100_0000_0000_0000
  }

  predicate Fits56(v: int) {
    -0x80_0000_0000_0000 <= v < 0x80_0000_0000_0000
  }

  /** The 56-bit two's complement number congruent to v. */
  function Wrap56(v: int): int {
    (v + 0x80_0000_0000_0000) % 0x100_0000_0000_0000 - 0x80_0000_0000_0000
  }

  /** A 24-bit register read as a two's complement number. */
  function Signed24(v: int): int {
    if v < 0x80_0000 then v else v - 0x100_0000
  }

  lemma WrapsTo(v: int, w: int, k: int)
    requires Fits56(w) && v == w + k * 0x100_0000_0000_0000
    ensures Wrap56(v) == w
  {
  }

  /** The limb-by-limb comparison that both dsp_add56 and dsp_sub56 use for the carry. */
  predicate LimbsLess(x: seq<int>, y: seq<int>)
    requires IsLimbs(x) && IsLimbs(y)
    ensures LimbsLess(x, y) <==> Unsigned(x) < Unsigned(y)
  {
    x[0] < y[0] || (x[0] == y[0] && (x[1] < y[1] || (x[1] == y[1] && x[2] < y[2])))
  }

  /** Bit 7 of the extension limb. */
  function SignBit(b: int): (bit: int)
    requires 0 <= b < 0x100
    ensures bit == if b < 0x80 then 0 else 1
  {
    b / 0x80 % 2
  }

  /** Bit 24 of a limb sum, and the limb left when it is masked off. */
  function CarryBit(x: int): (bit: int)
    requires 0 <= x < 0x200_0000
    ensures bit == if x < 0x100_0000 then 0 else 1
    ensures x % 0x100_0000 == x - bit * 0x100_0000
  {
    x / 0x100_0000 % 2
  }

  lemma SumOfLimbs(x: seq<int>, y: seq<int>, r: seq<int>, c2: int, c1: int, c0: int)
    requires IsLimbs(x) && IsLimbs(y) && IsLimbs(r)
    requires r[2] == x[2] + y[2] - c2 * 0x100_0000
    requires r[1] == x[1] + y[1] + c2 - c1 * 0x100_0000
    requires r[0] == x[0] + y[0] + c1 - c0 * 0x100
    ensures Unsigned(r) == Unsigned(x) + Unsigned(y) - c0 * 0x100_0000_0000_0000
    ensures Signed(r) == Wrap56(Signed(x) + Signed(y))
    ensures Fits56(Signed(x) + Signed(y)) <==> SignBit(y[0]) == SignBit(r[0]) || SignBit(x[0]) == SignBit(r[0])
  {
    SignedOfUnsigned(x);
    SignedOfUnsigned(y);
    SignedOfUnsigned(r);
    SumWraps(Unsigned(x), Unsigned(y), Unsigned(r), c0);
  }

  /** A 56-bit pattern read as a two's complement number. */
  function TwosComplement(u: int): int {
    if u < 0x80_0000_0000_0000 then u else u - 0x100_0000_0000_0000
  }

  lemma SignedOfUnsigned(s: seq<int>)
    requires IsLimbs(s)
    ensures 0 <= Unsigned(s) < 0x100_0000_0000_0000 && Signed(s) == TwosComplement(Unsigned(s))
    ensures SignBit(s[0]) == 0 <==> Unsigned(s) < 0x80_0000_0000_0000
  {
  }

  lemma SumWraps(u: int, v: int, w: int, c: int)
    requires 0 <= u < 0x100_0000_0000_0000 && 0 <= v < 0x100_0000_0000_0000 && 0 <= w < 0x100_0000_0000_0000
    requires w == u + v - c * 0x100_0000_0000_0000
    ensures TwosComplement(w) == Wrap56(TwosComplement(u) + TwosComplement(v))
    ensures Fits56(TwosComplement(u) + TwosComplement(v))
            <==> ((v < 0x80_0000_0000_0000 <==> w < 0x80_0000_0000_0000) ||
                  (u < 0x80_0000_0000_0000 <==> w < 0x80_0000_0000_0000))
  {
    var ku := if u < 0x80_0000_0000_0000 then 0 else 1;
    var kv := if v < 0x80_0000_0000_0000 then 0 else 1;
    var kw := if w < 0x80_0000_0000_0000 then 0 else 1;
    WrapsTo(TwosComplement(u) + TwosComplement(v), TwosComplement(w), c + kw - ku - kv);
  }

  /** dsp_add56: D += S. */
  method Add56(source: array<int>, dest: array<int>) returns (overflow: bool, carry: bool)
    requires source != dest && source.Length == 3 && dest.Length == 3
    requires IsLimbs(source[..]) && IsLimbs(dest[..])
    modifies dest
    ensures IsLimbs(dest[..])
    ensures Signed(dest[..]) == Wrap56(old(Signed(dest[..])) + Signed(source[..]))
    ensures overflow <==> !Fits56(old(Signed(dest[..])) + Signed(source[..]))
    ensures carry <==> old(Unsigned(dest[..])) + Unsigned(source[..]) >= 0x100_0000_0000_0000
  {
    ghost var s, d := source[..], dest[..];
    var flgS := SignBit(source[0]);
    var flgD := SignBit(dest[0]);
    var notDest := [0xff - dest[0], 0xff_ffff - dest[1], 0xff_ffff - dest[2]];
    carry := LimbsLess(notDest, source[..]);

    var d2 := dest[2] + source[2];
    var c2 := CarryBit(d2);
    var d1 := dest[1] + source[1] + c2;
    var c1 := CarryBit(d1);
    var d0 := dest[0] + source[0] + c1;
    dest[2] := d2 % 0x100_0000;
    dest[1] := d1 % 0x100_0000;
    dest[0] := d0 % 0x100;

    var flgR := SignBit(dest[0]);
    overflow := flgS != flgR && flgD != flgR;
    SumOfLimbs(d, s, dest[..], c2, c1, d0 / 0x100);
  }

  /** Bit 24 of a limb difference held in 32 bits, and the limb left when it is masked off. */
  function BorrowBit(x: int): (bit: int)
    requires -0x100_0000 <= x < 0x100_0000
    ensures bit == if x < 0 then 1 else 0
    ensures x % 0x1_0000_0000 % 0x100_0000 == x + bit * 0x100_0000
  {
    x % 0x1_0000_0000 / 0x100_0000 % 2
  }

  /** The extension limb of a difference, after the 32-bit wrap and the mask. */
  function LowByte(x: int): (b: int)
    requires -0x100 <= x < 0x200
    ensures b == if x < 0 then x + 0x100 else if x < 0x100 then x else x - 0x100
  {
    x % 0x1_0000_0000 % 0x100
  }

  /** Bit 23 of a limb, which a left shift moves into the next limb. */
  function TopBit(x: int): (bit: int)
    requires 0 <= x < 0x100_0000
    ensures bit == if x < 0x80_0000 then 0 else 1
  {
    x / 0x80_0000 % 2
  }

  /** A limb shifted right, with a bit coming in from the limb above. */
  function ShiftIn(x: int, bit: int): (r: int)
    requires 0 <= x < 0x100_0000 && 0 <= bit <= 1
    ensures 0 <= r < 0x100_0000 && 2 * (r - bit * 0x80_0000) + x % 2 == x
  {
    x / 2 % 0x80_0000 + bit * 0x80_0000
  }

  lemma DifferenceOfLimbs(x: seq<int>, y: seq<int>, r: seq<int>, b2: int, b1: int, b0: int)
    requires IsLimbs(x) && IsLimbs(y) && IsLimbs(r)
    requires r[2] == x[2] - y[2] + b2 * 0x100_0000
    requires r[1] == x[1] - y[1] - b2 + b1 * 0x100_0000
    requires r[0] == x[0] - y[0] - b1 + b0 * 0x100
    ensures Signed(r) == Wrap56(Signed(x) - Signed(y))
    ensures Fits56(Signed(x) - Signed(y)) <==> SignBit(y[0]) == SignBit(x[0]) || SignBit(r[0]) == SignBit(x[0])
  {
    SignedOfUnsigned(x);
    SignedOfUnsigned(y);
    SignedOfUnsigned(r);
    DifferenceWraps(Unsigned(x), Unsigned(y), Unsigned(r), b0);
  }

  lemma DifferenceWraps(u: int, v: int, w: int, b: int)
    requires 0 <= u < 0x100_0000_0000_0000 && 0 <= v < 0x100_0000_0000_0000 && 0 <= w < 0x100_0000_0000_0000
    requires w == u - v + b * 0x100_0000_0000_0000
    ensures TwosComplement(w) == Wrap56(TwosComplement(u) - TwosComplement(v))
    ensures Fits56(TwosComplement(u) - TwosComplement(v))
            <==> ((v < 0x80_0000_0000_0000 <==> u < 0x80_0000_0000_0000) ||
                  (w < 0x80_0000_0000_0000 <==> u < 0x80_0000_0000_0000))
  {
    var ku := if u < 0x80_0000_0000_0000 then 0 else 1;
    var kv := if v < 0x80_0000_0000_0000 then 0 else 1;
    var kw := if w < 0x80_0000_0000_0000 then 0 else 1;
    WrapsTo(TwosComplement(u) - TwosComplement(v), TwosComplement(w), kw + kv - ku - b);
  }

  /** dsp_sub56: D -= S. The limb differences wrap as 32-bit unsigned numbers. */
  method Sub56(source: array<int>, dest: array<int>) returns (overflow: bool, carry: bool)
    requires source != dest && source.Length == 3 && dest.Length == 3
    requires IsLimbs(source[..]) && IsLimbs(dest[..])
    modifies dest
    ensures IsLimbs(dest[..])
    ensures Signed(dest[..]) == Wrap56(old(Signed(dest[..])) - Signed(source[..]))
    ensures overflow <==> !Fits56(old(Signed(dest[..])) - Signed(source[..]))
    ensures carry <==> old(Unsigned(dest[..])) < Unsigned(source[..])
  {
    var destSave := dest[..];
    var d2 := dest[2] - source[2];
    var b2 := BorrowBit(d2);
    var d1 := dest[1] - (source[1] + b2);
    var b1 := BorrowBit(d1);
    var d0 := dest[0] - (source[0] + b1);
    dest[2] := d2 % 0x1_0000_0000 % 0x100_0000;
    dest[1] := d1 % 0x1_0000_0000 % 0x100_0000;
    dest[0] := LowByte(d0);

    overflow := SignBit(source[0]) != SignBit(destSave[0]) && SignBit(dest[0]) != SignBit(destSave[0]);
    carry := LimbsLess(destSave, source[..]);
    DifferenceOfLimbs(destSave, source[..], dest[..], b2, b1, if d0 < 0 then 1 else 0);
  }

  /** The extension limb shifted right with its sign bit kept. */
  function ShiftSign(x: int): (r: int)
    requires 0 <= x < 0x100
    ensures 0 <= r < 0x100
    ensures if x < 0x80 then r < 0x80 && 2 * r + x % 2 == x else r >= 0x80 && 2 * (r - 0x80) + x % 2 == x
  {
    var half := x / 2 % 0x80;
    half + half / 0x40 % 2 * 0x80
  }

  /** dsp_asl56: D <<= 1. */
  method Asl56(dest: array<int>) returns (overflow: bool, carry: bool)
    requires dest.Length == 3 && IsLimbs(dest[..])
    modifies dest
    ensures IsLimbs(dest[..])
    ensures Signed(dest[..]) == Wrap56(2 * old(Signed(dest[..])))
    ensures overflow <==> !Fits56(2 * old(Signed(dest[..])))
    ensures carry <==> old(Signed(dest[..])) < 0
  {
    ghost var d := dest[..];
    var top, t1, t2 := SignBit(dest[0]), TopBit(dest[1]), TopBit(dest[2]);
    carry := top == 1;
    dest[0] := LowByte(dest[0] * 2 + t1);
    dest[1] := (dest[1] * 2 + t2) % 0x100_0000;
    dest[2] := dest[2] * 2 % 0x100_0000;
    overflow := top != SignBit(dest[0]);
    SumOfLimbs(d, d, dest[..], t2, t1, top);
  }

  /** dsp_asr56: D >>= 1, rounding towards minus infinity. */
  method Asr56(dest: array<int>) returns (carry: bool)
    requires dest.Length == 3 && IsLimbs(dest[..])
    modifies dest
    ensures IsLimbs(dest[..])
    ensures Signed(dest[..]) == old(Signed(dest[..])) / 2
    ensures carry <==> old(Signed(dest[..])) % 2 == 1
  {
    ghost var d := dest[..];
    carry := dest[2] % 2 == 1;
    dest[2] := ShiftIn(dest[2], dest[1] % 2);
    dest[1] := ShiftIn(dest[1], dest[0] % 2);
    dest[0] := ShiftSign(dest[0]);
    HalfOfLimbs(d, dest[..], d[0] % 2, d[1] % 2, d[2] % 2);
  }

  lemma HalfOfLimbs(x: seq<int>, r: seq<int>, b0: int, b1: int, b2: int)
    requires IsLimbs(x) && IsLimbs(r)
    requires 0 <= b2 <= 1
    requires if x[0] < 0x80 then r[0] < 0x80 && 2 * r[0] + b0 == x[0]
             else r[0] >= 0x80 && 2 * (r[0] - 0x80) + b0 == x[0]
    requires 2 * (r[1] - b0 * 0x80_0000) + b1 == x[1]
    requires 2 * (r[2] - b1 * 0x80_0000) + b2 == x[2]
    ensures Signed(r) == Signed(x) / 2 && Signed(x) % 2 == b2
  {
  }

  /** D = 0 - D, as dsp_abs56, dsp_mul56 and dsp_mac spell it out with a zeroed temporary. */
  method Negate56(dest: array<int>) returns (overflow: bool)
    requires dest.Length == 3 && IsLimbs(dest[..])
    modifies dest
    ensures IsLimbs(dest[..])
    ensures Signed(dest[..]) == Wrap56(-old(Signed(dest[..])))
    ensures overflow <==> !Fits56(-old(Signed(dest[..])))
  {
    var zerodest := new int[3](_ => 0);
    var borrow: bool;
    overflow, borrow := Sub56(dest, zerodest);
    dest[0], dest[1], dest[2] := zerodest[0], zerodest[1], zerodest[2];
    assert dest[..] == zerodest[..];
  }

  /** dsp_abs56: D = |D|, except that the most negative accumulator stays as it is. */
  method Abs56(dest: array<int>) returns (overflow: bool)
    requires dest.Length == 3 && IsLimbs(dest[..])
    modifies dest
    ensures IsLimbs(dest[..])
    ensures Signed(dest[..])
            == Wrap56(if old(Signed(dest[..])) < 0 then -old(Signed(dest[..])) else old(Signed(dest[..])))
    ensures overflow <==> old(Signed(dest[..])) == -0x80_0000_0000_0000
  {
    overflow := false;
    if SignBit(dest[0]) == 1 {
      overflow := Negate56(dest);
    }
  }

  /** The operand of dsp_mul56 made non-negative: 24 bits in, at most 2^23 out. */
  function Magnitude(v: int): (m: int)
    requires 0 <= v < 0x100_0000
    ensures 0 <= m <= 0x80_0000
    ensures Signed24(v) == if v < 0x80_0000 then m else -m
  {
    if v / 0x80_0000 % 2 == 1 then 0x100_0000 - v % 0x100_0000 else v
  }

  /** Schoolbook multiplication of two numbers split at bit 12. */
  lemma PartialProducts(a1: int, a0: int, b1: int, b0: int)
    ensures (a1 * 0x1000 + a0) * (b1 * 0x1000 + b0) == a0 * b0 + (a1 * b0 + a0 * b1) * 0x1000 + a1 * b1 * 0x100_0000
  {
    var a, b := a1 * 0x1000 + a0, b1 * 0x1000 + b0;
    calc {
      a * b;
      a * (b1 * 0x1000) + a * b0;
      a * b1 * 0x1000 + a * b0;
      { assert a * b1 == a1 * b1 * 0x1000 + a0 * b1; assert a * b0 == a1 * b0 * 0x1000 + a0 * b0; }
      (a1 * b1 * 0x1000 + a0 * b1) * 0x1000 + a1 * b0 * 0x1000 + a0 * b0;
    }
  }

  lemma ProductBound(x: int, y: int, p: int, q: int)
    requires 0 <= x <= p && 0 <= y <= q
    ensures 0 <= x * y <= p * q
  {
    assert x * y <= p * y <= p * q;
  }

  lemma GatherProducts(p0: int, p1: int, p2: int, p3: int)
    requires 0 <= p0 <= 0xffe001 && 0 <= p1 <= 0x7ff800 && 0 <= p2 <= 0x7ff800 && 0 <= p3 <= 0x400000
    ensures var low := p0 + p1 % 0x1000 * 0x1000 + p2 % 0x1000 * 0x1000;
            var high := p1 / 0x1000 % 0x1000 + p2 / 0x1000 % 0x1000 + p3;
            && 0 <= low < 0x300_0000 && 0 <= high <= 0x401000
            && high * 0x100_0000 + low == p0 + (p1 + p2) * 0x1000 + p3 * 0x100_0000
  {
  }

  /** The four partial products of dsp_mul56 gathered into limbs; no limb sum exceeds 32 bits. */
  method Product(m1: int, m2: int, dest: array<int>)
    requires 0 <= m1 <= 0x80_0000 && 0 <= m2 <= 0x80_0000
    requires dest.Length == 3
    modifies dest
    ensures IsLimbs(dest[..])
    ensures Signed(dest[..]) == m1 * m2
  {
    var a1, a0, b1, b0 := m1 / 0x1000 % 0x1000, m1 % 0x1000, m2 / 0x1000 % 0x1000, m2 % 0x1000;
    assert m1 == a1 * 0x1000 + a0 && m2 == b1 * 0x1000 + b0 && a1 <= 0x800 && b1 <= 0x800;
    PartialProducts(a1, a0, b1, b0);
    ProductBound(a0, b0, 0xfff, 0xfff);
    ProductBound(a1, b0, 0x800, 0xfff);
    ProductBound(a0, b1, 0xfff, 0x800);
    ProductBound(a1, b1, 0x800, 0x800);
    AddProducts(a0 * b0, a1 * b0, a0 * b1, a1 * b1, dest);
  }

  method AddProducts(p0: int, p1: int, p2: int, p3: int, dest: array<int>)
    requires 0 <= p0 <= 0xffe001 && 0 <= p1 <= 0x7ff800 && 0 <= p2 <= 0x7ff800 && 0 <= p3 <= 0x400000
    requires dest.Length == 3
    modifies dest
    ensures IsLimbs(dest[..])
    ensures Signed(dest[..]) == p0 + (p1 + p2) * 0x1000 + p3 * 0x100_0000
  {
    GatherProducts(p0, p1, p2, p3);
    var low := p0 + p1 % 0x1000 * 0x1000 + p2 % 0x1000 * 0x1000;
    var high := p1 / 0x1000 % 0x1000 + p2 / 0x1000 % 0x1000 + p3;
    high := high + low / 0x100_0000 % 0x100;
    dest[2] := low % 0x100_0000;
    dest[0] := high / 0x100_0000 % 0x100;
    dest[1] := high % 0x100_0000;
  }

  /** dsp_mul56: D = 2 * S1 * S2, the product of two signed 24-bit fractions without its extra sign bit. */
  method Mul56(source1: int, source2: int, dest: array<int>)
    requires 0 <= source1 < 0x100_0000 && 0 <= source2 < 0x100_0000
    requires dest.Length == 3
    modifies dest
    ensures IsLimbs(dest[..])
    ensures Signed(dest[..]) == 2 * (Signed24(source1) * Signed24(source2))
  {
    var negresult := (source1 >= 0x80_0000) != (source2 >= 0x80_0000);
    var m1, m2 := Magnitude(source1), Magnitude(source2);
    ProductBound(m1, m2, 0x80_0000, 0x80_0000);
    ProductSign(source1, source2, m1, m2);
    Product(m1, m2, dest);
    ghost var p := Signed(dest[..]);
    var v, c := Asl56(dest);
    assert Signed(dest[..]) == 2 * p by { WrapsTo(2 * p, 2 * p, 0); }
    if negresult {
      v := Negate56(dest);
      assert Signed(dest[..]) == -2 * p by { WrapsTo(-2 * p, -2 * p, 0); }
    }
  }

  lemma ProductSign(s1: int, s2: int, m1: int, m2: int)
    requires 0 <= s1 < 0x100_0000 && 0 <= s2 < 0x100_0000
    requires m1 == Magnitude(s1) && m2 == Magnitude(s2)
    ensures Signed24(s1) * Signed24(s2) == if (s1 >= 0x80_0000) != (s2 >= 0x80_0000) then -(m1 * m2) else m1 * m2
  {
  }

  /** Which multiple of g convergent rounding takes: the nearest, or the even one of two equally near. */
  function NearestMultiple(v: int, g: int): (n: int)
    requires 0 < g
    ensures 2 * (v % g) == g ==> n % 2 == 0
  {
    var q, r := v / g, v % g;
    if 2 * r < g || (2 * r == g && q % 2 == 0) then q else q + 1
  }

  function RoundHalfEven(v: int, g: int): int
    requires 0 < g
  {
    NearestMultiple(v, g) * g
  }

  /** What makes it convergent: no other multiple of g is closer, and a tie is won by the even one. */
  lemma RoundHalfEvenIsNearest(v: int, g: int, k: int)
    requires 0 < g
    ensures RoundHalfEven(v, g) % g == 0
    ensures Distance(v, RoundHalfEven(v, g)) <= Distance(v, k * g)
    ensures Distance(v, RoundHalfEven(v, g)) == Distance(v, k * g) && RoundHalfEven(v, g) != k * g
            ==> RoundHalfEven(v, g) / g % 2 == 0
  {
    var q, r := v / g, v % g;
    var n := NearestMultiple(v, g);
    Quotient(n * g, g, n, 0);
    MultiplesApart(k, q, g);
    MultiplesApart(n, q, g);
    NearerOfTwo(v, g, q * g, r, n * g, k * g);
  }

  lemma NearerOfTwo(v: int, g: int, below: int, r: int, x: int, m: int)
    requires 0 < g && v == below + r && 0 <= r < g
    requires m <= below - g || m == below || m == below + g || m >= below + 2 * g
    requires (x == below && 2 * r <= g) || (x == below + g && 2 * r >= g)
    ensures Distance(v, x) <= Distance(v, m)
    ensures Distance(v, x) == Distance(v, m) && x != m ==> 2 * r == g
  {
  }

  lemma MultiplesApart(k: int, q: int, g: int)
    requires 0 < g
    ensures k < q ==> k * g <= q * g - g
    ensures k == q + 1 ==> k * g == q * g + g
    ensures k > q + 1 ==> k * g >= q * g + 2 * g
  {
    if k < q {
      MulMonotonic(k, q - 1, g);
    } else if k > q + 1 {
      MulMonotonic(q + 2, k, g);
    }
  }

  function Distance(x: int, y: int): int {
    if x < y then y - x else x - y
  }

  /** The weight of the least significant bit that survives rounding in each scaling mode. */
  function Granularity(s0: bool, s1: bool): int {
    if s0 then 0x200_0000 else if s1 then 0x80_0000 else 0x100_0000
  }

  /** Adding half a step, clearing the bits below it, and clearing one bit more after an exact tie. */
  lemma RoundByAdding(v: int, g: int, half: int, t: int, k: int)
    requires g == 2 * half && 0 < half && t == v + half - 2 * k * g
    ensures RoundHalfEven(v, g) == t - t % g - (if t % g == 0 && t / g % 2 == 1 then g else 0) + 2 * k * g
  {
    var q, r := v / g, v % g;
    assert v == q * g + r;
    var q' := if r < half then q else q + 1;
    var r' := if r < half then r + half else r - half;
    Multiples(q', 2 * k, g);
    Multiples(q, 1, g);
    Quotient(t, g, q' - 2 * k, r');
  }

  /** The value of the limbs split at bit 24 or at bit 23. */
  lemma LowLimbs(s: seq<int>)
    requires IsLimbs(s)
    ensures Signed(s) % 0x100_0000 == s[2] && Signed(s) / 0x100_0000 % 2 == s[1] % 2
  {
    var high := if s[0] < 0x80 then s[0] else s[0] - 0x100;
    Quotient(Signed(s), 0x100_0000, high * 0x100_0000 + s[1], s[2]);
  }

  lemma RoundUnscaled(v: int, t: seq<int>, r: seq<int>)
    requires IsLimbs(t) && IsLimbs(r)
    requires Signed(t) == Wrap56(v + 0x80_0000)
    requires r[0] == t[0] && r[2] == 0
    requires r[1] == if t[2] == 0 then t[1] - t[1] % 2 else t[1]
    ensures Signed(r) == Wrap56(RoundHalfEven(v, 0x100_0000))
  {
    var j := (v + 0x80_0000 + 0x80_0000_0000_0000) / 0x100_0000_0000_0000;
    LowLimbs(t);
    RoundByAdding(v, 0x100_0000, 0x80_0000, Signed(t), j * 0x8000_0000);
    WrapsTo(RoundHalfEven(v, 0x100_0000), Signed(r), j);
  }

  lemma SplitAt25(s: seq<int>)
    requires IsLimbs(s)
    ensures Signed(s) % 0x200_0000 == s[1] % 2 * 0x100_0000 + s[2] && Signed(s) / 0x200_0000 % 2 == s[1] / 2 % 2
    ensures s[1] % 4 == s[1] / 2 % 2 * 2 + s[1] % 2
  {
    var high, q := if s[0] < 0x80 then s[0] else s[0] - 0x100, s[1] / 2;
    Quotient(Signed(s), 0x200_0000, high * 0x80_0000 + q, s[1] % 2 * 0x100_0000 + s[2]);
    Quotient(high * 0x80_0000 + q, 2, high * 0x40_0000 + q / 2, q % 2);
    Quotient(s[1], 4, q / 2, q % 2 * 2 + s[1] % 2);
  }

  lemma RoundScaledDown(v: int, t: seq<int>, r: seq<int>)
    requires IsLimbs(t) && IsLimbs(r)
    requires Signed(t) == Wrap56(v + 0x100_0000)
    requires r[0] == t[0] && r[2] == 0
    requires r[1] == if t[2] == 0 && t[1] % 2 == 0 then t[1] - t[1] % 4 else t[1] - t[1] % 2
    ensures Signed(r) == Wrap56(RoundHalfEven(v, 0x200_0000))
  {
    var j := (v + 0x100_0000 + 0x80_0000_0000_0000) / 0x100_0000_0000_0000;
    SplitAt25(t);
    RoundByAdding(v, 0x200_0000, 0x100_0000, Signed(t), j * 0x4000_0000);
    WrapsTo(RoundHalfEven(v, 0x200_0000), Signed(r), j);
  }

  lemma RoundScaledUp(v: int, t: seq<int>, r: seq<int>)
    requires IsLimbs(t) && IsLimbs(r)
    requires Signed(t) == Wrap56(v + 0x40_0000)
    requires r[0] == t[0] && r[1] == t[1]
    requires r[2] == if t[2] % 0x80_0000 == 0 then 0 else t[2] - t[2] % 0x80_0000
    ensures Signed(r) == Wrap56(RoundHalfEven(v, 0x80_0000))
  {
    var j := (v + 0x40_0000 + 0x80_0000_0000_0000) / 0x100_0000_0000_0000;
    var high := if t[0] < 0x80 then t[0] else t[0] - 0x100;
    Quotient(Signed(t), 0x80_0000, high * 0x200_0000 + t[1] * 2 + t[2] / 0x80_0000, t[2] % 0x80_0000);
    RoundByAdding(v, 0x80_0000, 0x40_0000, Signed(t), j * 0x1_0000_0000);
    WrapsTo(RoundHalfEven(v, 0x80_0000), Signed(r), j);
  }

  /** The rounding constant of the scaling mode added to D. */
  method AddConstant(dest: array<int>, c1: int, c2: int)
    requires dest.Length == 3 && IsLimbs(dest[..])
    requires 0 <= c1 < 0x100_0000 && 0 <= c2 < 0x100_0000
    modifies dest
    ensures IsLimbs(dest[..])
    ensures Signed(dest[..]) == Wrap56(old(Signed(dest[..])) + c1 * 0x100_0000 + c2)
  {
    var rndConst := new int[3];
    rndConst[0], rndConst[1], rndConst[2] := 0, c1, c2;
    var v, c := Add56(rndConst, dest);
  }

  /** dsp_rnd56: D rounded to the granularity of the scaling mode. */
  method Rnd56(dest: array<int>, s0: bool, s1: bool)
    requires dest.Length == 3 && IsLimbs(dest[..])
    modifies dest
    ensures IsLimbs(dest[..])
    ensures Signed(dest[..]) == Wrap56(RoundHalfEven(old(Signed(dest[..])), Granularity(s0, s1)))
  {
    if s0 {
      RoundOff25(dest);
    } else if s1 {
      RoundOff23(dest);
    } else {
      RoundOff24(dest);
    }
  }

  /** The middle limb with bit 0 cleared, and bit 1 too after a tie. */
  function Trimmed(middle: int, low: int): (r: int)
    requires 0 <= middle
    ensures 0 <= r <= middle && r == if low == 0 && middle % 2 == 0 then middle - middle % 4 else middle - middle % 2
  {
    Quotient(4 * (middle / 4), 2, 2 * (middle / 4), 0);
    var m := if low == 0 && middle % 2 == 0 then middle - middle % 4 else middle;
    m - m % 2
  }

  /** The three scaling modes: scaled down, scaled up, unscaled. */
  method RoundOff25(dest: array<int>)
    requires dest.Length == 3 && IsLimbs(dest[..])
    modifies dest
    ensures IsLimbs(dest[..]) && Signed(dest[..]) == Wrap56(RoundHalfEven(old(Signed(dest[..])), 0x200_0000))
  {
    ghost var v := Signed(dest[..]);
    AddConstant(dest, 1, 0);
    ghost var t := dest[..];
    dest[1] := Trimmed(dest[1], dest[2]);
    dest[2] := 0;
    RoundScaledDown(v, t, dest[..]);
  }

  method RoundOff23(dest: array<int>)
    requires dest.Length == 3 && IsLimbs(dest[..])
    modifies dest
    ensures IsLimbs(dest[..]) && Signed(dest[..]) == Wrap56(RoundHalfEven(old(Signed(dest[..])), 0x80_0000))
  {
    ghost var v := Signed(dest[..]);
    AddConstant(dest, 0, 0x40_0000);
    ghost var t := dest[..];
    if dest[2] % 0x80_0000 == 0 {
      dest[2] := 0;
    }
    dest[2] := dest[2] - dest[2] % 0x80_0000;
    RoundScaledUp(v, t, dest[..]);
  }

  method RoundOff24(dest: array<int>)
    requires dest.Length == 3 && IsLimbs(dest[..])
    modifies dest
    ensures IsLimbs(dest[..]) && Signed(dest[..]) == Wrap56(RoundHalfEven(old(Signed(dest[..])), 0x100_0000))
  {
    ghost var v := Signed(dest[..]);
    AddConstant(dest, 0, 0x80_0000);
    ghost var t := dest[..];
    if dest[2] == 0 {
      dest[1] := dest[1] - dest[1] % 2;
    }
    dest[2] := 0;
    RoundUnscaled(v, t, dest[..]);
  }
}
