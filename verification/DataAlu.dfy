/**
 * The data ALU of the DSP56001: the instructions that work on an accumulator in the register file
 * (src/dsp_cpu.c:1920-1965, 2685-2726, 3812-4486).
 */
module DataAlu {
  import opened Accumulator
  import opened ConditionCodes
  import Divide
  import Normalize

  // Register numbers of src/include/dsp_cpu.h:48-90; accumulator A is number 0 and B number 1.
  const X0 := 0x04
  const X1 := 0x05
  const Y0 := 0x06
  const Y1 := 0x07
  const A0 := 0x08
  const A2 := 0x0a
  const A1 := 0x0c
  const R0 := 0x10

  /** registers_mpy: the two factors a multiply instruction names (src/dsp_cpu.c:551-561). */
  function Factors(code: int): (p: (int, int))
    requires 0 <= code < 8
    ensures X0 <= p.0 <= Y1 && X0 <= p.1 <= Y1
  {
    [(X0, X0), (Y0, Y0), (X1, X0), (Y1, Y0), (X0, Y1), (Y0, X0), (X1, Y0), (Y1, X1)][code]
  }

  /** Codes 4 to 7 name each pair of an X with a Y register once; the others stay within X or within Y. */
  lemma CrossPairs(x: int, y: int)
    requires x in {0x04, 0x05} && y in {0x06, 0x07}
    ensures exists k :: 4 <= k < 8 && (Factors(k) == (x, y) || Factors(k) == (y, x))
    ensures forall k, l | 4 <= k < l < 8 :: {Factors(k).0, Factors(k).1} != {Factors(l).0, Factors(l).1}
    ensures forall k | 0 <= k < 4 :: Factors(k).0 <= 0x05 <==> Factors(k).1 <= 0x05
  {
    var k := if (x, y) == (0x04, 0x07) then 4 else if (x, y) == (0x04, 0x06) then 5 else if y == 0x06 then 6 else 7;
    assert Factors(k) == (x, y) || Factors(k) == (y, x);
  }

  class Alu {
    const registers: array<int>
    var sr: Flags

    ghost predicate Valid()
      reads this, registers
    {
      && registers.Length == 64
      && IsLimbs(Limbs(0)) && IsLimbs(Limbs(1))
      && (forall i | X0 <= i <= Y1 :: 0 <= registers[i] < 0x100_0000)
      && (forall i | R0 <= i < R0 + 8 :: 0 <= registers[i] < 0x1_0000)
    }

    /** dsp_core_reset: all zero, but the modifier registers select linear addressing. */
    constructor ()
      ensures Valid() && Accu(0) == 0 && Accu(1) == 0 && fresh(registers)
      ensures forall i | 0x10 <= i < 0x28 :: 0 <= registers[i] < 0x1_0000
      ensures forall i | 0 <= i < 64 :: registers[i] == if 0x20 <= i < 0x28 then 0xffff else 0
    {
      registers := new int[64](i => if 0x20 <= i < 0x28 then 0xffff else 0);
      sr := Flags(false, false, false, false, false, false, false, false, false);
    }

    function Limbs(n: int): seq<int>
      requires registers.Length == 64 && 0 <= n <= 1
      reads registers
    {
      [registers[0x0a + n], registers[0x0c + n], registers[0x08 + n]]
    }

    /** The number in accumulator A (n = 0) or B (n = 1). */
    function Accu(n: int): int
      requires registers.Length == 64 && 0 <= n <= 1
      reads registers
    {
      Signed(Limbs(n))
    }

    twostate predicate OnlyAccu(n: int)
      requires registers.Length == 64
      reads registers
    {
      forall i | 0 <= i < 64 && i != A2 + n && i != A1 + n && i != A0 + n :: registers[i] == old(registers[i])
    }

    method LoadAccu(n: int) returns (dest: array<int>)
      requires Valid() && 0 <= n <= 1
      ensures fresh(dest) && dest.Length == 3 && dest[..] == Limbs(n) && IsLimbs(dest[..])
      ensures Signed(dest[..]) == Accu(n)
    {
      dest := new int[3];
      dest[0], dest[1], dest[2] := registers[A2 + n], registers[A1 + n], registers[A0 + n];
    }

    method SetAccu(n: int, high: int, upper: int, low: int)
      requires Valid() && 0 <= n <= 1 && IsLimbs([high, upper, low])
      modifies registers
      ensures Valid() && Limbs(n) == [high, upper, low] && OnlyAccu(n)
    {
      registers[A2 + n], registers[A1 + n], registers[A0 + n] := high, upper, low;
    }

    method StoreAccu(n: int, dest: array<int>)
      requires Valid() && 0 <= n <= 1
      requires dest != registers && dest.Length == 3 && IsLimbs(dest[..])
      modifies registers
      ensures Valid() && Limbs(n) == dest[..] && OnlyAccu(n)
    {
      registers[A2 + n], registers[A1 + n], registers[A0 + n] := dest[0], dest[1], dest[2];
    }

    /** A 24-bit register sign-extended into accumulator limbs. */
    method LoadWord(reg: int) returns (source: array<int>)
      requires Valid() && X0 <= reg <= Y1
      ensures fresh(source) && source.Length == 3 && IsLimbs(source[..])
      ensures Signed(source[..]) == Signed24(registers[reg]) * 0x100_0000
    {
      source := new int[3];
      source[0], source[1], source[2] := 0, registers[reg], 0;
      if source[1] / 0x80_0000 % 2 == 1 {
        source[0] := 0xff;
      }
    }

    /** The operands CMP can name; the other codes are undefined (src/dsp_cpu.c:4140-4183). */
    predicate HasOperand(code: int) {
      code in {0, 4, 5, 6, 7}
    }

    function WordOf(code: int): (reg: int)
      requires HasOperand(code) && code != 0
      ensures X0 <= reg <= Y1
    {
      if code == 4 then X0 else if code == 5 then Y0 else if code == 6 then X1 else Y1
    }

    /** What CMP compares with: the other accumulator, or X0, Y0, X1 or Y1 in the upper limbs. */
    function Operand(code: int, n: int): int
      requires HasOperand(code) && registers.Length == 64 && 0 <= n <= 1
      reads registers
    {
      match code
      case 4 => Signed24(registers[0x04]) * 0x100_0000
      case 5 => Signed24(registers[0x06]) * 0x100_0000
      case 6 => Signed24(registers[0x05]) * 0x100_0000
      case 7 => Signed24(registers[0x07]) * 0x100_0000
      case _ => Accu(1 - n)
    }

    /** dsp_cmp: compare accumulator n with an operand; only the flags change. */
    method Cmp(code: int, n: int)
      requires Valid() && 0 <= code < 8 && 0 <= n <= 1
      modifies this`sr
      ensures Valid()
      ensures code in {1, 2, 3} ==> sr == old(sr)
      ensures code in {0, 4, 5, 6, 7} ==> HasOperand(code)
      ensures HasOperand(code) ==> Compared(sr, Accu(n), Operand(code, n))
      ensures HasOperand(code) ==> sr.l == (old(sr).l || sr.v) && sr.s0 == old(sr).s0 && sr.s1 == old(sr).s1
    {
      if !HasOperand(code) { return; }
      var dest := LoadAccu(n);
      var source := LoadOperand(code, n);
      sr := CompareLimbs(source, dest, sr);
    }

    method LoadOperand(code: int, n: int) returns (source: array<int>)
      requires Valid() && HasOperand(code) && 0 <= n <= 1
      ensures fresh(source) && source.Length == 3 && IsLimbs(source[..]) && Signed(source[..]) == Operand(code, n)
    {
      if code == 0 {
        source := LoadAccu(1 - n);
      } else {
        source := LoadWord(WordOf(code));
      }
    }

    /** dsp_mul56 of the two named factors, negated for the "-" form of the instruction. */
    method Multiply(code: int, negate: bool) returns (source: array<int>)
      requires Valid() && 0 <= code < 8
      ensures fresh(source) && source.Length == 3 && IsLimbs(source[..])
      ensures Signed(source[..]) == Product(code, negate)
    {
      source := new int[3];
      var f := Factors(code);
      Mul56(registers[f.0], registers[f.1], source);
      ProductFits(registers[f.0], registers[f.1]);
      if negate {
        ghost var p := Signed(source[..]);
        var overflow := Negate56(source);
        WrapsTo(-p, -p, 0);
      }
    }

    /**
     * Twice the product of the two factors, with the sign the instruction gives it: the squares of X0
     * and Y0, the products within X and within Y, and the four products of an X with a Y register.
     */
    function Product(code: int, negate: bool): int
      requires Valid() && 0 <= code < 8
      reads this, registers
    {
      var x0, x1 := Signed24(registers[0x04]), Signed24(registers[0x05]);
      var y0, y1 := Signed24(registers[0x06]), Signed24(registers[0x07]);
      var p := match code
        case 0 => x0 * x0
        case 1 => y0 * y0
        case 2 => x1 * x0
        case 3 => y1 * y0
        case 4 => x0 * y1
        case 5 => y0 * x0
        case 6 => x1 * y0
        case _ => y1 * x1;
      if negate then -2 * p else 2 * p
    }

    /** dsp_mac: multiply and accumulate. */
    method Mac(code: int, negate: bool, n: int)
      requires Valid() && 0 <= code < 8 && 0 <= n <= 1
      modifies this`sr, registers
      ensures Valid() && OnlyAccu(n)
      ensures Accu(n) == Wrap56(old(Accu(n)) + old(Product(code, negate)))
      ensures var lost := !Fits56(old(Accu(n)) + old(Product(code, negate)));
              sr == CcrOf(old(sr), Accu(n)).(v := lost, l := old(sr).l || lost)
    {
      var source := Multiply(code, negate);
      var dest := LoadAccu(n);
      sr := Accumulate(source, dest, false, sr);
      StoreAccu(n, dest);
    }

    /** dsp_macr: multiply, accumulate and round; V and L speak of the sum, not of the rounding. */
    method Macr(code: int, negate: bool, n: int)
      requires Valid() && 0 <= code < 8 && 0 <= n <= 1
      modifies this`sr, registers
      ensures Valid() && OnlyAccu(n)
      ensures var sum := Wrap56(old(Accu(n)) + old(Product(code, negate)));
              Accu(n) == Wrap56(RoundHalfEven(sum, Granularity(old(sr).s0, old(sr).s1)))
      ensures var lost := !Fits56(old(Accu(n)) + old(Product(code, negate)));
              sr == CcrOf(old(sr), Accu(n)).(v := lost, l := old(sr).l || lost)
    {
      var source := Multiply(code, negate);
      var dest := LoadAccu(n);
      sr := Accumulate(source, dest, true, sr);
      StoreAccu(n, dest);
    }

    /** dsp_div: one divide step. */
    method Div(reg: int, n: int)
      requires Valid() && X0 <= reg <= Y1 && 0 <= n <= 1
      modifies this`sr, registers
      ensures Valid() && OnlyAccu(n)
      ensures Accu(n) == Divide.DivStep(old(Accu(n)), old(sr).c, old(Signed24(registers[reg])))
      ensures var lost := !Fits56(2 * old(Accu(n)));
              sr == old(sr).(c := Accu(n) >= 0, v := lost, l := old(sr).l || lost)
    {
      var source := LoadWord(reg);
      var dest := LoadAccu(n);
      var add := SignBit(dest[0]) != TopBit(registers[reg]);
      var overflow := DivLimbs(source, dest, add, if sr.c then 1 else 0, Signed24(registers[reg]));
      StoreAccu(n, dest);
      sr := sr.(c := SignBit(dest[0]) == 0, v := overflow, l := sr.l || overflow);
    }

    /**
     * A division: C is made the sign of the dividend, and DIV is repeated 24 times. A0 (or B0) is then
     * the quotient by twice the size of the divisor, the limbs above it the remainder less that size.
     */
    method DivideAccu(reg: int, n: int)
      requires Valid() && X0 <= reg <= Y1 && 0 <= n <= 1
      requires var s := Divide.Abs(Signed24(registers[reg])); 0 < s && -s * 0x100_0000 <= Accu(n) < s * 0x100_0000
      modifies this`sr, registers
      ensures Valid() && OnlyAccu(n)
      ensures var s := Divide.Abs(old(Signed24(registers[reg])));
              && Signed24(registers[A0 + n]) == old(Accu(n)) / (2 * s)
              && Signed([registers[A2 + n], registers[A1 + n], 0]) == (old(Accu(n)) % (2 * s) - s) * 0x100_0000
    {
      ghost var d, s := Accu(n), Signed24(registers[reg]);
      sr := sr.(c := SignBit(registers[A2 + n]) == 1);
      RepeatDiv(reg, n, 24);
      Divide.DivideTheorem(d, d < 0, s, Limbs(n));
    }

    method RepeatDiv(reg: int, n: int, count: nat)
      requires Valid() && X0 <= reg <= Y1 && 0 <= n <= 1
      modifies this`sr, registers
      ensures Valid() && OnlyAccu(n)
      ensures Accu(n) == Divide.DivRun(old(Accu(n)), old(sr).c, old(Signed24(registers[reg])), count)
    {
      ghost var d, carry, s := Accu(n), sr.c, Signed24(registers[reg]);
      for k := 0 to count
        invariant Valid() && OnlyAccu(n)
        invariant Accu(n) == Divide.DivRun(d, carry, s, k)
        invariant sr.c == if k == 0 then carry else Accu(n) >= 0
      {
        Div(reg, n);
      }
    }

    /** dsp_norm: one normalise step, counting in address register rr. */
    method Norm(n: int, rr: int)
      requires Valid() && 0 <= n <= 1 && 0 <= rr < 8
      modifies this`sr, registers
      ensures Valid()
      ensures Normalize.State(Accu(n), registers[R0 + rr], sr)
              == Normalize.NormStep(old(Normalize.State(Accu(n), registers[R0 + rr], sr)))
      ensures forall i | 0 <= i < 64 && i != A2 + n && i != A1 + n && i != A0 + n && i != R0 + rr ::
              registers[i] == old(registers[i])
    {
      var dest := LoadAccu(n);
      registers[R0 + rr], sr := NormLimbs(dest, registers[R0 + rr], sr);
      StoreAccu(n, dest);
    }
  }

  /** The limb arithmetic and flags of dsp_mac and dsp_macr. */
  method Accumulate(source: array<int>, dest: array<int>, rounding: bool, f: Flags) returns (g: Flags)
    requires source != dest && source.Length == 3 && dest.Length == 3
    requires IsLimbs(source[..]) && IsLimbs(dest[..])
    modifies dest
    ensures IsLimbs(dest[..])
    ensures var sum := Wrap56(old(Signed(dest[..])) + Signed(source[..]));
            Signed(dest[..]) == if rounding then Wrap56(RoundHalfEven(sum, Granularity(f.s0, f.s1))) else sum
    ensures var lost := !Fits56(old(Signed(dest[..])) + Signed(source[..]));
            g == CcrOf(f, Signed(dest[..])).(v := lost, l := f.l || lost)
  {
    var overflow, carry := Add56(source, dest);
    if rounding {
      Rnd56(dest, f.s0, f.s1);
    }
    CcrMeaning(f, dest[..]);
    g := SetCcr(f, dest[..]).(v := overflow, l := f.l || overflow);
  }

  /** The subtraction of dsp_cmp: the difference itself is thrown away. */
  method CompareLimbs(source: array<int>, dest: array<int>, f: Flags) returns (g: Flags)
    requires source != dest && source.Length == 3 && dest.Length == 3
    requires IsLimbs(source[..]) && IsLimbs(dest[..])
    modifies dest
    ensures Compared(g, old(Signed(dest[..])), Signed(source[..]))
    ensures g.l == (f.l || g.v) && g.s0 == f.s0 && g.s1 == f.s1
  {
    ghost var d := dest[..];
    var overflow, carry := Sub56(source, dest);
    g := SetCcr(f, dest[..]).(v := overflow, c := carry, l := f.l || overflow);
    CompareFlags(f, d, source[..], dest[..], g);
  }

  lemma CompareFlags(f: Flags, d: seq<int>, s: seq<int>, r: seq<int>, g: Flags)
    requires IsLimbs(d) && IsLimbs(s) && IsLimbs(r)
    requires Signed(r) == Wrap56(Signed(d) - Signed(s))
    requires g.c == (Unsigned(d) < Unsigned(s)) && g.v == !Fits56(Signed(d) - Signed(s))
    requires g == SetCcr(f, r).(c := g.c, v := g.v, l := g.l)
    ensures Compared(g, Signed(d), Signed(s))
  {
    UnsignedOf(d);
    UnsignedOf(s);
    CcrMeaning(f, r);
  }

  /** The arithmetic of dsp_norm on limbs. */
  method NormLimbs(dest: array<int>, r: int, f: Flags) returns (newr: int, g: Flags)
    requires dest.Length == 3 && IsLimbs(dest[..]) && 0 <= r < 0x1_0000
    modifies dest
    ensures IsLimbs(dest[..]) && 0 <= newr < 0x1_0000
    ensures Normalize.State(Signed(dest[..]), newr, g)
            == Normalize.NormStep(Normalize.State(old(Signed(dest[..])), r, f))
  {
    var euz := !f.e && f.u && !f.z;
    var overflow, carry := false, false;
    newr := r;
    if euz {
      overflow, carry := Asl56(dest);
      newr := (r - 1) % 0x1_0000;
    } else if f.e {
      carry := Asr56(dest);
      newr := (r + 1) % 0x1_0000;
    }
    CcrMeaning(f, dest[..]);
    g := SetCcr(f, dest[..]).(v := overflow, c := carry, l := f.l || overflow);
  }

  lemma EvenWrap(x: int)
    ensures Wrap56(2 * x) % 2 == 0
  {
    var q := (2 * x + 0x80_0000_0000_0000) / 0x100_0000_0000_0000;
    assert Wrap56(2 * x) == 2 * (x - q * 0x80_0000_0000_0000);
  }

  /** Adding or subtracting a divisor in the upper limbs leaves the bit shifted in clear. */
  lemma LowBitClear(a2: int, w: int, d: seq<int>)
    requires IsLimbs(d) && a2 % 2 == 0
    requires Signed(d) == Wrap56(a2 + w * 0x100_0000)
    ensures d[2] % 2 == 0
  {
    EvenWrap(a2 / 2 + w * 0x80_0000);
    assert Signed(d) % 2 == d[2] % 2;
  }

  /** The arithmetic of dsp_div on limbs: the quotient bit goes into a clear bit, so OR is addition. */
  method DivLimbs(source: array<int>, dest: array<int>, add: bool, bit: int, ghost s: int) returns (overflow: bool)
    requires source != dest && source.Length == 3 && dest.Length == 3
    requires IsLimbs(source[..]) && IsLimbs(dest[..]) && Signed(source[..]) == s * 0x100_0000
    requires add == ((Signed(dest[..]) < 0) != (s < 0)) && bit in {0, 1}
    modifies dest
    ensures IsLimbs(dest[..])
    ensures Signed(dest[..]) == Divide.DivStep(old(Signed(dest[..])), bit == 1, s)
    ensures overflow <==> !Fits56(2 * old(Signed(dest[..])))
  {
    ghost var a := Signed(dest[..]);
    var carry: bool;
    overflow, carry := Asl56(dest);
    EvenWrap(a);
    ghost var a2 := Signed(dest[..]);
    var v, c;
    if add {
      v, c := Add56(source, dest);
    } else {
      v, c := Sub56(source, dest);
    }
    LowBitClear(a2, if add then s else -s, dest[..]);
    SetLowBit(dest, bit);
  }

  method SetLowBit(dest: array<int>, bit: int)
    requires dest.Length == 3 && IsLimbs(dest[..]) && dest[2] % 2 == 0 && bit in {0, 1}
    modifies dest
    ensures IsLimbs(dest[..]) && Signed(dest[..]) == old(Signed(dest[..])) + bit
  {
    dest[2] := dest[2] + bit;
  }

  lemma ProductFits(v: int, w: int)
    requires 0 <= v < 0x100_0000 && 0 <= w < 0x100_0000
    ensures -0x4000_0000_0000 <= Signed24(v) * Signed24(w) <= 0x4000_0000_0000
  {
    ProductSign(v, w, Magnitude(v), Magnitude(w));
    ProductBound(Magnitude(v), Magnitude(w), 0x80_0000, 0x80_0000);
  }

  /** Rounding keeps 24 bits of the range of the scaling mode: its unit is the limit divided by 2^23. */
  lemma RoundsToUpperWord(f: Flags)
    requires !(f.s0 && f.s1)
    ensures Granularity(f.s0, f.s1) * 0x80_0000 == Limit(Scaling(f))
  {
  }
}
