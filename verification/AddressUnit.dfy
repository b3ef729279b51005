/** The address registers of the DSP56001 and their update modes (src/dsp_cpu.c:1347-1450). */
module AddressUnit {
  import opened Division
  import opened BitReverse
  import opened Circular

  const R0 := 0x10
  const N0 := 0x18
  const M0 := 0x20

  class AddressRegisters {
    const registers: array<int>

    ghost predicate Valid()
      reads this, registers
    {
      registers.Length == 64 && forall i | R0 <= i < M0 + 8 :: 0 <= registers[i] < 0x1_0000
    }

    /** The address registers are part of the register file that the data ALU works on. */
    constructor (registers: array<int>)
      requires registers.Length == 64 && forall i | R0 <= i < M0 + 8 :: 0 <= registers[i] < 0x1_0000
      ensures Valid() && this.registers == registers
    {
      this.registers := registers;
    }

    /** dsp_update_rn: the M register chooses the kind of update. */
    method UpdateRn(num: int, modifier: int)
      requires Valid() && 0 <= num < 8 && -0x8000 <= modifier < 0x8000
      modifies registers
      ensures forall i | 0 <= i < 64 && i != 0x10 + num :: registers[i] == old(registers[i])
      ensures var r, n, m := old(registers[0x10 + num]), old(registers[0x18 + num]), old(registers[0x20 + num]);
              registers[0x10 + num] ==
                if m == 0 then Step(r, LowestBit(n, 0) + 1)
                else if m <= 0x7fff then ModuloUpdate(r, m, modifier)
                else if m == 0xffff then (r + modifier) % 0x1_0000
                else r
      ensures Valid() <==> !(old(registers[0x20 + num]) == 0 && old(registers[0x18 + num]) == 0)
    {
      var m := registers[M0 + num];
      StaysIff(registers[R0 + num], registers[N0 + num]);
      if m == 0 {
        UpdateBitReverse(num);
      } else if 1 <= m <= 0x7fff {
        UpdateModulo(num, modifier);
      } else if m == 0xffff {
        var value := Sint16(Sint16(registers[R0 + num]) + modifier);
        LinearSum(registers[R0 + num], modifier);
        registers[R0 + num] := value % 0x1_0000;
      }
    }

    /** dsp_update_rn_bitreverse. */
    method UpdateBitReverse(num: int)
      requires Valid() && 0 <= num < 8
      modifies registers
      ensures registers[R0 + num] == Step(old(registers[R0 + num]), LowestBit(old(registers[N0 + num]), 0) + 1)
      ensures forall i | 0 <= i < 64 && i != R0 + num :: registers[i] == old(registers[i])
    {
      var revbits := CountBits(registers[N0 + num]);
      registers[R0 + num] := StepReversed(registers[R0 + num], revbits);
    }

    /** dsp_update_rn_modulo. */
    method UpdateModulo(num: int, modifier: int)
      requires Valid() && 0 <= num < 8 && -0x8000 <= modifier < 0x8000
      requires 1 <= registers[M0 + num] <= 0x7fff
      modifies registers
      ensures registers[R0 + num] == ModuloUpdate(old(registers[R0 + num]), old(registers[M0 + num]), modifier)
      ensures forall i | 0 <= i < 64 && i != R0 + num :: registers[i] == old(registers[i])
    {
      var modulo := registers[M0 + num] + 1;
      var bufsize, bufmask := 1, 0xffff;
      while bufsize < modulo
        invariant 1 <= bufsize && Grow(bufsize, modulo) == BufSize(modulo)
        invariant bufsize < 2 * modulo && bufmask == 0x1_0000 - bufsize
      {
        bufsize := bufsize * 2;
        bufmask := bufmask * 2 % 0x1_0000;
      }
      var r := registers[R0 + num];
      // The mask clears the bits below the block size.
      var lobound := r - r % (0x1_0000 - bufmask);
      var hibound := lobound + modulo - 1;

      var rReg := Sum16(Sint16(r), modifier, modulo, bufsize);
      if modifier != modulo {
        if rReg > hibound {
          rReg := Sint16(rReg - modulo);
        } else if rReg < lobound {
          rReg := Sint16(rReg + modulo);
        }
      }
      registers[R0 + num] := rReg % 0x1_0000;
    }
  }

  /** How many bits dsp_update_rn_bitreverse reverses. */
  method CountBits(value: nat) returns (revbits: nat)
    ensures revbits == LowestBit(value, 0) + 1
  {
    revbits := 0;
    while revbits < 16 && value / Power2(revbits) % 2 == 0
      invariant revbits <= 16 && LowestBit(value, revbits) == LowestBit(value, 0)
    {
      revbits := revbits + 1;
    }
    revbits := revbits + 1;
  }

  /** Reverse, count up within the field, reverse back. */
  method StepReversed(r: nat, revbits: nat) returns (next: nat)
    ensures next == Step(r, revbits)
  {
    var field := ReverseField(r, revbits);
    UpperDrops(r, revbits, Rev(r, revbits) + 1);
    field := CountUp(field, 1, revbits);
    FieldOf(r, revbits, field);
    next := ReverseField(Upper(r, revbits) + field, revbits);
  }

  /** The sum of address and modifier: the block-sized strides only split it into smaller additions. */
  method Sum16(r: int, n: int, modulo: int, bufsize: int) returns (sum: int)
    requires -0x8000 <= r < 0x8000 && -0x8000 <= n < 0x8000 && 1 <= bufsize
    ensures sum == Sint16(r + n)
  {
    sum := r;
    var modifier := n;
    if n > modulo {
      while modifier > bufsize
        invariant Sint16(sum + modifier) == Sint16(r + n)
      {
        Sint16Sum(sum + bufsize, modifier - bufsize);
        sum := Sint16(sum + bufsize);
        modifier := modifier - bufsize;
      }
      while modifier < -bufsize
        invariant Sint16(sum + modifier) == Sint16(r + n)
        decreases -modifier
      {
        Sint16Sum(sum - bufsize, modifier + bufsize);
        sum := Sint16(sum - bufsize);
        modifier := modifier + bufsize;
      }
    }
    sum := Sint16(sum + modifier);
  }

  lemma Sint16Sum(x: int, y: int)
    ensures Sint16(Sint16(x) + y) == Sint16(x + y)
  {
    ReduceSummand(x + 0x8000, y, 0x1_0000);
  }

  lemma LinearSum(r: int, n: int)
    ensures Sint16(Sint16(r) + n) % 0x1_0000 == (r + n) % 0x1_0000
  {
    Sint16Sum(r, n);
    ReduceSummand(r + n + 0x8000, -0x8000, 0x1_0000);
  }

  /** The loop that reverses the low bits of an address and leaves the others in place. */
  method ReverseField(r: nat, revbits: nat) returns (value: nat)
    ensures value == Upper(r, revbits) + Rev(r, revbits)
  {
    value := Upper(r, revbits);
    var i := 0;
    while i < revbits
      invariant 0 <= i <= revbits
      invariant value + Rev(Over(r, Power2(i)), revbits - i) == Upper(r, revbits) + Rev(r, revbits)
    {
      HalveQuotient(r, Power2(i));
      if Over(r, Power2(i)) % 2 == 1 {
        value := value + Power2(revbits - i - 1);
      }
      i := i + 1;
    }
  }

  lemma HalveQuotient(x: nat, p: nat)
    requires 0 < p
    ensures Over(x, p) / 2 == Over(x, 2 * p)
  {
    var h, bit := Over(x, p) / 2, Over(x, p) % 2;
    HalvedProduct(h, bit, p);
    Quotient(x, 2 * p, h, x % p + (if bit == 1 then p else 0));
  }

  lemma HalvedProduct(h: int, bit: int, p: int)
    requires bit in {0, 1}
    ensures (2 * h + bit) * p == h * (2 * p) + (if bit == 1 then p else 0)
  {
    Distribute(2 * h, bit, p);
    Associate(h, 2, p);
  }

  lemma UpperDrops(r: nat, k: nat, x: nat)
    ensures (Upper(r, k) + x) % Power2(k) == x % Power2(k)
  {
    var p := Power2(k);
    Quotient(Upper(r, k), p, Over(r, p), 0);
    ReduceSummand(Upper(r, k), x, p);
  }

  /** With N = 0 no bit is found, 17 bits are reversed, and the register leaves its 16 bits. */
  lemma ZeroModifierOverflows(r: nat)
    requires r < 0x1_0000
    ensures Step(r, LowestBit(0, 0) + 1) == r + 0x1_0000
  {
    NoLowestBit(0);
    Power16();
    StepCarriesOut(r, 16);
  }

  /** A field one bit wider than the address counts into the extra bit first. */
  lemma StepCarriesOut(r: nat, k: nat)
    requires r < Power2(k)
    ensures Step(r, k + 1) == r + Power2(k)
  {
    var x := 2 * Rev(r, k);
    Quotient(r, Power2(k + 1), 0, r);
    RevTopBit(r, false, k);
    Quotient(x + 1, Power2(k + 1), 0, x + 1);
    RevTwiceSmall(r, k);
    Quotient(x + 1, 2, Rev(r, k), 1);
  }

  /** With any other N the update stays within 16 bits. */
  lemma StaysIff(r: nat, n: nat)
    requires r < 0x1_0000 && n < 0x1_0000
    ensures Step(r, LowestBit(n, 0) + 1) < 0x1_0000 <==> n != 0
  {
    if n == 0 {
      ZeroModifierOverflows(r);
    } else {
      Power16();
      LowestBitExists(n, 0);
      AddPowerIsStep(r, LowestBit(n, 0), 16);
    }
  }

  lemma {:induction false} NoLowestBit(from: nat)
    requires from <= 16
    ensures LowestBit(0, from) == 16
    decreases 16 - from
  {
    if from < 16 {
      Quotient(0, Power2(from), 0, 0);
      NoLowestBit(from + 1);
    }
  }
}
