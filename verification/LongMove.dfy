/**
 * Long moves between an accumulator and the X:Y pair at one address, with the limiter
 * (src/dsp_cpu.c:2951-2994, 3284-3367, 2922-2949).
 */
module LongMove {
  import opened Accumulator
  import opened ConditionCodes
  import opened DataAlu
  import opened Division
  import opened DspMemory

  /** The nearest number that 48 bits can hold. */
  function Clamp48(v: int): int {
    if v < -0x8000_0000_0000 then -0x8000_0000_0000
    else if v > 0x7fff_ffff_ffff then 0x7fff_ffff_ffff
    else v
  }

  /** The limiter's range test in a scaling mode. */
  predicate InRange(d: seq<int>, scaling: int)
    requires IsLimbs(d)
  {
    PassesTest(d[0], d[1], scaling)
  }

  method TestRange(high: int, upper: int, scaling: int) returns (passes: bool)
    ensures passes == PassesTest(high, upper, scaling)
  {
    var value, numbits := high, 8;
    if scaling == 0 {
      value, numbits := value * 2 + upper / 0x80_0000 % 2, 9;
    } else if scaling == 2 {
      value, numbits := value * 4 + upper / 0x40_0000 % 4, 10;
    }
    var ones := if numbits == 8 then 0xff else if numbits == 9 then 0x1ff else 0x3ff;
    passes := value == 0 || value == ones;
  }

  lemma InRangeMeaning(d: seq<int>, scaling: int)
    requires IsLimbs(d) && 0 <= scaling < 4
    ensures InRange(d, scaling) <==> -Limit(scaling) <= Signed(d) < Limit(scaling)
  {
    TestMeaning(d, scaling);
  }

  /** The words a long store writes: upper to X, lower to Y. */
  function Stored(d: seq<int>, scaling: int): (int, int)
    requires IsLimbs(d)
  {
    if InRange(d, scaling) then (d[1], d[2])
    else if d[0] >= 0x80 then (0x80_0000, 0)
    else (0x7f_ffff, 0xff_ffff)
  }

  /** The limbs a long load makes of two words. */
  function Loaded(words: (int, int)): seq<int> {
    [if words.0 / 0x80_0000 % 2 == 1 then 0xff else 0, words.0, words.1]
  }

  /** What comes back: the stored 48 bits sign-extended, or the limit. */
  lemma RoundTripValue(d: seq<int>, scaling: int)
    requires IsLimbs(d) && 0 <= scaling < 4
    ensures IsLimbs(Loaded(Stored(d, scaling)))
    ensures scaling == 0 ==> Signed(Loaded(Stored(d, scaling))) == Clamp48(Signed(d))
  {
    InRangeMeaning(d, scaling);
  }

  /**
   * In every mode: beyond the limit the largest or smallest 48-bit number, within it the low 48 bits of the
   * number. Mode 3 has the limit of mode 1.
   */
  lemma RoundTripInModes(d: seq<int>, scaling: int)
    requires IsLimbs(d) && 0 <= scaling < 4
    ensures var v, limit := Signed(d), if scaling == 0 then 0x8000_0000_0000
                                       else if scaling == 2 then 0x4000_0000_0000
                                       else 0x1_0000_0000_0000;
            Signed(Loaded(Stored(d, scaling)))
            == if v >= limit then 0x7fff_ffff_ffff
               else if v < -limit then -0x8000_0000_0000
               else (v + 0x8000_0000_0000) % 0x1_0000_0000_0000 - 0x8000_0000_0000
  {
    InRangeMeaning(d, scaling);
    var low := d[1] * 0x100_0000 + d[2];
    var high := if d[0] < 0x80 then d[0] else d[0] - 0x100;
    if low < 0x8000_0000_0000 {
      Quotient(Signed(d) + 0x8000_0000_0000, 0x1_0000_0000_0000, high, low + 0x8000_0000_0000);
    } else {
      Quotient(Signed(d) + 0x8000_0000_0000, 0x1_0000_0000_0000, high + 1, low - 0x8000_0000_0000);
    }
  }

  /** The accumulators for which the round trip saturates to 48 bits as it does in mode 0. */
  predicate Saturates(v: int, scaling: int) {
    if scaling == 0 then true
    else if scaling == 2 then
      -0x4000_0000_0000 <= v < 0x4000_0000_0000 || v >= 0x7fff_ffff_ffff || v <= -0x8000_0000_0000
    else !(-0x1_0000_0000_0000 <= v < -0x8000_0000_0000 || 0x8000_0000_0000 <= v < 0x1_0000_0000_0000)
  }

  /** Exactly those come back clamped: modes 1 and 3 let a 49th bit through, mode 2 limits a bit early. */
  lemma RoundTripIff(d: seq<int>, scaling: int)
    requires IsLimbs(d) && 0 <= scaling < 4
    ensures Signed(Loaded(Stored(d, scaling))) == Clamp48(Signed(d)) <==> Saturates(Signed(d), scaling)
  {
    InRangeMeaning(d, scaling);
  }

  class Mover {
    const mem: Memory
    /** The register file and the status register. */
    const alu: Alu

    ghost predicate Valid()
      reads this, alu, alu.registers, mem, mem.ramint, mem.rom, mem.ram, mem.periph, mem.host, mem.host.hostport
    {
      mem.Valid() && alu.Valid() && alu.registers != mem.ram && alu.registers != mem.host.hostport
    }

    constructor (mem: Memory, alu: Alu)
      requires mem.Valid() && alu.Valid() && alu.registers != mem.ram && alu.registers != mem.host.hostport
      ensures Valid() && this.mem == mem && this.alu == alu
    {
      this.mem, this.alu := mem, alu;
    }

    /** The scaling mode of the status register. */
    function Mode(): (m: int)
      reads alu
      ensures 0 <= m < 4
    {
      Scaling(alu.sr)
    }

    /** dsp_pm_read_accu24: the upper word, limited. */
    method ReadAccu24(n: int) returns (value: int, limited: bool)
      requires Valid() && 0 <= n <= 1
      modifies alu`sr
      ensures Valid()
      ensures value == Stored(alu.Limbs(n), Mode()).0
      ensures limited <==> !InRange(alu.Limbs(n), Mode())
      ensures alu.sr == old(alu.sr).(l := old(alu.sr).l || limited)
    {
      var high, upper := alu.registers[A2 + n], alu.registers[A1 + n];
      var passes := TestRange(high, upper, Mode());
      if passes {
        return upper, false;
      }
      alu.sr := alu.sr.(l := true);
      if SignBit(high) == 1 {
        return 0x80_0000, true;
      }
      return 0x7f_ffff, true;
    }

    /** The store form of dsp_pm_4x for a whole accumulator, with the writes dsp_parmove_write does. */
    method StoreLong(n: int, address: int)
      requires Valid() && 0 <= n <= 1 && 0 <= address < 0x1_0000
      modifies alu`sr, mem.ramint, mem.ram, mem.periph
      modifies mem.host`cell, mem.host`htde, mem.host`rxdf, mem.host`hf2, mem.host`hf3, mem.host.hostport
      ensures Valid() && alu.sr == old(alu.sr).(l := old(alu.sr).l || !InRange(alu.Limbs(n), Mode()))
      ensures forall c: Cell | !ReadOnly(c) :: mem.Held(c) ==
                if c == CellOf(Y, address, mem.tables) then Stored(alu.Limbs(n), Mode()).1
                else if c == CellOf(X, address, mem.tables) then Stored(alu.Limbs(n), Mode()).0
                else old(mem.Held(c))
    {
      var high, limited := ReadAccu24(n);
      var low := alu.registers[A0 + n];
      if limited {
        low := if high / 0x80_0000 % 2 == 1 then 0 else 0xff_ffff;
      }
      mem.WriteLong(address, high, low);
    }

    /** The load form of dsp_pm_4x for a whole accumulator. */
    method LoadLong(n: int, address: int)
      requires Valid() && 0 <= n <= 1 && 0 <= address < 0x1_0000
      modifies alu.registers, mem.host`cell, mem.host`hrdf, mem.host`txde, mem.host`trdy
      ensures Valid() && alu.OnlyAccu(n)
      ensures alu.Limbs(n)
              == Loaded((mem.Held(CellOf(X, address, mem.tables)), mem.Held(CellOf(Y, address, mem.tables))))
    {
      var upper, low := mem.ReadLong(address);
      alu.SetAccu(n, if upper / 0x80_0000 % 2 == 1 then 0xff else 0, upper, low);
    }

    /** Neither a ROM table nor the peripheral window. */
    predicate IsRam(address: int)
      requires 0 <= address < 0x1_0000
      reads mem
    {
      address < 0xffc0 && !CellOf(X, address, mem.tables).Table?
    }

    /** A store and a load of the same address: RAM gives the words stored, a table its own. */
    method PassThrough(n: int, address: int, into: int)
      requires Valid() && 0 <= n <= 1 && 0 <= into <= 1 && 0 <= address < 0x1_0000
      modifies alu`sr, alu.registers, mem.ramint, mem.ram, mem.periph, mem.host, mem.host.hostport
      ensures Valid() && alu.OnlyAccu(into)
      ensures alu.sr == old(alu.sr).(l := old(alu.sr).l || !InRange(old(alu.Limbs(n)), Mode()))
      ensures IsRam(address) ==> alu.Limbs(into) == Loaded(Stored(old(alu.Limbs(n)), Mode()))
      ensures CellOf(X, address, mem.tables).Table? ==>
                alu.Limbs(into) == Loaded((old(mem.Held(Table(X, address))), old(mem.Held(Table(Y, address)))))
    {
      StoreLong(n, address);
      ghost var x, y := CellOf(X, address, mem.tables), CellOf(Y, address, mem.tables);
      ImagesDisjoint(address, mem.tables);
      assert IsRam(address) ==> !ReadOnly(x) && !ReadOnly(y) && !x.Periph? && !y.Periph?;
      ghost var high, low := mem.Held(x), mem.Held(y);
      LoadLong(into, address);
      assert IsRam(address) ==> mem.Held(x) == high && mem.Held(y) == low;
    }

    /**
     * Storing an accumulator in plain RAM and loading it back gives what the scaling mode stores,
     * sign-extended: the number saturated to 48 bits exactly for the numbers that RoundTripIff
     * describes, which in mode 0 are all. L is set exactly when the limiter acted, in mode 0 exactly
     * when the number changed. From a table come the words of the table.
     */
    method StoreThenLoad(n: int, address: int, into: int)
      requires Valid() && 0 <= n <= 1 && 0 <= into <= 1 && 0 <= address < 0x1_0000
      modifies alu`sr, alu.registers, mem.ramint, mem.ram, mem.periph, mem.host, mem.host.hostport
      ensures Valid() && alu.OnlyAccu(into)
      ensures alu.sr == old(alu.sr).(l := old(alu.sr).l || !InRange(old(alu.Limbs(n)), Mode()))
      ensures IsRam(address) ==> alu.Limbs(into) == Loaded(Stored(old(alu.Limbs(n)), Mode()))
      ensures IsRam(address) ==> (alu.Accu(into) == Clamp48(old(alu.Accu(n))) <==> Saturates(old(alu.Accu(n)), Mode()))
      ensures IsRam(address) && Mode() == 0 ==> (InRange(old(alu.Limbs(n)), 0) <==> alu.Accu(into) == old(alu.Accu(n)))
      ensures CellOf(X, address, mem.tables).Table? ==>
                alu.Limbs(into) == Loaded((old(mem.Held(Table(X, address))), old(mem.Held(Table(Y, address)))))
    {
      ghost var d := alu.Limbs(n);
      PassThrough(n, address, into);
      RoundTripIff(d, Mode());
      RoundTripValue(d, Mode());
      InRangeMeaning(d, Mode());
    }
  }
}
