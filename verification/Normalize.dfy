/** The normalise step of the DSP56001 on integers, and where repeating it ends (src/dsp_cpu.c:2685-2726). */
module Normalize {
  import opened Accumulator
  import opened ConditionCodes
  import opened Division

  /** Accumulator, address register and flags: what NORM reads and writes. */
  datatype State = State(a: int, r: int, f: Flags)

  function NormStep(st: State): State {
    var f := st.f;
    if !f.e && f.u && !f.z then
      var lost := !Fits56(2 * st.a);
      State(Wrap56(2 * st.a), (st.r - 1) % 0x1_0000,
            CcrOf(f, Wrap56(2 * st.a)).(c := st.a < 0, v := lost, l := f.l || lost))
    else if f.e then
      State(st.a / 2, (st.r + 1) % 0x1_0000, CcrOf(f, st.a / 2).(c := st.a % 2 == 1, v := false))
    else
      State(st.a, st.r, CcrOf(f, st.a).(c := false, v := false))
  }

  function NormRun(st: State, k: nat): State
    decreases k
  {
    if k == 0 then st else NormRun(NormStep(st), k - 1)
  }

  /** The flags describe the accumulator, and the scaling mode is not the reserved one. */
  predicate InSync(st: State) {
    Fits56(st.a) && !(st.f.s0 && st.f.s1) && Describes(st.f, st.a)
  }

  /** NORM would leave accumulator and address register alone. */
  predicate Settled(st: State) {
    NormStep(st).a == st.a && NormStep(st).r == st.r
  }

  lemma HalvedFits(a: int)
    requires Fits56(a)
    ensures Fits56(a / 2)
  {
  }

  lemma DoubledFits(a: int)
    requires -0x8000_0000_0000 <= a < 0x8000_0000_0000
    ensures Fits56(2 * a) && Wrap56(2 * a) == 2 * a
  {
    WrapsTo(2 * a, 2 * a, 0);
  }

  /** Within E's range, U says that the accumulator uses less than half of that range. */
  lemma UnnormalizedRange(v: int, h: int)
    requires 0 < h && -2 * h <= v < 2 * h
    ensures v / h % 4 in {0, 3} <==> -h <= v < h
  {
    var q := if v < -h then -2 else if v < 0 then -1 else if v < h then 0 else 1;
    assert q * h == if q == -2 then -2 * h else if q == -1 then -h else if q == 0 then 0 else h;
    Quotient(v, h, q, v - q * h);
  }

  /** One step on the number alone: which way it shifts, +1 being right. `unit` bounds E's range. */
  function Direction(a: int, unit: int): int {
    if a == 0 then 0 else if -unit <= 2 * a < unit then -1 else if -unit <= a < unit then 0 else 1
  }

  function Shifted(a: int, unit: int): int {
    if Direction(a, unit) == -1 then 2 * a else if Direction(a, unit) == 1 then a / 2 else a
  }

  lemma StepIsShift(st: State)
    requires InSync(st)
    ensures InSync(NormStep(st)) && Unit(NormStep(st).f) == Unit(st.f)
    ensures NormStep(st).a == Shifted(st.a, Unit(st.f))
    ensures Direction(st.a, Unit(st.f)) == 0 ==> Settled(st) && (st.a != 0 ==> !st.f.e && !st.f.u)
    ensures Direction(st.a, Unit(st.f)) != 0 ==> NormStep(st).r == (st.r + Direction(st.a, Unit(st.f))) % 0x1_0000
  {
    UnnormalizedSense(st);
    if st.f.e {
      HalvedFits(st.a);
    } else if st.f.u && !st.f.z {
      DoubledFits(st.a);
    }
  }

  /** The flags in sync tell the direction. */
  lemma UnnormalizedSense(st: State)
    requires InSync(st)
    ensures Direction(st.a, Unit(st.f)) == if st.f.e then 1 else if st.f.u && !st.f.z then -1 else 0
  {
    if !st.f.e {
      UnnormalizedRange(st.a, Unit(st.f) / 2);
    }
  }

  /** Flags stay in sync over any number of steps. */
  lemma {:induction false} RunStaysInSync(st: State, k: nat)
    requires InSync(st)
    ensures InSync(NormRun(st, k)) && Unit(NormRun(st, k).f) == Unit(st.f)
    decreases k
  {
    if k > 0 {
      StepIsShift(st);
      RunStaysInSync(NormStep(st), k - 1);
    }
  }

  /** The first k steps all shift in direction d. */
  predicate AllShift(a: int, unit: int, d: int, k: nat)
    decreases k
  {
    k == 0 || (Direction(a, unit) == d && AllShift(Shifted(a, unit), unit, d, k - 1))
  }

  function ShiftRun(a: int, unit: int, k: nat): int
    decreases k
  {
    if k == 0 then a else ShiftRun(Shifted(a, unit), unit, k - 1)
  }

  lemma {:induction false} RunIsShiftRun(st: State, d: int, k: nat)
    requires InSync(st) && AllShift(st.a, Unit(st.f), d, k) && d in {-1, 1} && 0 <= st.r < 0x1_0000
    ensures NormRun(st, k).a == ShiftRun(st.a, Unit(st.f), k) && NormRun(st, k).r == (st.r + d * k) % 0x1_0000
    decreases k
  {
    if k > 0 {
      StepIsShift(st);
      RunIsShiftRun(NormStep(st), d, k - 1);
      ReduceSummand(st.r + d, d * (k - 1), 0x1_0000);
    }
  }

  /** Where a run of shifts in one direction ends. */
  lemma EndOfRun(st: State, d: int, k: nat)
    requires InSync(st) && AllShift(st.a, Unit(st.f), d, k) && d in {-1, 1} && 0 <= st.r < 0x1_0000
    requires Direction(ShiftRun(st.a, Unit(st.f), k), Unit(st.f)) == 0 && ShiftRun(st.a, Unit(st.f), k) != 0
    ensures Settled(NormRun(st, k)) && InSync(NormRun(st, k)) && !NormRun(st, k).f.e && !NormRun(st, k).f.u
    ensures NormRun(st, k).a == ShiftRun(st.a, Unit(st.f), k) && NormRun(st, k).r == (st.r + d * k) % 0x1_0000
  {
    RunIsShiftRun(st, d, k);
    RunStaysInSync(st, k);
    StepIsShift(NormRun(st, k));
  }

  /** Shifting left: m doublings are enough once they would carry the number past half the range. */
  lemma {:induction false} LeftRun(a: int, unit: int, m: nat) returns (k: nat)
    requires 0 < unit && -unit <= a < unit && a != 0
    requires 2 * (a * Power2(m)) >= unit || 2 * (a * Power2(m)) < -unit
    ensures k <= m && AllShift(a, unit, -1, k) && ShiftRun(a, unit, k) == a * Power2(k)
    ensures Direction(ShiftRun(a, unit, k), unit) == 0 && ShiftRun(a, unit, k) != 0
    decreases m
  {
    if Direction(a, unit) == 0 {
      k := 0;
    } else {
      assert m > 0 by { assert a * Power2(0) == a; }
      DoubledPower(a, m);
      var k' := LeftRun(2 * a, unit, m - 1);
      k := k' + 1;
      DoubledPower(a, k);
    }
  }

  lemma DoubledPower(a: int, m: nat)
    requires m > 0
    ensures a * Power2(m) == 2 * a * Power2(m - 1)
  {
    var p := Power2(m - 1);
    assert a * (2 * p) == 2 * a * p;
  }

  function Scaled(unit: int, m: nat): int {
    if m == 0 then unit else 2 * Scaled(unit, m - 1)
  }

  /** Shifting right: m halvings are enough for a number of m extra bits. */
  lemma {:induction false} RightRun(a: int, unit: int, m: nat) returns (k: nat)
    requires 0 < unit && unit % 2 == 0 && (2 * a >= unit || 2 * a < -unit)
    requires -Scaled(unit, m) <= a < Scaled(unit, m)
    ensures k <= m && AllShift(a, unit, 1, k) && ShiftRun(a, unit, k) == a / Power2(k)
    ensures Direction(ShiftRun(a, unit, k), unit) == 0 && ShiftRun(a, unit, k) != 0
    decreases m
  {
    if Direction(a, unit) == 0 {
      k := 0;
    } else {
      HalfRange(a, unit, Scaled(unit, m - 1));
      var k' := RightRun(a / 2, unit, m - 1);
      k := k' + 1;
      HalveThenDivide(a, Power2(k'));
    }
  }

  lemma HalfRange(a: int, unit: int, b: int)
    requires -2 * b <= a < 2 * b && 0 < unit && unit % 2 == 0 && !(-unit <= a < unit)
    ensures -b <= a / 2 < b && (2 * (a / 2) >= unit || 2 * (a / 2) < -unit)
  {
  }

  /** How many doublings, and how many halvings, normalising may take in the scaling mode. */
  function MaxLeft(f: Flags): nat {
    if f.s0 then 48 else if f.s1 then 46 else 47
  }

  function MaxRight(f: Flags): nat {
    if f.s0 then 7 else if f.s1 then 9 else 8
  }

  lemma Powers()
    ensures Power2(46) == 0x4000_0000_0000 && Power2(47) == 0x8000_0000_0000 && Power2(48) == 0x1_0000_0000_0000
  {
    assert Power2(6) == 0x40;
    assert Power2(12) == 0x1000;
    assert Power2(18) == 0x4_0000;
    assert Power2(24) == 0x100_0000;
    assert Power2(30) == 0x4000_0000;
    assert Power2(36) == 0x10_0000_0000;
    assert Power2(42) == 0x400_0000_0000;
  }

  /** The step counts suffice for every 56-bit number. */
  lemma EnoughSteps(a: int, f: Flags)
    requires Fits56(a) && !(f.s0 && f.s1)
    ensures -Scaled(Unit(f), MaxRight(f)) <= a < Scaled(Unit(f), MaxRight(f))
    ensures a != 0 ==> 2 * (a * Power2(MaxLeft(f))) >= Unit(f) || 2 * (a * Power2(MaxLeft(f))) < -Unit(f)
  {
    Powers();
    var u := Unit(f);
    assert Scaled(u, 3) == 8 * u;
    assert Scaled(u, 6) == 64 * u;
    assert Scaled(u, 9) == 512 * u;
  }

  /**
   * k steps end normalised: NORM leaves the state alone, the flags still describe it, doublings have
   * lost nothing, halvings only the bits shifted out, and the address register has counted the shifts.
   */
  predicate NormalisedAfter(st: State, k: nat)
    requires !(st.f.s0 && st.f.s1)
  {
    var end := NormRun(st, k);
    && Settled(end) && InSync(end)
    && (st.a != 0 ==> !end.f.e && !end.f.u)
    && (if st.f.e
        then k <= MaxRight(st.f) && end.a == st.a / Power2(k) && end.r == (st.r + k) % 0x1_0000
        else k <= MaxLeft(st.f) && end.a == st.a * Power2(k) && end.r == (st.r - k) % 0x1_0000)
  }

  /** Repeated NORM ends normalised in every scaling mode, after at most 48 steps. */
  lemma {:induction false} NormTheorem(st: State)
    requires InSync(st) && 0 <= st.r < 0x1_0000
    ensures exists k: nat :: NormalisedAfter(st, k)
  {
    var k := StepsToSettle(st);
    assert NormalisedAfter(st, k);
  }

  lemma StepsToSettle(st: State) returns (k: nat)
    requires InSync(st) && 0 <= st.r < 0x1_0000
    ensures NormalisedAfter(st, k)
  {
    EnoughSteps(st.a, st.f);
    if st.f.e {
      k := SettleRight(st, MaxRight(st.f));
    } else if st.a != 0 {
      k := SettleLeft(st, MaxLeft(st.f));
    } else {
      k := 0;
      StepIsShift(st);
    }
  }

  lemma SettleRight(st: State, m: nat) returns (k: nat)
    requires InSync(st) && 0 <= st.r < 0x1_0000 && st.f.e && m <= MaxRight(st.f)
    requires -Scaled(Unit(st.f), m) <= st.a < Scaled(Unit(st.f), m)
    ensures NormalisedAfter(st, k)
  {
    k := RightRun(st.a, Unit(st.f), m);
    EndOfRun(st, 1, k);
  }

  lemma SettleLeft(st: State, m: nat) returns (k: nat)
    requires InSync(st) && 0 <= st.r < 0x1_0000 && !st.f.e && st.a != 0 && m <= MaxLeft(st.f)
    requires 2 * (st.a * Power2(m)) >= Unit(st.f) || 2 * (st.a * Power2(m)) < -Unit(st.f)
    ensures NormalisedAfter(st, k)
  {
    k := LeftRun(st.a, Unit(st.f), m);
    EndOfRun(st, -1, k);
  }
}
