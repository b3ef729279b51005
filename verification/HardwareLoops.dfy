/**
 * The zero-overhead loops and subroutines of the DSP56001 as a state machine (src/dsp_cpu.c:694-753,
 * 1305-1341, 1976-2049, 2317-2336, 2759-2813, 2832-2840), and the structured programs it runs.
 *
 * The data state is kept as the trace of executed instructions: whatever a deterministic program
 * computes, loop counts and status bits included, is a function of that trace.
 */
module HardwareLoops {
  type Trace = seq<int>

  /** What the program memory holds at an address, as far as control flow is concerned. */
  datatype Inst =
    | Plain(id: int, len: int)
    | Do(count: Trace -> int, la: int)
    | Rep(repCount: Trace -> int)
    | Jsr(target: int, len: int)
    | Rts

  /** Program memory, and the low 15 status bits that the last plain instruction of a trace leaves. */
  datatype Program = Program(code: int -> Inst, status: Trace -> int)

  /** `slots` is the hardware stack up to the stack pointer, slot 0 included: pairs of SSH and SSL. */
  datatype State = State(pc: int, la: int, lc: int, lcsave: int, sr: int, slots: seq<(int, int)>,
                         loopRep: bool, pcOnRep: bool, trace: Trace)

  predicate LoopFlag(sr: int) {
    sr / 0x8000 % 2 == 1
  }

  /** Status register with LF kept and the other bits replaced. */
  function WithStatus(sr: int, low: int): int {
    (if LoopFlag(sr) then 0x8000 else 0) + low % 0x8000
  }

  function Top(s: State): (int, int) {
    if s.slots == [] then (0, 0) else s.slots[|s.slots| - 1]
  }

  /** dsp_stack_push into 16-bit slots: nothing happens on a full stack. */
  function Push(s: State, high: int, low: int): State {
    if |s.slots| == 16 then s else s.(slots := s.slots + [(high % 0x1_0000, low % 0x1_0000)])
  }

  function Drop(s: State): State {
    if |s.slots| <= 1 then s else s.(slots := s.slots[..|s.slots| - 1])
  }

  /** The two pops at the end of a loop; popping an empty stack leaves the registers as they are. */
  function EndDo(s: State): State {
    var s1 := if |s.slots| <= 1 then s else Drop(s).(sr := Top(s).1);
    if |s1.slots| <= 1 then s1 else Drop(s1).(la := Top(s1).0, lc := Top(s1).1)
  }

  /** dsp_do with the loop count already read. */
  function StartDo(s: State, la: int, count: int): State {
    var s1 := Push(s, s.la, s.lc).(la := la % 0x1_0000);
    var s2 := Push(s1, s.pc + 2, s.sr);
    s2.(sr := s.sr % 0x8000 + 0x8000, lc := count % 0x1_0000)
  }

  /** dsp_rep with the repeat count already read. */
  function StartRep(s: State, count: int): State {
    s.(lcsave := s.lc, lc := count, pcOnRep := true, loopRep := true)
  }

  /** dsp_jsr: the return address and the status register go to the stack. */
  function StartCall(s: State, target: int, len: int): State {
    Push(s, s.pc + len, s.sr).(pc := target % 0x1_0000)
  }

  /** dsp_rts: the status register stays; from an empty stack it goes to address 0. */
  function Return(s: State): State {
    Drop(s).(pc := if |s.slots| <= 1 then 0 else Top(s).0)
  }

  /** What is pushed comes back, in 16 bits; a full stack takes nothing and an empty one gives nothing. */
  lemma PushThenPop(s: State, high: int, low: int)
    requires 1 <= |s.slots| <= 16
    ensures |s.slots| < 16 ==> Top(Push(s, high, low)) == (high % 0x1_0000, low % 0x1_0000)
    ensures |s.slots| < 16 ==> Drop(Push(s, high, low)) == s && |Push(s, high, low).slots| == |s.slots| + 1
    ensures |s.slots| == 16 ==> Push(s, high, low) == s
    ensures |s.slots| == 1 ==> Drop(s) == s && EndDo(s) == s && Return(s) == s.(pc := 0)
    ensures |s.slots| == 2 ==> EndDo(s) == Drop(s).(sr := Top(s).1)
  {
  }

  /** A return comes back behind the call, with the stack as before it. */
  lemma CallThenReturn(s: State, target: int, len: int)
    requires 1 <= |s.slots| < 16
    ensures StartCall(s, target, len).pc == target % 0x1_0000
    ensures Return(StartCall(s, target, len)) == s.(pc := (s.pc + len) % 0x1_0000)
  {
    PushThenPop(s, s.pc + len, s.sr);
  }

  /** The end of a loop undoes its beginning. */
  lemma DoThenEnd(s: State, la: int, count: int)
    requires 1 <= |s.slots| <= 14 && 0 <= s.lc < 0x1_0000 && 0 <= s.la < 0x1_0000 && 0 <= s.sr < 0x1_0000
    ensures EndDo(StartDo(s, la, count)) == s
    ensures StartDo(s, la, count).la == la % 0x1_0000 && StartDo(s, la, count).lc == count % 0x1_0000
    ensures StartDo(s, la, count).sr == s.sr % 0x8000 + 0x8000
  {
    var r := StartDo(s, la, count);
    SavedByDo(s, la, count);
    PopTwo(r, s.slots, s.la, s.lc, (s.pc + 2) % 0x1_0000, s.sr);
  }

  lemma SavedByDo(s: State, la: int, count: int)
    requires |s.slots| <= 14 && 0 <= s.lc < 0x1_0000 && 0 <= s.la < 0x1_0000 && 0 <= s.sr < 0x1_0000
    ensures StartDo(s, la, count).slots == s.slots + [(s.la, s.lc), ((s.pc + 2) % 0x1_0000, s.sr)]
  {
  }

  lemma PopTwo(s: State, rest: seq<(int, int)>, a: int, b: int, c: int, d: int)
    requires 1 <= |rest| && s.slots == rest + [(a, b), (c, d)]
    ensures EndDo(s) == s.(slots := rest, sr := d, la := a, lc := b)
  {
    assert s.slots[..|s.slots| - 1] == rest + [(a, b)];
    assert (rest + [(a, b)])[..|rest|] == rest;
  }

  /** The first part of dsp_postexecute_update_pc: the REP bookkeeping, which may hold the PC. */
  function RepUpdate(s: State): State {
    if !s.loopRep then s
    else if s.pcOnRep then s.(lc := if s.lc == 0 then 0x1_0000 else s.lc, pcOnRep := false)
    else if (s.lc - 1) % 0x1_0000 > 0 then s.(lc := (s.lc - 1) % 0x1_0000)
    else s.(lc := s.lcsave, loopRep := false)
  }

  predicate Held(s: State) {
    s.loopRep && !s.pcOnRep && (s.lc - 1) % 0x1_0000 > 0
  }

  /** Its last part: the end-of-loop test with the updated PC. */
  function LoopCheck(s: State): State {
    if LoopFlag(s.sr) && s.pc == s.la + 1 then
      var lc := (s.lc - 1) % 0x1_0000;
      if lc == 0 then EndDo(s.(lc := lc)) else s.(lc := lc, pc := Top(s).0)
    else s
  }

  function PostExecute(s: State, len: int): State {
    var s1 := RepUpdate(s);
    LoopCheck(if Held(s) || len == 0 then s1 else s1.(pc := (s1.pc + len) % 0x1_0000))
  }

  /** One instruction. */
  function Step(p: Program, s: State): State {
    match p.code(s.pc)
    case Plain(id, len) =>
      var t := s.trace + [id];
      PostExecute(s.(trace := t, sr := WithStatus(s.sr, p.status(t))), len)
    case Do(count, la) => PostExecute(StartDo(s, la, count(s.trace)), 2)
    case Rep(count) => PostExecute(StartRep(s, count(s.trace)), 1)
    case Jsr(target, len) => PostExecute(StartCall(s, target, len), 0)
    case Rts => PostExecute(Return(s), 0)
  }

  function Steps(step: State -> State, s: State, k: nat): State
    decreases k
  {
    if k == 0 then s else Steps(step, step(s), k - 1)
  }

  lemma {:induction false} StepsAdd(step: State -> State, s: State, j: nat, k: nat)
    ensures Steps(step, s, j + k) == Steps(step, Steps(step, s, j), k)
    decreases j
  {
    if j > 0 { StepsAdd(step, step(s), j - 1, k); }
  }

  // ---- Structured programs ----

  /** A call runs a subroutine at another address, which ends with RTS. */
  datatype Code =
    | Op(id: int, len: int)
    | Seq(first: Code, second: Code)
    | Loop(count: Trace -> int, body: Code)
    | Repeat(times: Trace -> int, id: int, len: int)
    | Call(at: int, body: Code, len: int)

  /** How often a count register value runs a loop: 16 bits, zero standing for 65536. */
  function Times(count: int): (n: nat)
    ensures 1 <= n <= 0x1_0000
  {
    if count % 0x1_0000 == 0 then 0x1_0000 else count % 0x1_0000
  }

  /** The meaning of a structured program on traces. */
  function Run(c: Code, t: Trace): Trace
    decreases c, 0
  {
    match c
    case Op(id, _) => t + [id]
    case Seq(first, second) => Run(second, Run(first, t))
    case Loop(count, body) => Iterate(body, Times(count(t)), t)
    case Repeat(times, id, _) => RepeatOp(id, Times(times(t)), t)
    case Call(_, body, _) => Run(body, t)
  }

  function Iterate(body: Code, n: nat, t: Trace): Trace
    decreases body, n
  {
    if n == 0 then t else Iterate(body, n - 1, Run(body, t))
  }

  function RepeatOp(id: int, n: nat, t: Trace): Trace
    decreases n
  {
    if n == 0 then t else RepeatOp(id, n - 1, t + [id])
  }

  /** The number of program words a structured program takes. */
  function Size(c: Code): int {
    match c
    case Op(_, len) => len
    case Seq(first, second) => Size(first) + Size(second)
    case Loop(_, body) => 2 + Size(body)
    case Repeat(_, _, len) => 1 + len
    case Call(_, _, len) => len
  }

  predicate EndsWithLoop(c: Code) {
    match c
    case Seq(_, second) => EndsWithLoop(second)
    case Loop(_, _) => true
    case _ => false
  }

  /** Instructions have one or two words, and no two nested loops end at the same address. */
  predicate WellFormed(c: Code) {
    match c
    case Op(_, len) => 1 <= len <= 2
    case Seq(first, second) => WellFormed(first) && WellFormed(second)
    case Loop(_, body) => WellFormed(body) && !EndsWithLoop(body)
    case Repeat(_, _, len) => 1 <= len <= 2
    case Call(_, body, len) => WellFormed(body) && 1 <= len <= 2
  }

  /** The same without the condition on loops outside subroutines. */
  predicate Legal(c: Code) {
    match c
    case Op(_, len) => 1 <= len <= 2
    case Seq(first, second) => Legal(first) && Legal(second)
    case Loop(_, body) => Legal(body)
    case Repeat(_, _, len) => 1 <= len <= 2
    case Call(_, body, len) => WellFormed(body) && 1 <= len <= 2
  }

  /** The stack slots that are left behind: a loop whose end is shared, or whose body leaves slots, is never ended. */
  function Leak(c: Code): nat {
    match c
    case Seq(first, second) => Leak(first) + Leak(second)
    case Loop(_, body) => if EndsWithLoop(body) || Leak(body) > 0 then 2 + Leak(body) else 0
    case _ => 0
  }

  lemma {:induction false} LeakIffIllFormed(c: Code)
    requires Legal(c)
    ensures Leak(c) == 0 <==> WellFormed(c)
  {
    match c
    case Seq(first, second) => LeakIffIllFormed(first); LeakIffIllFormed(second);
    case Loop(_, body) => LeakIffIllFormed(body);
    case _ =>
  }

  /** The stack slots a program needs. */
  function Need(c: Code): nat {
    match c
    case Seq(first, second) =>
      if Need(first) < Leak(first) + Need(second) then Leak(first) + Need(second) else Need(first)
    case Loop(_, body) => 2 + Need(body)
    case Call(_, body, _) => 1 + Need(body)
    case _ => 0
  }

  /** No subroutine of the code, or of its subroutines, has an address from lo to hi or one of its own callers. */
  predicate Clear(c: Code, lo: int, hi: int) {
    match c
    case Seq(first, second) => Clear(first, lo, hi) && Clear(second, lo, hi)
    case Loop(_, body) => Clear(body, lo, hi)
    case Call(at, body, _) =>
      (at + Size(body) < lo || hi < at) && Clear(body, lo, hi) && Clear(body, at, at + Size(body))
    case _ => true
  }

  lemma {:induction false} ClearWithin(c: Code, lo: int, hi: int, lo': int, hi': int)
    requires Clear(c, lo, hi) && lo <= lo' && hi' <= hi && lo' <= hi'
    ensures Clear(c, lo', hi')
  {
    match c
    case Seq(first, second) => ClearWithin(first, lo, hi, lo', hi'); ClearWithin(second, lo, hi, lo', hi');
    case Loop(_, body) => ClearWithin(body, lo, hi, lo', hi');
    case Call(_, body, _) => ClearWithin(body, lo, hi, lo', hi');
    case _ =>
  }

  /** The program memory holds the code from address `at` on. */
  ghost predicate Loaded(p: Program, c: Code, at: int) {
    match c
    case Op(id, len) => p.code(at) == Plain(id, len)
    case Seq(first, second) => Loaded(p, first, at) && Loaded(p, second, at + Size(first))
    case Loop(count, body) => p.code(at) == Do(count, at + 1 + Size(body)) && Loaded(p, body, at + 2)
    case Repeat(times, id, len) => p.code(at) == Rep(times) && p.code(at + 1) == Plain(id, len)
    case Call(target, body, len) =>
      && p.code(at) == Jsr(target, len) && Loaded(p, body, target) && p.code(target + Size(body)) == Rts
      && 0 <= target && target + Size(body) <= 0xffff
  }

  lemma {:induction false} SizePositive(c: Code)
    requires Legal(c)
    ensures 1 <= Size(c)
  {
    match c
    case Seq(first, second) => SizePositive(first); SizePositive(second);
    case Loop(_, body) => SizePositive(body);
    case _ =>
  }

  lemma {:induction false} WellFormedIsLegal(c: Code)
    requires WellFormed(c)
    ensures Legal(c)
  {
    match c
    case Seq(first, second) => WellFormedIsLegal(first); WellFormedIsLegal(second);
    case Loop(_, body) => WellFormedIsLegal(body);
    case _ =>
  }

  /** The status register a structured program leaves: a loop restores the whole of it. */
  function FinalSr(p: Program, c: Code, sr: int, t: Trace): int {
    match c
    case Op(_, _) => WithStatus(sr, p.status(Run(c, t)))
    case Seq(first, second) => FinalSr(p, second, FinalSr(p, first, sr, t), Run(first, t))
    case Loop(_, _) => sr
    case Repeat(_, _, _) => WithStatus(sr, p.status(Run(c, t)))
    case Call(_, body, _) => FinalSr(p, body, sr, t)
  }

  /** Everything but the place and the data is as before. */
  function Finished(p: Program, c: Code, s: State): State {
    s.(pc := s.pc + Size(c), trace := Run(c, s.trace), sr := FinalSr(p, c, s.sr, s.trace))
  }

  /** The state after the last instruction, whose end-of-loop test also serves an enclosing loop. */
  function Exit(p: Program, c: Code, s: State): State {
    if EndsWithLoop(c) then Finished(p, c, s) else LoopCheck(Finished(p, c, s))
  }

  /**
   * The machine is about to run c, with room on the stack; no enclosing loop ends inside c or its
   * subroutines, and the subroutines lie apart from the code that calls them.
   */
  ghost predicate Placed(p: Program, c: Code, s: State) {
    && Loaded(p, c, s.pc) && Clear(c, s.pc, s.pc + Size(c))
    && 0 <= s.pc && s.pc + Size(c) <= 0xffff
    && !s.loopRep && !s.pcOnRep
    && 0 <= s.lc < 0x1_0000 && 0 <= s.la < 0x1_0000 && 0 <= s.sr < 0x1_0000
    && 1 <= |s.slots| && |s.slots| + Need(c) <= 16
    && (LoopFlag(s.sr) ==> !(s.pc < s.la + 1 < s.pc + Size(c)) && Clear(c, s.la + 1, s.la + 1))
  }

  ghost predicate Ready(p: Program, c: Code, s: State) {
    WellFormed(c) && Placed(p, c, s)
  }

  /** Running c from address `at` never brings the PC to `stop`. */
  predicate Misses(c: Code, at: int, stop: int) {
    !(at <= stop < at + Size(c)) && Clear(c, stop, stop)
  }

  lemma LoopFlagKept(sr: int, low: int)
    requires 0 <= sr < 0x1_0000
    ensures 0 <= WithStatus(sr, low) < 0x1_0000 && LoopFlag(WithStatus(sr, low)) == LoopFlag(sr)
  {
  }

  lemma {:induction false} FinalSrKeepsLoopFlag(p: Program, c: Code, sr: int, t: Trace)
    requires 0 <= sr < 0x1_0000
    ensures 0 <= FinalSr(p, c, sr, t) < 0x1_0000 && LoopFlag(FinalSr(p, c, sr, t)) == LoopFlag(sr)
    decreases c
  {
    match c
    case Op(_, _) => LoopFlagKept(sr, p.status(Run(c, t)));
    case Seq(first, second) =>
      FinalSrKeepsLoopFlag(p, first, sr, t);
      FinalSrKeepsLoopFlag(p, second, FinalSr(p, first, sr, t), Run(first, t));
    case Loop(_, _) =>
    case Repeat(_, _, _) => LoopFlagKept(sr, p.status(Run(c, t)));
    case Call(_, body, _) => FinalSrKeepsLoopFlag(p, body, sr, t);
  }

  // ---- Single instructions ----

  lemma StepOp(p: Program, c: Code, s: State)
    requires c.Op? && Ready(p, c, s)
    ensures Step(p, s) == Exit(p, c, s)
  {
  }

  /** The state at the start of the loop body with n iterations to go. */
  function InLoop(c: Code, s: State, t: Trace, sr: int, n: nat, save: int): State
    requires c.Loop?
  {
    s.(pc := s.pc + 2, la := s.pc + 1 + Size(c.body), lc := n % 0x1_0000, lcsave := save, sr := sr, trace := t,
       slots := s.slots + [(s.la, s.lc), (s.pc + 2, s.sr)])
  }

  lemma StepDo(p: Program, c: Code, s: State)
    requires c.Loop? && Legal(c.body) && Placed(p, c, s)
    ensures Step(p, s) == InLoop(c, s, s.trace, s.sr % 0x8000 + 0x8000, Times(c.count(s.trace)), s.lcsave)
  {
    SizePositive(c.body);
    StartLoop(c, s, c.count(s.trace));
  }

  lemma StartLoop(c: Code, s: State, count: int)
    requires c.Loop? && 0 <= s.pc && s.pc + Size(c) <= 0xffff && 1 <= Size(c.body) && |s.slots| <= 14 && !s.loopRep
    requires 0 <= s.lc < 0x1_0000 && 0 <= s.la < 0x1_0000 && 0 <= s.sr < 0x1_0000
    ensures PostExecute(StartDo(s, s.pc + 1 + Size(c.body), count), 2)
            == InLoop(c, s, s.trace, s.sr % 0x8000 + 0x8000, Times(count), s.lcsave)
  {
    var start := InLoop(c, s, s.trace, s.sr % 0x8000 + 0x8000, Times(count), s.lcsave);
    StartDoIs(s, s.pc + 1 + Size(c.body), count);
    assert StartDo(s, s.pc + 1 + Size(c.body), count) == start.(pc := s.pc);
    PostExecutePlain(start.(pc := s.pc), 2);
  }

  lemma StartDoIs(s: State, la: int, count: int)
    requires 0 <= s.pc && s.pc + 2 < 0x1_0000 && 0 <= la < 0x1_0000 && |s.slots| <= 14
    requires 0 <= s.lc < 0x1_0000 && 0 <= s.la < 0x1_0000 && 0 <= s.sr < 0x1_0000
    ensures StartDo(s, la, count) == s.(la := la, lc := Times(count) % 0x1_0000, sr := s.sr % 0x8000 + 0x8000,
                                        slots := s.slots + [(s.la, s.lc), (s.pc + 2, s.sr)])
  {
    assert s.slots + [(s.la, s.lc)] + [(s.pc + 2, s.sr)] == s.slots + [(s.la, s.lc), (s.pc + 2, s.sr)];
  }

  /** Outside REP and away from the end of a loop the PC just moves on, in 16 bits. */
  lemma PostExecutePlain(s: State, len: int)
    requires !s.loopRep && 0 <= s.pc < 0x1_0000 && 0 <= len
    requires LoopFlag(s.sr) ==> (s.pc + len) % 0x1_0000 != s.la + 1
    ensures PostExecute(s, len) == s.(pc := (s.pc + len) % 0x1_0000)
  {
  }

  /** The state at the start of a subroutine. */
  function InCall(c: Code, s: State): State
    requires c.Call?
  {
    s.(pc := c.at, slots := s.slots + [(s.pc + c.len, s.sr)])
  }

  lemma StepCall(p: Program, c: Code, s: State)
    requires c.Call? && Ready(p, c, s)
    ensures Step(p, s) == InCall(c, s)
  {
    WellFormedIsLegal(c.body);
    SizePositive(c.body);
  }

  lemma CalledReady(p: Program, c: Code, s: State)
    requires c.Call? && Ready(p, c, s)
    ensures Ready(p, c.body, InCall(c, s)) && Exit(p, c.body, InCall(c, s)) == Finished(p, c.body, InCall(c, s))
  {
    WellFormedIsLegal(c.body);
    SizePositive(c.body);
    FinalSrKeepsLoopFlag(p, c.body, s.sr, s.trace);
  }

  lemma StepReturn(p: Program, c: Code, s: State, save: int)
    requires c.Call? && Ready(p, c, s)
    ensures var back := Step(p, Finished(p, c.body, InCall(c, s)).(lcsave := save));
            back == Exit(p, c, s).(lcsave := save)
  {
    var r := Finished(p, c.body, InCall(c, s)).(lcsave := save);
    assert r.slots[..|r.slots| - 1] == s.slots;
    LoopCheckKeepsSave(Finished(p, c, s), save);
    assert Return(r) == Finished(p, c, s).(lcsave := save);
  }

  /** The end-of-loop test after the last instruction of the body: leave, or start over. */
  lemma LoopBack(c: Code, s: State, t: Trace, sr: int, n: nat, save: int)
    requires c.Loop? && LoopFlag(sr) && 1 <= n <= 0x1_0000
    requires 0 <= s.pc && 1 <= |s.slots|
    ensures var last := InLoop(c, s, t, sr, n, save).(pc := s.pc + Size(c));
            LoopCheck(last) == if n == 1 then s.(pc := s.pc + Size(c), trace := t, lcsave := save)
                               else InLoop(c, s, t, sr, n - 1, save)
  {
    var last := InLoop(c, s, t, sr, n, save).(pc := s.pc + Size(c));
    assert last.slots[..|last.slots| - 1][..|s.slots|] == s.slots;
    assert last.slots[..|last.slots| - 1] == s.slots + [(s.la, s.lc)];
  }

  /** The state before one of the repetitions, which has left `sr` and `trace` so far. */
  function InRepeat(s: State, t: Trace, sr: int, lc: int): State {
    s.(pc := s.pc + 1, lc := lc, lcsave := s.lc, loopRep := true, sr := sr, trace := t)
  }

  lemma StepRep(p: Program, c: Code, s: State)
    requires c.Repeat? && Ready(p, c, s)
    ensures var count := c.times(s.trace);
            Step(p, s) == InRepeat(s, s.trace, s.sr, if count == 0 then 0x1_0000 else count)
  {
  }

  lemma StepRepeated(p: Program, c: Code, s: State, t: Trace, sr: int, lc: int)
    requires c.Repeat? && Ready(p, c, s) && 0 <= sr < 0x1_0000 && LoopFlag(sr) == LoopFlag(s.sr)
    ensures var t' := t + [c.id];
            var sr' := WithStatus(s.sr, p.status(t'));
            Step(p, InRepeat(s, t, sr, lc))
            == if Times(lc) == 1 then LoopCheck(s.(pc := s.pc + Size(c), trace := t', sr := sr', lcsave := s.lc))
               else InRepeat(s, t', sr', Times(lc) - 1)
  {
    LoopFlagKept(sr, p.status(t + [c.id]));
  }

  // ---- Whole programs ----

  /** A relation that contains every instruction step but those from `stop`, and is transitive. */
  ghost predicate Closed(p: Program, stop: int, rel: (State, State) -> bool) {
    && (forall a: State {:trigger Step(p, a)} | a.pc != stop :: rel(a, Step(p, a)))
    && (forall a: State, b: State, c: State :: rel(a, b) && rel(b, c) ==> rel(a, c))
  }

  lemma {:induction false} Simulate(p: Program, c: Code, s: State, stop: int, rel: (State, State) -> bool)
      returns (save: int)
    requires Ready(p, c, s) && Misses(c, s.pc, stop) && Closed(p, stop, rel)
    ensures rel(s, Exit(p, c, s).(lcsave := save))
    decreases c, 1, 0
  {
    match c
    case Op(id, len) =>
      StepOp(p, c, s);
      save := Exit(p, c, s).lcsave;
      assert rel(s, Step(p, s));
    case Seq(first, second) =>
      save := SimulateSeq(p, c, s, stop, rel);
    case Loop(_, _) =>
      save := SimulateLoop(p, c, s, stop, rel);
    case Repeat(_, _, _) =>
      SimulateRepeat(p, c, s, stop, rel);
      save := s.lc;
    case Call(_, _, _) =>
      save := SimulateCall(p, c, s, stop, rel);
  }

  lemma SimulateCall(p: Program, c: Code, s: State, stop: int, rel: (State, State) -> bool) returns (save: int)
    requires c.Call? && Ready(p, c, s) && Misses(c, s.pc, stop) && Closed(p, stop, rel)
    ensures rel(s, Exit(p, c, s).(lcsave := save))
    decreases c, 0, 0
  {
    var start := InCall(c, s);
    WellFormedIsLegal(c.body);
    SizePositive(c.body);
    CallRelates(p, c, s, stop, rel);
    CalledReady(p, c, s);
    save := Simulate(p, c.body, start, stop, rel);
    ReturnRelates(p, c, s, save, stop, rel);
    Chain(p, stop, rel, start, Finished(p, c.body, start).(lcsave := save), Exit(p, c, s).(lcsave := save));
    Chain(p, stop, rel, s, start, Exit(p, c, s).(lcsave := save));
  }

  lemma SimulateLoop(p: Program, c: Code, s: State, stop: int, rel: (State, State) -> bool) returns (save: int)
    requires c.Loop? && Ready(p, c, s) && Misses(c, s.pc, stop) && Closed(p, stop, rel)
    ensures rel(s, Exit(p, c, s).(lcsave := save))
    decreases c, 0, 0x1_0001
  {
    var n := Times(c.count(s.trace));
    WellFormedIsLegal(c.body);
    SizePositive(c.body);
    DoRelates(p, c, s, stop, rel);
    save := SimulateIterations(p, c, s, s.trace, s.sr % 0x8000 + 0x8000, n, s.lcsave, stop, rel);
    Chain(p, stop, rel, s, InLoop(c, s, s.trace, s.sr % 0x8000 + 0x8000, n, s.lcsave), Exit(p, c, s).(lcsave := save));
  }

  lemma SimulateRepeat(p: Program, c: Code, s: State, stop: int, rel: (State, State) -> bool)
    requires c.Repeat? && Ready(p, c, s) && Misses(c, s.pc, stop) && Closed(p, stop, rel)
    ensures rel(s, Exit(p, c, s).(lcsave := s.lc))
  {
    var n := c.times(s.trace);
    assert rel(s, Step(p, s));
    StepRep(p, c, s);
    SimulateRepetitions(p, c, s, s.trace, s.sr, if n == 0 then 0x1_0000 else n, stop, rel);
    RepeatExit(p, c, s);
  }

  lemma RepeatExit(p: Program, c: Code, s: State)
    requires c.Repeat? && Ready(p, c, s)
    ensures var end := RepeatOp(c.id, Times(c.times(s.trace)), s.trace);
            LoopCheck(s.(pc := s.pc + Size(c), trace := end, sr := WithStatus(s.sr, p.status(end)), lcsave := s.lc))
            == Exit(p, c, s).(lcsave := s.lc)
  {
  }

  lemma SimulateSeq(p: Program, c: Code, s: State, stop: int, rel: (State, State) -> bool) returns (save: int)
    requires c.Seq? && Ready(p, c, s) && Misses(c, s.pc, stop) && Closed(p, stop, rel)
    ensures rel(s, Exit(p, c, s).(lcsave := save))
    decreases c, 0, 0
  {
    WellFormedIsLegal(c);
    SizePositive(c.first);
    SizePositive(c.second);
    SeqFirst(p, c, s);
    var save1 := Simulate(p, c.first, s, stop, rel);
    var mid := Finished(p, c.first, s).(lcsave := save1);
    SeqSecond(p, c, s, save1);
    SeqEnd(p, c, s, save1);
    save := Simulate(p, c.second, mid, stop, rel);
  }

  /** Between the halves of a sequence no enclosing loop ends, and the second half is ready to run. */
  lemma SeqFirst(p: Program, c: Code, s: State)
    requires c.Seq? && Legal(c) && Placed(p, c, s)
    ensures Placed(p, c.first, s)
    ensures WellFormed(c.first) ==> Exit(p, c.first, s) == Finished(p, c.first, s)
  {
    SizePositive(c.first);
    SizePositive(c.second);
    FinalSrKeepsLoopFlag(p, c.first, s.sr, s.trace);
    ClearWithin(c.first, s.pc, s.pc + Size(c), s.pc, s.pc + Size(c.first));
  }

  lemma SeqSecond(p: Program, c: Code, s: State, save: int)
    requires c.Seq? && Legal(c) && Placed(p, c, s) && WellFormed(c.first)
    ensures Placed(p, c.second, Finished(p, c.first, s).(lcsave := save))
  {
    SizePositive(c.first);
    SizePositive(c.second);
    FinalSrKeepsLoopFlag(p, c.first, s.sr, s.trace);
    ClearWithin(c.second, s.pc, s.pc + Size(c), s.pc + Size(c.first), s.pc + Size(c));
    LeakIffIllFormed(c.first);
  }

  lemma SeqEnd(p: Program, c: Code, s: State, save: int)
    requires c.Seq? && 1 <= |s.slots|
    ensures var end := Exit(p, c.second, Finished(p, c.first, s).(lcsave := save));
            end == Exit(p, c, s).(lcsave := end.lcsave)
  {
    LoopCheckKeepsSave(Finished(p, c, s), save);
    assert Finished(p, c.second, Finished(p, c.first, s).(lcsave := save)) == Finished(p, c, s).(lcsave := save);
  }

  lemma LoopCheckKeepsSave(s: State, save: int)
    requires 1 <= |s.slots|
    ensures LoopCheck(s.(lcsave := save)) == LoopCheck(s).(lcsave := save)
  {
    var lc := (s.lc - 1) % 0x1_0000;
    if LoopFlag(s.sr) && s.pc == s.la + 1 && lc == 0 {
      assert s.(lcsave := save).(lc := lc) == s.(lc := lc).(lcsave := save);
      EndDoKeepsSave(s.(lc := lc), save);
    }
  }

  lemma EndDoKeepsSave(s: State, save: int)
    ensures EndDo(s.(lcsave := save)) == EndDo(s).(lcsave := save)
  {
  }

  lemma Chain(p: Program, stop: int, rel: (State, State) -> bool, a: State, b: State, c: State)
    requires Closed(p, stop, rel) && rel(a, b) && rel(b, c)
    ensures rel(a, c)
  {
  }

  lemma DoRelates(p: Program, c: Code, s: State, stop: int, rel: (State, State) -> bool)
    requires c.Loop? && Legal(c.body) && Placed(p, c, s) && s.pc != stop && Closed(p, stop, rel)
    ensures rel(s, InLoop(c, s, s.trace, s.sr % 0x8000 + 0x8000, Times(c.count(s.trace)), s.lcsave))
  {
    assert rel(s, Step(p, s));
    StepDo(p, c, s);
  }

  lemma CallRelates(p: Program, c: Code, s: State, stop: int, rel: (State, State) -> bool)
    requires c.Call? && Ready(p, c, s) && s.pc != stop && Closed(p, stop, rel)
    ensures rel(s, InCall(c, s))
  {
    assert rel(s, Step(p, s));
    StepCall(p, c, s);
  }

  lemma ReturnRelates(p: Program, c: Code, s: State, save: int, stop: int, rel: (State, State) -> bool)
    requires c.Call? && Ready(p, c, s) && c.at + Size(c.body) != stop && Closed(p, stop, rel)
    ensures rel(Finished(p, c.body, InCall(c, s)).(lcsave := save), Exit(p, c, s).(lcsave := save))
  {
    var last := Finished(p, c.body, InCall(c, s)).(lcsave := save);
    assert rel(last, Step(p, last));
    StepReturn(p, c, s, save);
  }

  lemma RepeatedRelates(p: Program, c: Code, s: State, t: Trace, sr: int, lc: int, stop: int,
                        rel: (State, State) -> bool)
    requires c.Repeat? && Ready(p, c, s) && 0 <= sr < 0x1_0000 && LoopFlag(sr) == LoopFlag(s.sr)
    requires s.pc + 1 != stop && Closed(p, stop, rel)
    ensures var t' := t + [c.id];
            var sr' := WithStatus(s.sr, p.status(t'));
            rel(InRepeat(s, t, sr, lc),
                if Times(lc) == 1 then LoopCheck(s.(pc := s.pc + Size(c), trace := t', sr := sr', lcsave := s.lc))
                else InRepeat(s, t', sr', Times(lc) - 1))
  {
    var r := InRepeat(s, t, sr, lc);
    assert rel(r, Step(p, r));
    StepRepeated(p, c, s, t, sr, lc);
  }

  /** A loop runs its body as often as the count register says, and then everything is restored. */
  lemma SimulateIterations(p: Program, c: Code, s: State, t: Trace, sr: int, n: nat, from: int, stop: int,
                           rel: (State, State) -> bool)
      returns (save: int)
    requires c.Loop? && Ready(p, c, s) && Misses(c, s.pc, stop) && 1 <= n <= 0x1_0000 && Closed(p, stop, rel)
    requires 0 <= sr < 0x1_0000 && LoopFlag(sr)
    ensures rel(InLoop(c, s, t, sr, n, from), s.(pc := s.pc + Size(c), trace := Iterate(c.body, n, t), lcsave := save))
    decreases c, 0, n
  {
    var start := InLoop(c, s, t, sr, n, from);
    WellFormedIsLegal(c.body);
    BodyReady(p, c, s, t, sr, n, from);
    save := Simulate(p, c.body, start, stop, rel);
    var t', sr' := Run(c.body, t), FinalSr(p, c.body, sr, t);
    FinalSrKeepsLoopFlag(p, c.body, sr, t);
    PassEnds(p, c, s, t, sr, n, from, save);
    if n > 1 {
      var next := InLoop(c, s, t', sr', n - 1, save);
      save := SimulateIterations(p, c, s, t', sr', n - 1, save, stop, rel);
      Chain(p, stop, rel, start, next, s.(pc := s.pc + Size(c), trace := Iterate(c.body, n, t), lcsave := save));
    }
  }

  lemma PassEnds(p: Program, c: Code, s: State, t: Trace, sr: int, n: nat, from: int, save: int)
    requires c.Loop? && Ready(p, c, s) && 1 <= n <= 0x1_0000 && 0 <= sr < 0x1_0000 && LoopFlag(sr)
    ensures var t', sr' := Run(c.body, t), FinalSr(p, c.body, sr, t);
            Exit(p, c.body, InLoop(c, s, t, sr, n, from)).(lcsave := save)
            == if n == 1 then s.(pc := s.pc + Size(c), trace := t', lcsave := save)
                else InLoop(c, s, t', sr', n - 1, save)
  {
    FinalSrKeepsLoopFlag(p, c.body, sr, t);
    LoopBack(c, s, Run(c.body, t), FinalSr(p, c.body, sr, t), n, save);
    BodyExit(p, c, s, t, sr, n, from, save);
  }

  lemma BodyReady(p: Program, c: Code, s: State, t: Trace, sr: int, n: nat, from: int)
    requires c.Loop? && Legal(c.body) && Placed(p, c, s) && 0 <= sr < 0x1_0000
    ensures Placed(p, c.body, InLoop(c, s, t, sr, n, from))
  {
    SizePositive(c.body);
    var end := s.pc + Size(c);
    ClearWithin(c.body, s.pc, end, s.pc + 2, end);
    ClearWithin(c.body, s.pc, end, end, end);
  }

  lemma BodyExit(p: Program, c: Code, s: State, t: Trace, sr: int, n: nat, from: int, save: int)
    requires c.Loop? && Ready(p, c, s)
    ensures Exit(p, c.body, InLoop(c, s, t, sr, n, from)).(lcsave := save)
            == LoopCheck(InLoop(c, s, Run(c.body, t), FinalSr(p, c.body, sr, t), n, save).(pc := s.pc + Size(c)))
  {
  }

  /** A repeated instruction runs as often as its count says, and the enclosing loop count survives. */
  lemma SimulateRepetitions(p: Program, c: Code, s: State, t: Trace, sr: int, lc: int, stop: int,
                            rel: (State, State) -> bool)
    requires c.Repeat? && Ready(p, c, s) && Misses(c, s.pc, stop) && Closed(p, stop, rel)
    requires 0 <= sr < 0x1_0000 && LoopFlag(sr) == LoopFlag(s.sr)
    ensures var end := RepeatOp(c.id, Times(lc), t);
            rel(InRepeat(s, t, sr, lc),
                LoopCheck(s.(pc := s.pc + Size(c), trace := end, sr := WithStatus(s.sr, p.status(end)),
                             lcsave := s.lc)))
    decreases Times(lc)
  {
    var t' := t + [c.id];
    RepeatedRelates(p, c, s, t, sr, lc, stop, rel);
    LoopFlagKept(s.sr, p.status(t'));
    if Times(lc) > 1 {
      SimulateRepetitions(p, c, s, t', WithStatus(s.sr, p.status(t')), Times(lc) - 1, stop, rel);
    }
  }

  function Stepper(p: Program): State -> State {
    (s: State) => Step(p, s)
  }

  /** k instructions lead from one state to the other, and before that the PC never stands at `stop`. */
  ghost predicate Leads(p: Program, a: State, k: nat, b: State, stop: int) {
    IsPath(Stepper(p), a, k, b, stop)
  }

  ghost predicate IsPath(step: State -> State, a: State, k: nat, b: State, stop: int) {
    Steps(step, a, k) == b && forall i: nat | i < k :: Steps(step, a, i).pc != stop
  }

  /** Some number of instructions leads from one state to the other, the PC not standing at `stop` before. */
  ghost predicate Reaches(p: Program, a: State, b: State, stop: int) {
    exists k: nat :: Leads(p, a, k, b, stop)
  }

  lemma ReachesOne(p: Program, a: State, stop: int)
    requires a.pc != stop
    ensures Reaches(p, a, Step(p, a), stop)
  {
    assert Steps(Stepper(p), a, 0) == a;
    assert Leads(p, a, 1, Step(p, a), stop);
  }

  lemma JoinPaths(step: State -> State, a: State, j: nat, b: State, k: nat, c: State, stop: int)
    requires IsPath(step, a, j, b, stop) && IsPath(step, b, k, c, stop)
    ensures IsPath(step, a, j + k, c, stop)
  {
    StepsAdd(step, a, j, k);
    forall i: nat | i < j + k ensures Steps(step, a, i).pc != stop {
      if i >= j {
        StepsAdd(step, a, j, i - j);
      }
    }
  }

  lemma ReachesTwice(p: Program, a: State, b: State, c: State, stop: int)
    requires Reaches(p, a, b, stop) && Reaches(p, b, c, stop)
    ensures Reaches(p, a, c, stop)
  {
    var j: nat :| Leads(p, a, j, b, stop);
    var k: nat :| Leads(p, b, k, c, stop);
    JoinPaths(Stepper(p), a, j, b, k, c, stop);
    assert Leads(p, a, j + k, c, stop);
  }

  lemma ReachesIsClosed(p: Program, stop: int)
    ensures Closed(p, stop, (a: State, b: State) => Reaches(p, a, b, stop))
  {
    forall a: State | a.pc != stop ensures Reaches(p, a, Step(p, a), stop) {
      ReachesOne(p, a, stop);
    }
    forall a: State, b: State, c: State | Reaches(p, a, b, stop) && Reaches(p, b, c, stop)
      ensures Reaches(p, a, c, stop) {
      ReachesTwice(p, a, b, c, stop);
    }
  }

  /**
   * Hardware loops refine structured loops: from any state ready to run a structured program the
   * machine reaches the state just behind it, having executed exactly the instructions the structured
   * program prescribes, with LA, LC, LF and the stack as before. An enclosing loop that ends there
   * has done its end-of-loop test. On the way the PC stands only in the program and its subroutines.
   */
  lemma {:induction false} HardwareRunsStructured(p: Program, c: Code, s: State, stop: int)
    requires Ready(p, c, s) && Misses(c, s.pc, stop)
    ensures exists save: int :: Reaches(p, s, Exit(p, c, s).(lcsave := save), stop)
  {
    ReachesIsClosed(p, stop);
    var save := Simulate(p, c, s, stop, (a: State, b: State) => Reaches(p, a, b, stop));
    assert Reaches(p, s, Exit(p, c, s).(lcsave := save), stop);
  }

  // ---- Shared loop ends ----

  /** Behind a program that left slots on the stack: a loop of it is still active, and ends nowhere ahead. */
  predicate Leaked(c: Code, s: State, r: State) {
    && r.pc == s.pc + Size(c) && s.slots <= r.slots && |r.slots| == |s.slots| + Leak(c)
    && !r.loopRep && !r.pcOnRep
    && 0 <= r.lc < 0x1_0000 && 0 <= r.la < 0x1_0000 && 0 <= r.sr < 0x1_0000
    && LoopFlag(r.sr) && s.pc < r.la + 1 <= r.pc
  }

  lemma {:induction false} SimulateLegal(p: Program, c: Code, s: State, stop: int, rel: (State, State) -> bool)
      returns (r: State)
    requires Legal(c) && Placed(p, c, s) && Misses(c, s.pc, stop) && Closed(p, stop, rel)
    ensures rel(s, r)
    ensures if WellFormed(c) then r == Exit(p, c, s).(lcsave := r.lcsave) else Leaked(c, s, r)
    decreases c, 1
  {
    if WellFormed(c) {
      var save := Simulate(p, c, s, stop, rel);
      r := Exit(p, c, s).(lcsave := save);
    } else if c.Seq? {
      r := SimulateLeakySeq(p, c, s, stop, rel);
    } else {
      r := SimulateLeakyLoop(p, c, s, stop, rel);
    }
  }

  lemma SimulateLeakyLoop(p: Program, c: Code, s: State, stop: int, rel: (State, State) -> bool) returns (r: State)
    requires c.Loop? && Legal(c) && !WellFormed(c) && Placed(p, c, s) && Misses(c, s.pc, stop) && Closed(p, stop, rel)
    ensures rel(s, r) && Leaked(c, s, r)
    decreases c, 0
  {
    var n, sr := Times(c.count(s.trace)), s.sr % 0x8000 + 0x8000;
    var start := InLoop(c, s, s.trace, sr, n, s.lcsave);
    SizePositive(c.body);
    DoRelates(p, c, s, stop, rel);
    BodyReady(p, c, s, s.trace, sr, n, s.lcsave);
    r := SimulateLegal(p, c.body, start, stop, rel);
    NeverEnded(p, c, s, start, r);
    Chain(p, stop, rel, s, start, r);
  }

  lemma NeverEnded(p: Program, c: Code, s: State, start: State, r: State)
    requires c.Loop? && Legal(c) && !WellFormed(c) && Placed(p, c, s)
    requires start == InLoop(c, s, s.trace, s.sr % 0x8000 + 0x8000, Times(c.count(s.trace)), s.lcsave)
    requires if WellFormed(c.body) then r == Exit(p, c.body, start).(lcsave := r.lcsave) else Leaked(c.body, start, r)
    ensures Leaked(c, s, r)
  {
    SizePositive(c.body);
    LeakIffIllFormed(c.body);
    FinalSrKeepsLoopFlag(p, c.body, start.sr, start.trace);
  }

  lemma SimulateLeakySeq(p: Program, c: Code, s: State, stop: int, rel: (State, State) -> bool) returns (r: State)
    requires c.Seq? && Legal(c) && !WellFormed(c) && Placed(p, c, s) && Misses(c, s.pc, stop) && Closed(p, stop, rel)
    ensures rel(s, r) && Leaked(c, s, r)
    decreases c, 0
  {
    SizePositive(c.first);
    SizePositive(c.second);
    SeqFirst(p, c, s);
    var mid := SimulateLegal(p, c.first, s, stop, rel);
    if WellFormed(c.first) {
      SeqSecond(p, c, s, mid.lcsave);
    } else {
      SeqAfterLeak(p, c, s, mid);
    }
    r := SimulateLegal(p, c.second, mid, stop, rel);
    LeakySeq(p, c, s, mid, r);
    Chain(p, stop, rel, s, mid, r);
  }

  lemma SeqAfterLeak(p: Program, c: Code, s: State, mid: State)
    requires c.Seq? && Legal(c) && Placed(p, c, s) && Leaked(c.first, s, mid)
    ensures Placed(p, c.second, mid)
  {
    SizePositive(c.second);
    var end := s.pc + Size(c);
    ClearWithin(c.second, s.pc, end, mid.pc, end);
    ClearWithin(c.second, s.pc, end, mid.la + 1, mid.la + 1);
  }

  lemma LeakySeq(p: Program, c: Code, s: State, mid: State, r: State)
    requires c.Seq? && Legal(c) && !WellFormed(c) && Placed(p, c, s)
    requires if WellFormed(c.first) then mid == Finished(p, c.first, s).(lcsave := mid.lcsave)
             else Leaked(c.first, s, mid)
    requires if WellFormed(c.second) then r == Exit(p, c.second, mid).(lcsave := r.lcsave) else Leaked(c.second, mid, r)
    ensures Leaked(c, s, r)
  {
    SizePositive(c.first);
    SizePositive(c.second);
    LeakIffIllFormed(c.first);
    LeakIffIllFormed(c.second);
    if WellFormed(c.second) {
      FinalSrKeepsLoopFlag(p, c.second, mid.sr, mid.trace);
      assert LoopCheck(Finished(p, c.second, mid)) == Finished(p, c.second, mid);
    }
  }

  /** The first state behind the program. */
  ghost predicate FirstBehind(p: Program, c: Code, s: State, r: State) {
    Reaches(p, s, r, s.pc + Size(c)) && r.pc == s.pc + Size(c)
  }

  /**
   * The condition on loop ends is exact: whenever the PC first stands behind a program, the stack is as
   * it was before if and only if no two nested loops of it end at the same address; otherwise the slots
   * of every loop around a shared end are still there.
   */
  lemma {:induction false} StackRestoredIff(p: Program, c: Code, s: State) returns (r: State)
    requires Legal(c) && Placed(p, c, s) && (LoopFlag(s.sr) ==> s.la + 1 != s.pc + Size(c))
    ensures FirstBehind(p, c, s, r)
    ensures r.slots == s.slots <==> WellFormed(c)
    ensures |r.slots| == |s.slots| + Leak(c)
  {
    var stop := s.pc + Size(c);
    SizePositive(c);
    ClearWithin(c, s.pc, stop, stop, stop);
    ReachesIsClosed(p, stop);
    r := SimulateLegal(p, c, s, stop, (a: State, b: State) => Reaches(p, a, b, stop));
    LeakIffIllFormed(c);
    if WellFormed(c) {
      FinalSrKeepsLoopFlag(p, c, s.sr, s.trace);
    }
  }

  /** There is only one such state. */
  lemma FirstBehindIsUnique(p: Program, c: Code, s: State, r: State, r': State)
    requires FirstBehind(p, c, s, r) && FirstBehind(p, c, s, r')
    ensures r == r'
  {
    var stop := s.pc + Size(c);
    var j: nat :| Leads(p, s, j, r, stop);
    var k: nat :| Leads(p, s, k, r', stop);
    assert j == k;
  }

  // ---- The status register behind a loop ----

  /** The status register at the end of n passes, before the stack is popped. */
  function PassesSr(p: Program, body: Code, n: nat, sr: int, t: Trace): int
    decreases n
  {
    if n == 0 then sr else PassesSr(p, body, n - 1, FinalSr(p, body, sr, t), Run(body, t))
  }

  /** The last instruction that a program executes is a plain one. */
  predicate EndsPlain(c: Code) {
    match c
    case Seq(_, second) => EndsPlain(second)
    case Loop(_, _) => false
    case Call(_, body, _) => EndsPlain(body)
    case _ => true
  }

  lemma {:induction false} PlainEndLeavesStatus(p: Program, c: Code, sr: int, t: Trace)
    requires EndsPlain(c)
    ensures FinalSr(p, c, sr, t) % 0x8000 == p.status(Run(c, t)) % 0x8000
    decreases c
  {
    match c
    case Seq(first, second) => PlainEndLeavesStatus(p, second, FinalSr(p, first, sr, t), Run(first, t));
    case Call(_, body, _) => PlainEndLeavesStatus(p, body, sr, t);
    case _ => StatusBits(sr, p.status(Run(c, t)));
  }

  lemma StatusBits(sr: int, low: int)
    ensures WithStatus(sr, low) % 0x8000 == low % 0x8000
  {
  }

  lemma {:induction false} PassesLeaveStatus(p: Program, body: Code, n: nat, sr: int, t: Trace)
    requires EndsPlain(body) && n > 0
    ensures PassesSr(p, body, n, sr, t) % 0x8000 == p.status(Iterate(body, n, t)) % 0x8000
    decreases n
  {
    if n == 1 {
      PlainEndLeavesStatus(p, body, sr, t);
    } else {
      PassesLeaveStatus(p, body, n - 1, FinalSr(p, body, sr, t), Run(body, t));
    }
  }

  /** The passes of a loop written out. */
  function Unrolled(body: Code, n: nat): Code
    requires n > 0
  {
    if n == 1 then body else Seq(body, Unrolled(body, n - 1))
  }

  lemma {:induction false} UnrolledMeaning(p: Program, body: Code, n: nat, sr: int, t: Trace)
    requires n > 0
    ensures Run(Unrolled(body, n), t) == Iterate(body, n, t)
    ensures FinalSr(p, Unrolled(body, n), sr, t) == PassesSr(p, body, n, sr, t)
    decreases n
  {
    if n == 1 {
      assert Iterate(body, 0, Run(body, t)) == Run(body, t);
      assert PassesSr(p, body, 0, FinalSr(p, body, sr, t), Run(body, t)) == FinalSr(p, body, sr, t);
    } else {
      UnrolledMeaning(p, body, n - 1, FinalSr(p, body, sr, t), Run(body, t));
    }
  }

  /** The low status bits behind a program do not depend on the loop flag before it. */
  lemma {:induction false} LowBitsFollow(p: Program, c: Code, sr: int, sr': int, t: Trace)
    requires sr % 0x8000 == sr' % 0x8000
    ensures FinalSr(p, c, sr, t) % 0x8000 == FinalSr(p, c, sr', t) % 0x8000
    decreases c
  {
    match c
    case Seq(first, second) =>
      LowBitsFollow(p, first, sr, sr', t);
      LowBitsFollow(p, second, FinalSr(p, first, sr, t), FinalSr(p, first, sr', t), Run(first, t));
    case Call(_, body, _) => LowBitsFollow(p, body, sr, sr', t);
    case Loop(_, _) =>
    case _ =>
      StatusBits(sr, p.status(Run(c, t)));
      StatusBits(sr', p.status(Run(c, t)));
  }

  lemma {:induction false} LowBitsOfPasses(p: Program, body: Code, n: nat, sr: int, sr': int, t: Trace)
    requires sr % 0x8000 == sr' % 0x8000
    ensures PassesSr(p, body, n, sr, t) % 0x8000 == PassesSr(p, body, n, sr', t) % 0x8000
    decreases n
  {
    if n > 0 {
      LowBitsFollow(p, body, sr, sr', t);
      LowBitsOfPasses(p, body, n - 1, FinalSr(p, body, sr, t), FinalSr(p, body, sr', t), Run(body, t));
    }
  }

  /** No enclosing loop ends where the program does. */
  predicate Alone(c: Code, s: State) {
    LoopFlag(s.sr) ==> s.la + 1 != s.pc + Size(c)
  }

  /** Behind a well-formed program the machine is where the structured program says. */
  lemma BehindIsFinished(p: Program, c: Code, s: State, r: State)
    requires Ready(p, c, s) && Alone(c, s) && FirstBehind(p, c, s, r)
    ensures r == Finished(p, c, s).(lcsave := r.lcsave)
  {
    var stop := s.pc + Size(c);
    WellFormedIsLegal(c);
    SizePositive(c);
    ClearWithin(c, s.pc, stop, stop, stop);
    HardwareRunsStructured(p, c, s, stop);
    var save: int :| Reaches(p, s, Exit(p, c, s).(lcsave := save), stop);
    FinalSrKeepsLoopFlag(p, c, s.sr, s.trace);
    FirstBehindIsUnique(p, c, s, r, Exit(p, c, s).(lcsave := save));
  }

  /**
   * The end of a loop restores the whole status register, where the DSP56001 restores the loop flag
   * only. So the machine leaves a loop with the status bits that its passes written out one after the
   * other would leave if and only if the last pass ends with the bits that the loop began with. If the
   * body ends with a plain instruction, those are the bits of that instruction.
   */
  lemma {:induction false} RestoreIff(p: Program, c: Code, s: State, u: State, r: State, r': State)
    requires c.Loop? && Ready(p, c, s) && Alone(c, s) && FirstBehind(p, c, s, r)
    requires var passes := Unrolled(c.body, Times(c.count(s.trace)));
             Ready(p, passes, u) && Alone(passes, u) && FirstBehind(p, passes, u, r')
    requires u.sr == s.sr && u.trace == s.trace
    ensures r.trace == r'.trace && LoopFlag(r.sr) == LoopFlag(r'.sr)
    ensures var last := PassesSr(p, c.body, Times(c.count(s.trace)), s.sr % 0x8000 + 0x8000, s.trace);
            r.sr % 0x8000 == r'.sr % 0x8000 <==> last % 0x8000 == s.sr % 0x8000
    ensures EndsPlain(c.body) ==> (r.sr % 0x8000 == r'.sr % 0x8000 <==> p.status(r.trace) % 0x8000 == s.sr % 0x8000)
  {
    var n := Times(c.count(s.trace));
    var passes := Unrolled(c.body, n);
    BehindIsFinished(p, c, s, r);
    BehindIsFinished(p, passes, u, r');
    UnrolledMeaning(p, c.body, n, u.sr, u.trace);
    FinalSrKeepsLoopFlag(p, passes, u.sr, u.trace);
    LowBitsOfPasses(p, c.body, n, u.sr, s.sr % 0x8000 + 0x8000, s.trace);
    if EndsPlain(c.body) {
      PassesLeaveStatus(p, c.body, n, s.sr % 0x8000 + 0x8000, s.trace);
    }
  }

  function Once(t: Trace): int {
    1
  }

  /** An instruction that sets the carry, alone and in a loop of one pass. */
  const CARRY := Op(0, 1)
  const CARRY_LOOP := Loop(Once, CARRY)

  function Fresh(pc: int): State {
    State(pc, 0, 0, 0, 0, [(0, 0)], false, false, [])
  }

  lemma CarryReady(p: Program)
    requires p.code(0) == Do(Once, 2) && p.code(2) == p.code(16) == Plain(0, 1)
    ensures Ready(p, CARRY_LOOP, Fresh(0)) && Ready(p, CARRY, Fresh(16))
  {
    assert Loaded(p, CARRY, 2) && Loaded(p, CARRY, 16);
    assert Loaded(p, CARRY_LOOP, 0);
  }

  /** The loop loses the carry that the instruction alone leaves. */
  lemma LoopLosesCarry(p: Program, r: State, r': State)
    requires p.code(0) == Do(Once, 2) && p.code(2) == p.code(16) == Plain(0, 1) && p.status([0]) == 1
    requires FirstBehind(p, CARRY_LOOP, Fresh(0), r) && FirstBehind(p, CARRY, Fresh(16), r')
    ensures r.trace == r'.trace == [0] && r.sr == 0 && r'.sr == 1
  {
    CarryReady(p);
    BehindIsFinished(p, CARRY_LOOP, Fresh(0), r);
    BehindIsFinished(p, CARRY, Fresh(16), r');
    assert Run(CARRY, []) == [0];
    assert Iterate(CARRY, 0, [0]) == [0];
    assert Iterate(CARRY, 1, []) == [0];
  }
}
