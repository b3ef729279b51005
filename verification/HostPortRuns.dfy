/**
 * Every interleaving of the emulated CPU and the DSP thread on the host port: no wake-up is lost,
 * nobody waits for ever, and each direction is a queue (src/dsp_core.c:798-1012,
 * src/dsp_cpu.c:1176-1187, 1218-1243 and 2120-2169).
 *
 * A step is one access under the mutex, or one operation on the semaphore.
 */
module HostPortRuns {
  import opened HostPort

  /** The HSR bit a polling JCLR tests. */
  datatype Bit = Hrdf | Htde

  predicate IsSet(p: Port, bit: Bit) {
    if bit == Hrdf then p.hrdf else p.htde
  }

  /**
   * The DSP thread: running its program, about to test a bit in a polling loop, or, having seen it
   * clear, about to wait on the semaphore.
   */
  datatype Dsp = Running | Polling(bit: Bit) | Waiting(bit: Bit)

  /** The CPU: outside, or inside the mutex before the test of the semaphore, or before the post. */
  datatype Cpu = Outside | Testing | Posting

  datatype State = State(port: Port, semaphore: int, cpu: Cpu, dsp: Dsp)

  datatype Event =
    | CpuWrites(addr: int, value: int)
    | CpuReads(addr: int)
    | CpuTests
    | CpuPosts
    | DspStartsPoll(bit: Bit)
    | DspTests
    | DspWakes
    | DspReadsPort
    | DspWritesPort(word: int)

  /** Which events can happen; an access of either side needs the mutex. */
  predicate Enabled(s: State, e: Event) {
    match e
    case CpuWrites(_, _) => s.cpu == Outside
    case CpuReads(_) => s.cpu == Outside
    case CpuTests => s.cpu == Testing
    case CpuPosts => s.cpu == Posting
    case DspStartsPoll(_) => s.dsp == Running
    case DspTests => s.dsp.Polling? && s.cpu == Outside
    case DspWakes => s.dsp.Waiting? && s.semaphore > 0
    case DspReadsPort => s.dsp == Running && s.cpu == Outside
    case DspWritesPort(_) => s.dsp == Running && s.cpu == Outside
  }

  function Next(s: State, e: Event): State {
    match e
    case CpuWrites(addr, value) =>
      s.(port := HostWrite(s.port, addr, value), cpu := if Wakes(addr, true, value) then Testing else Outside)
    case CpuReads(addr) =>
      s.(port := HostRead(s.port, addr), cpu := if Wakes(addr, false, 0) then Testing else Outside)
    case CpuTests => s.(cpu := if s.semaphore == 0 then Posting else Outside)
    case CpuPosts => s.(semaphore := s.semaphore + 1, cpu := Outside)
    case DspStartsPoll(bit) => s.(dsp := Polling(bit))
    case DspTests =>
      if s.dsp.Polling? then s.(dsp := if IsSet(s.port, s.dsp.bit) then Running else Waiting(s.dsp.bit)) else s
    case DspWakes =>
      if s.dsp.Waiting? then s.(semaphore := s.semaphore - 1, dsp := Polling(s.dsp.bit)) else s
    case DspReadsPort => s.(port := DspRead(s.port))
    case DspWritesPort(word) => s.(port := DspWrite(s.port, word))
  }

  const START := State(RESET, 0, Outside, Running)

  /** The state after a sequence of events. */
  function After(s: State, es: seq<Event>): State {
    if es == [] then s else Next(After(s, es[..|es| - 1]), es[|es| - 1])
  }

  predicate IsRun(s: State, es: seq<Event>) {
    es == [] || (IsRun(s, es[..|es| - 1]) && Enabled(After(s, es[..|es| - 1]), es[|es| - 1]))
  }

  /** A bit that a waiting DSP waits for is clear, unless the wake-up is there or on its way. */
  predicate Inv(s: State) {
    && Consistent(s.port)
    && 0 <= s.semaphore <= 1
    && (s.cpu == Posting ==> s.semaphore == 0)
    && (s.dsp.Waiting? && IsSet(s.port, s.dsp.bit) ==> s.semaphore == 1 || s.cpu != Outside)
  }

  lemma NextKeepsInv(s: State, e: Event)
    requires Inv(s) && Enabled(s, e)
    ensures Inv(Next(s, e))
  {
  }

  lemma {:induction false} RunKeepsInv(es: seq<Event>)
    requires IsRun(START, es)
    ensures Inv(After(START, es))
  {
    if es != [] {
      RunKeepsInv(es[..|es| - 1]);
      NextKeepsInv(After(START, es[..|es| - 1]), es[|es| - 1]);
    }
  }

  /** The DSP cannot move, and the CPU is not about to wake it. */
  predicate Blocked(s: State) {
    s.dsp.Waiting? && s.semaphore == 0 && s.cpu == Outside
  }

  /** What the CPU does to unblock a DSP that waits for a bit: send a word, or take one. */
  function Rescue(bit: Bit, value: int): seq<Event> {
    [if bit == Hrdf then CpuWrites(TXL, value) else CpuReads(RXL), CpuTests, CpuPosts, DspWakes, DspTests]
  }

  /**
   * No lost wake-up and no deadlock: whenever the DSP is blocked in a polling loop, the bit it waits
   * for is clear and the flag that invites the CPU to act (TRDY or RXDF) is set; and the access the
   * CPU is invited to do wakes the DSP and lets it leave the loop. The semaphore never exceeds one.
   */
  lemma {:induction false} BlockedIsRescued(es: seq<Event>, value: int)
    requires IsRun(START, es)
    ensures After(START, es).semaphore <= 1
    ensures var s := After(START, es);
            Blocked(s) ==> !IsSet(s.port, s.dsp.bit) && (if s.dsp.bit == Hrdf then s.port.trdy else s.port.rxdf)
    ensures var s := After(START, es);
            Blocked(s) ==> var rescue := es + Rescue(s.dsp.bit, value);
                           IsRun(START, rescue) && After(START, rescue).dsp == Running
                               && IsSet(After(START, rescue).port, s.dsp.bit)
  {
    RunKeepsInv(es);
    var s := After(START, es);
    if Blocked(s) {
      RescueWorks(s, value);
      AppendRun(START, es, Rescue(s.dsp.bit, value));
    }
  }

  lemma RescueWorks(s: State, value: int)
    requires Inv(s) && Blocked(s)
    ensures var r := Rescue(s.dsp.bit, value);
            IsRun(s, r) && After(s, r).dsp == Running && IsSet(After(s, r).port, s.dsp.bit)
  {
    var r := Rescue(s.dsp.bit, value);
    var s1 := Next(s, r[0]);
    assert s1.cpu == Testing && s1.semaphore == 0 && IsSet(s1.port, s.dsp.bit);
    var s2 := Next(s1, r[1]);
    var s3 := Next(s2, r[2]);
    var s4 := Next(s3, r[3]);
    assert r[..4][..3] == r[..3] && r[..3][..2] == r[..2] && r[..2][..1] == r[..1] && r[..1][..0] == [];
    assert After(s, []) == s && IsRun(s, []);
    assert After(s, r[..1]) == s1 && IsRun(s, r[..1]);
    assert After(s, r[..2]) == s2 && IsRun(s, r[..2]);
    assert After(s, r[..3]) == s3 && IsRun(s, r[..3]);
    assert After(s, r[..4]) == s4 && IsRun(s, r[..4]);
  }

  lemma {:induction false} AppendRun(s: State, es: seq<Event>, fs: seq<Event>)
    requires IsRun(s, es) && IsRun(After(s, es), fs)
    ensures IsRun(s, es + fs) && After(s, es + fs) == After(After(s, es), fs)
    decreases |fs|
  {
    if fs == [] {
      assert es + fs == es;
    } else {
      AppendRun(s, es, fs[..|fs| - 1]);
      assert (es + fs)[..|es + fs| - 1] == es + fs[..|fs| - 1];
    }
  }
}
