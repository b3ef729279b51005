/**
 * The program controller of the DSP56001: hardware stack, DO, REP and subroutines, and the update of
 * the PC after each instruction (src/dsp_cpu.c:694-753, 1305-1341, 1976-2049, 2317-2336, 2759-2813 and
 * 2832-2840). Each method does what the state machine of HardwareLoops does.
 */
module ProgramControl {
  import opened HardwareLoops

  class Controller {
    var pc: int
    var la: int
    var lc: int
    var lcsave: int
    var sr: int
    var sp: int
    var ssh: int
    var ssl: int
    /**
     * The 15 words for SSH, then the 15 for SSL, then the word that lies behind them in memory: with
     * the stack pointer at 15 the source uses the words behind each 15.
     */
    const stack: array<int>
    var loopRep: bool
    var pcOnRep: bool
    var curInstLen: int
    /** The data state, as the instructions executed so far. */
    var trace: Trace
    /** The stack slots in use. The low word of slot 0 is never read, and slot 15 overwrites it. */
    ghost var slots: seq<(int, int)>

    ghost predicate Valid()
      reads this, stack
    {
      && stack.Length == 31 && 0 <= sp <= 15 && ssh == sp && ssl == sp
      && (forall i | 0 <= i < 31 :: 0 <= stack[i] < 0x1_0000)
      && |slots| == sp + 1
      && (forall i | 0 <= i <= sp :: slots[i].0 == stack[i] && (i > 0 ==> slots[i].1 == stack[15 + i]))
      && 0 <= pc < 0x1_0000 && 0 <= la < 0x1_0000 && 0 <= sr < 0x1_0000
    }

    constructor ()
      ensures Valid() && sp == 0 && !loopRep && !pcOnRep && fresh(stack)
    {
      pc, la, lc, lcsave, sr, sp, ssh, ssl := 0, 0, 0, 0, 0, 0, 0, 0;
      stack := new int[31](_ => 0);
      loopRep, pcOnRep, curInstLen, trace, slots := false, false, 0, [], [(0, 0)];
    }

    /** The state of the machine of HardwareLoops. */
    ghost function Abs(): State
      reads this
    {
      State(pc, la, lc, lcsave, sr, slots, loopRep, pcOnRep, trace)
    }

    /** dsp_stack_push: a full stack stays as it is. */
    method StackPush(curpc: int, cursr: int)
      requires Valid()
      modifies this`sp, this`ssh, this`ssl, this`slots, stack
      ensures Valid() && Abs() == Push(old(Abs()), curpc, cursr)
    {
      if sp == 15 {
        return;
      }
      sp := sp + 1;
      ssh := ssh + 1;
      ssl := ssl + 1;
      stack[ssh] := curpc % 0x1_0000;
      stack[15 + ssl] := cursr % 0x1_0000;
      slots := slots + [(curpc % 0x1_0000, cursr % 0x1_0000)];
    }

    /** dsp_stack_pop: on an empty stack nothing is popped and the targets keep their values. */
    method StackPop(curpc: int, cursr: int) returns (newpc: int, newsr: int)
      requires Valid()
      modifies this`sp, this`ssh, this`ssl, this`slots
      ensures Valid() && Abs() == Drop(old(Abs()))
      ensures (newpc, newsr) == if old(sp) == 0 then (curpc, cursr) else Top(old(Abs()))
      ensures old(sp) > 0 ==> 0 <= newpc < 0x1_0000 && 0 <= newsr < 0x1_0000
    {
      newpc, newsr := curpc, cursr;
      if sp == 0 {
        return;
      }
      newpc := stack[ssh];
      newsr := stack[15 + ssl];
      sp := sp - 1;
      ssh := ssh - 1;
      ssl := ssl - 1;
      slots := slots[..sp + 1];
    }

    /** dsp_do: word is the second instruction word, count the loop count the operand gives. */
    method Do(word: int, count: int)
      requires Valid()
      modifies this, stack
      ensures Valid() && curInstLen == 2 && Abs() == StartDo(old(Abs()), word, count)
    {
      StackPush(la, lc);
      la := word % 0x1_0000;
      curInstLen := 2;
      StackPush(pc + curInstLen, sr);
      sr := sr % 0x8000 + 0x8000;
      lc := count % 0x1_0000;
    }

    /** dsp_rep: the count is kept as the operand gives it. */
    method Rep(count: int)
      requires Valid()
      modifies this`lcsave, this`lc, this`pcOnRep, this`loopRep, this`curInstLen
      ensures Valid() && curInstLen == 1 && Abs() == StartRep(old(Abs()), count)
    {
      lcsave := lc;
      lc := count;
      pcOnRep := true;
      loopRep := true;
      curInstLen := 1;
    }

    /** dsp_jsr. */
    method CallSubroutine(target: int, len: int)
      requires Valid()
      modifies this`pc, this`sp, this`ssh, this`ssl, this`slots, this`curInstLen, stack
      ensures Valid() && curInstLen == 0 && Abs() == StartCall(old(Abs()), target, len)
    {
      StackPush(pc + len, sr);
      pc := target % 0x1_0000;
      curInstLen := 0;
    }

    /** dsp_rts. */
    method ReturnFromSubroutine()
      requires Valid()
      modifies this`pc, this`sp, this`ssh, this`ssl, this`slots, this`curInstLen
      ensures Valid() && curInstLen == 0 && Abs() == Return(old(Abs()))
    {
      var newpc, newsr := StackPop(0, 0);
      pc := newpc;
      curInstLen := 0;
    }

    /** dsp_enddo, and the same two pops at the natural end of a loop. */
    method EndLoop()
      requires Valid()
      modifies this`sp, this`ssh, this`ssl, this`slots, this`sr, this`la, this`lc
      ensures Valid() && Abs() == EndDo(old(Abs()))
    {
      ghost var s := Abs();
      var newpc: int;
      newpc, sr := StackPop(0, sr);
      assert Abs() == Drop(s).(sr := sr);
      la, lc := StackPop(la, lc);
    }

    /** The REP part of dsp_postexecute_update_pc. */
    method UpdateRep()
      requires Valid()
      modifies this`lc, this`loopRep, this`pcOnRep, this`curInstLen
      ensures Valid() && Abs() == RepUpdate(old(Abs()))
      ensures curInstLen == if Held(old(Abs())) then 0 else old(curInstLen)
    {
      if loopRep {
        if !pcOnRep {
          lc := (lc - 1) % 0x1_0000;
          if lc > 0 {
            curInstLen := 0;
          } else {
            loopRep := false;
            lc := lcsave;
          }
        } else {
          if lc == 0 {
            lc := 0x1_0000;
          }
          pcOnRep := false;
        }
      }
    }

    /** The DO part of dsp_postexecute_update_pc. */
    method CheckLoopEnd()
      requires Valid()
      modifies this`sp, this`ssh, this`ssl, this`slots, this`sr, this`la, this`lc, this`pc
      ensures Valid() && Abs() == LoopCheck(old(Abs()))
    {
      if sr / 0x8000 % 2 == 1 && pc == la + 1 {
        CountPass();
      }
    }

    /** The end of a pass through the loop: the last one, or back to its start. */
    method CountPass()
      requires Valid() && LoopFlag(sr) && pc == la + 1
      modifies this`sp, this`ssh, this`ssl, this`slots, this`sr, this`la, this`lc, this`pc
      ensures Valid() && Abs() == LoopCheck(old(Abs()))
    {
      lc := (lc - 1) % 0x1_0000;
      if lc == 0 {
        EndLoop();
      } else {
        pc := stack[ssh];
      }
    }

    /** dsp_postexecute_update_pc. */
    method PostExecuteUpdatePc()
      requires Valid() && 0 <= curInstLen
      modifies this
      ensures Valid() && Abs() == PostExecute(old(Abs()), old(curInstLen))
    {
      UpdateRep();
      if curInstLen > 0 {
        pc := (pc + curInstLen) % 0x1_0000;
      }
      CheckLoopEnd();
    }

    /** An instruction that touches data and status bits only. */
    method Compute(p: Program, id: int, len: int)
      requires Valid()
      modifies this`trace, this`sr, this`curInstLen
      ensures Valid() && curInstLen == len
      ensures Abs() == old(Abs()).(trace := old(trace) + [id], sr := WithStatus(old(sr), p.status(old(trace) + [id])))
    {
      trace := trace + [id];
      sr := (if sr / 0x8000 % 2 == 1 then 0x8000 else 0) + p.status(trace) % 0x8000;
      curInstLen := len;
    }

    /** dsp56k_execute_instruction, as far as control flow is concerned. */
    method ExecuteInstruction(p: Program)
      requires Valid() && LegalAt(p, pc)
      modifies this, stack
      ensures Valid() && Abs() == Step(p, old(Abs()))
    {
      match p.code(pc) {
        case Plain(id, len) => Compute(p, id, len);
        case Do(count, la) => Do(la, count(trace));
        case Rep(count) => Rep(count(trace));
        case Jsr(target, len) => CallSubroutine(target, len);
        case Rts => ReturnFromSubroutine();
      }
      PostExecuteUpdatePc();
    }

    /** Instructions do not have a negative length. */
    static ghost predicate LegalAt(p: Program, at: int) {
      p.code(at).Plain? ==> 0 <= p.code(at).len
    }

    /**
     * Running the machine until the PC stands behind a structured program: it gets there, having
     * executed exactly the instructions the program prescribes, and everything but PC, data and status
     * bits is as before.
     */
    method RunProgram(p: Program, ghost c: Code, end: int)
      requires Valid() && Ready(p, c, Abs()) && end == pc + Size(c) && (LoopFlag(sr) ==> la + 1 != end)
      requires forall at :: LegalAt(p, at)
      modifies this, stack
      ensures Valid() && Abs() == Finished(p, c, old(Abs())).(lcsave := lcsave)
    {
      ghost var n := PathLength(p, c, Abs());
      RunUntil(p, end, n);
    }

    /** Instruction by instruction until the PC stands at an address. */
    method RunUntil(p: Program, end: int, ghost n: nat)
      requires Valid() && StopsAfter(p, Abs(), n, end) && forall at :: LegalAt(p, at)
      modifies this, stack
      ensures Valid() && Abs() == Steps(Stepper(p), old(Abs()), n)
    {
      ghost var s, i: nat := Abs(), 0;
      while pc != end
        invariant Valid() && i <= n && Abs() == Steps(Stepper(p), s, i)
        decreases n - i
      {
        Advance(p, s, i);
        i := i + 1;
      }
    }

    /** One more instruction of a run that began in state s. */
    method Advance(p: Program, ghost s: State, ghost i: nat)
      requires Valid() && LegalAt(p, pc) && Abs() == Steps(Stepper(p), s, i)
      modifies this, stack
      ensures Valid() && Abs() == Steps(Stepper(p), s, i + 1)
    {
      NextStep(Stepper(p), s, i);
      ExecuteInstruction(p);
    }
  }

  lemma NextStep(step: State -> State, s: State, i: nat)
    ensures Steps(step, s, i + 1) == step(Steps(step, s, i))
  {
    StepsAdd(step, s, i, 1);
    assert Steps(step, step(Steps(step, s, i)), 0) == step(Steps(step, s, i));
  }

  /** After n instructions the PC stands at the address for the first time. */
  ghost predicate StopsAfter(p: Program, s: State, n: nat, end: int) {
    Steps(Stepper(p), s, n).pc == end && forall i: nat | i < n :: Steps(Stepper(p), s, i).pc != end
  }

  /** How long the way to the state behind a program is, and that the PC is not there before. */
  lemma PathLength(p: Program, c: Code, s: State) returns (n: nat)
    requires Ready(p, c, s) && (LoopFlag(s.sr) ==> s.la + 1 != s.pc + Size(c))
    ensures var r := Steps(Stepper(p), s, n); r == Finished(p, c, s).(lcsave := r.lcsave)
    ensures StopsAfter(p, s, n, s.pc + Size(c))
  {
    var stop := s.pc + Size(c);
    WellFormedIsLegal(c);
    SizePositive(c);
    ClearWithin(c, s.pc, stop, stop, stop);
    HardwareRunsStructured(p, c, s, stop);
    var save: int :| Reaches(p, s, Exit(p, c, s).(lcsave := save), stop);
    FinalSrKeepsLoopFlag(p, c, s.sr, s.trace);
    n :| Leads(p, s, n, Exit(p, c, s).(lcsave := save), stop);
  }
}
