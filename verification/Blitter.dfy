/**
 * The blitter with its registers and memory updated in place (src/blitter.cpp:114-167 and 584-624).
 * The registers that a blit leaves alone come as a value; the loops do what Lines in BlitRun says.
 */
module Blitter {
  import opened BlitWord
  import opened BlitMemory
  import opened BlitRun
  import opened BlitCopy

  /** What a blit from an empty source buffer leaves in memory. */
  ghost predicate Meant(j: Job, b: State, after: Memory, h: nat) {
    && ProtectedKept(b.mem, after)
    && (HazardFree(j, b, h) ==> Painted(j, b, after, h) && OthersKept(j, b, after, h))
    && (Plain(j) && Straight(j) && Ordered(j, b, h) ==> IsMove(j, b, after, h) && OthersKept(j, b, after, h))
  }

  lemma Outcome(j: Job, b: State, h: nat)
    requires b.buffer == ZERO + ZERO
    ensures Meant(j, b, Lines(j, b, h).mem, h)
  {
    BlitKeepsProtected(j, b, h);
    if HazardFree(j, b, h) {
      BlitPaints(j, b, h);
    }
    if Plain(j) && Straight(j) && Ordered(j, b, h) {
      OverlappingCopy(j, b, h);
    }
  }

  class Chip {
    var mem: Memory
    var yCount: nat
    var halftoneCurrOffset: Nibble
    var halftoneDirection: int
    var sourceAddr: Address
    var sourceAddrBackup: Address
    var destAddr: Address
    var destAddrBackup: Address

    ghost function Now(buffer: Long): State
      reads this`mem, this`sourceAddr, this`destAddr, this`halftoneCurrOffset
    {
      State(mem, sourceAddr, destAddr, buffer, halftoneCurrOffset)
    }

    constructor (mem: Memory)
      ensures this.mem == mem && yCount == 0 && sourceAddr == destAddr == 0
    {
      this.mem := mem;
      yCount, halftoneCurrOffset, halftoneDirection := 0, 0, 0;
      sourceAddr, sourceAddrBackup, destAddr, destAddrBackup := 0, 0, 0, 0;
    }

    /** Shift the source buffer and read the next word into it. */
    method Next(j: Job, buffer: Long) returns (r: Long)
      ensures Now(r) == Fetch(j, Now(buffer))
    {
      if j.hop >= 2 && j.op !in {0, 5, 10, 15} {
        r := Taken(j.sourceX < 0, buffer, Look(mem, sourceAddr));
      } else {
        r := Shifted(j.sourceX < 0, buffer);
      }
    }

    /** Combine the operand with the destination and store under the mask. */
    method Put(j: Job, buffer: Long, mask: Word)
      modifies this`mem
      ensures Now(buffer) == Write(j, old(Now(buffer)), mask)
    {
      var d := Look(mem, destAddr);
      mem := Store(mem, destAddr, Stored(j, buffer, halftoneCurrOffset, mask, d));
    }

    method BeginLine(j: Job, buffer: Long) returns (r: Long)
      modifies this`mem, this`sourceAddr
      ensures Now(r) == FirstWord(j, old(Now(buffer)))
    {
      r := buffer;
      if j.fxsr {
        r := Next(j, r);
        sourceAddr := Wrap(sourceAddr + j.sourceX);
      }
      r := Next(j, r);
      Put(j, r, j.mask1);
    }

    method ContinueLine(j: Job, buffer: Long) returns (r: Long)
      modifies this`mem, this`sourceAddr, this`destAddr
      ensures Now(r) == MiddleWord(j, old(Now(buffer)))
    {
      sourceAddr := Wrap(sourceAddr + j.sourceX);
      destAddr := Wrap(destAddr + j.destX);
      r := Next(j, buffer);
      Put(j, r, j.mask2);
    }

    method FinishLine(j: Job, buffer: Long) returns (r: Long)
      modifies this`mem, this`sourceAddr, this`destAddr
      ensures Now(r) == LastWord(j, old(Now(buffer)))
    {
      destAddr := Wrap(destAddr + j.destX);
      r := Shifted(j.sourceX < 0, buffer);
      if !j.nfsr || ReadsAnyway(j) {
        sourceAddr := Wrap(sourceAddr + j.sourceX);
        r := Next(j, buffer);
      }
      Put(j, r, j.mask3);
    }

    /** The words of one line. */
    method BlitWords(j: Job, buffer: Long) returns (r: Long)
      modifies this`mem, this`sourceAddr, this`destAddr
      ensures Now(r) == Words(j, old(Now(buffer)), Width(j))
    {
      ghost var s := Now(buffer);
      r := BeginLine(j, buffer);
      var x := 0;
      while x < j.xCount - 2
        invariant 0 <= x && (x == 0 || x <= j.xCount - 2) && Now(r) == Words(j, s, x + 1)
      {
        r := ContinueLine(j, r);
        x := x + 1;
      }
      if j.xCount >= 2 {
        r := FinishLine(j, r);
      }
    }

    /** One line, and the step to the next. */
    method BlitLine(j: Job, buffer: Long) returns (r: Long)
      modifies this`mem, this`sourceAddr, this`destAddr, this`halftoneCurrOffset
      ensures Now(r) == Line(j, old(Now(buffer)))
    {
      r := BlitWords(j, buffer);
      sourceAddr := Wrap(sourceAddr + j.sourceY);
      destAddr := Wrap(destAddr + j.destY);
      if j.hop % 2 == 1 {
        halftoneCurrOffset := (halftoneCurrOffset + j.Direction()) % 16;
      }
    }

    /** The pattern line a blit begins with. */
    function StartLine(j: Job): Nibble
      reads this`halftoneCurrOffset
    {
      if j.hop % 2 == 0 then halftoneCurrOffset
      else if j.lineNum / 0x20 % 2 == 1 then j.skewReg % 16
      else j.lineNum % 16
    }

    method BeginPattern(j: Job)
      modifies this`halftoneCurrOffset, this`halftoneDirection
      ensures halftoneCurrOffset == old(StartLine(j))
    {
      if j.hop % 2 == 1 {
        if j.lineNum / 0x20 % 2 == 1 {
          halftoneCurrOffset := j.skewReg % 16;
        } else {
          halftoneCurrOffset := j.lineNum % 16;
        }
        halftoneDirection := if j.destY >= 0 then 1 else -1;
      }
    }

    /** The line counter, sixteen bits wide. */
    method CountLine() returns (more: bool)
      requires 1 <= yCount < 0x1_0000
      modifies this`yCount
      ensures yCount == old(yCount) - 1 && more == (yCount > 0)
    {
      yCount := (yCount - 1) % 0x1_0000;
      more := yCount > 0;
    }

    /** All lines. */
    method BlitLines(j: Job, start: Long) returns (r: Long)
      requires 1 <= yCount < 0x1_0000
      modifies this`mem, this`sourceAddr, this`destAddr, this`halftoneCurrOffset, this`yCount
      ensures yCount == 0 && Now(r) == Lines(j, old(Now(start)), old(yCount))
    {
      r := start;
      ghost var s, done := Now(start), 0;
      var more := true;
      while more
        invariant 0 <= yCount <= old(yCount) && done == old(yCount) - yCount && more == (yCount > 0)
        invariant Now(r) == Lines(j, s, done)
        decreases yCount
      {
        r := BlitLine(j, r);
        done := done + 1;
        more := CountLine();
      }
    }

    /** A whole blit, from an empty source buffer and the first line of the pattern. */
    method Blit(j: Job)
      requires 1 <= yCount < 0x1_0000
      modifies this`mem, this`sourceAddr, this`destAddr, this`halftoneCurrOffset, this`halftoneDirection, this`yCount
      ensures yCount == 0
      ensures var r := Lines(j, State(old(mem), old(sourceAddr), old(destAddr), ZERO + ZERO, old(StartLine(j))),
                             old(yCount));
              mem == r.mem && sourceAddr == r.source && destAddr == r.dest && halftoneCurrOffset == r.line
    {
      BeginPattern(j);
      var buffer := BlitLines(j, ZERO + ZERO);
    }

    /** The operation needs the source and its address is one the blitter must not use, or the destination is. */
    predicate Refused(j: Job)
      reads this`sourceAddrBackup, this`destAddrBackup
    {
      || (ReadsSource(j) && (sourceAddrBackup <= 0x800 || 0xe8_0000 <= sourceAddrBackup < 0x100_0000))
      || destAddrBackup <= 0x800 || 0xe0_0000 <= destAddrBackup < 0x100_0000
    }

    /**
     * The addresses a blit may start with: a destination above low memory and outside ROM and hardware,
     * and, if hop and op make use of it, such a source, where ROM may be read below 0xe80000.
     */
    method CheckAddresses(j: Job) returns (ok: bool)
      requires sourceAddr == sourceAddrBackup && destAddr == destAddrBackup
      ensures ok <==> !Refused(j)
      ensures ok <==> && 0x800 < destAddr && (destAddr < 0xe0_0000 || 0x100_0000 <= destAddr)
                      && (j.hop in {2, 3} && j.op in {1, 2, 3, 4, 6, 7, 8, 9, 11, 12, 13, 14} ==>
                            0x800 < sourceAddr && (sourceAddr < 0xe8_0000 || 0x100_0000 <= sourceAddr))
    {
      if j.hop != 0 && j.hop != 1 && j.op != 0 && j.op != 5 && j.op != 10 && j.op != 15
         && (sourceAddr <= 0x800 || 0xe8_0000 <= sourceAddr < 0x100_0000) {
        return false;
      }
      if destAddr <= 0x800 || 0xe0_0000 <= destAddr < 0x100_0000 {
        return false;
      }
      return true;
    }

    /**
     * Where a blit begins: at the addresses last programmed, with an empty source buffer and the pattern
     * line that the skew register gives if bit 5 of the line number (smudge) is set, else the line number.
     */
    ghost function Begin(j: Job): State
      reads this`mem, this`sourceAddrBackup, this`destAddrBackup, this`halftoneCurrOffset
    {
      State(mem, sourceAddrBackup, destAddrBackup, ZERO + ZERO,
            if j.hop in {1, 3} then (if j.lineNum / 32 % 2 == 1 then j.skewReg else j.lineNum) % 16
            else halftoneCurrOffset)
    }

    /**
     * Do_Blit: unless the addresses are refused, the lines are blitted. Without hazards every pixel
     * becomes the masked combination of source, pattern and itself, and nothing else changes; an
     * ordered plain copy moves the block.
     */
    method DoBlit(j: Job)
      requires 1 <= yCount < 0x1_0000
      modifies this`mem, this`sourceAddr, this`destAddr, this`halftoneCurrOffset, this`halftoneDirection, this`yCount
      ensures old(Refused(j)) ==>
              mem == old(mem) && yCount == old(yCount) && sourceAddr == sourceAddrBackup && destAddr == destAddrBackup
      ensures !old(Refused(j)) ==>
                var r := Lines(j, old(Begin(j)), old(yCount));
                && mem == r.mem && sourceAddr == r.source && destAddr == r.dest
                && halftoneCurrOffset == r.line && yCount == 0
      ensures !old(Refused(j)) ==> Meant(j, old(Begin(j)), mem, old(yCount))
    {
      ghost var b, h := Begin(j), yCount;
      sourceAddr := sourceAddrBackup;
      destAddr := destAddrBackup;
      var ok := CheckAddresses(j);
      if !ok {
        return;
      }
      Blit(j);
      Outcome(j, b, h);
    }
  }
}
