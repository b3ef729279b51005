# Verified models of ARAnyM hardware emulation

ARAnyM emulates an Atari Falcon. This project models the parts of it that are hardest to get right and
proves what they are for:

- the DSP56001: 56-bit accumulator arithmetic on limbs, rounding, condition codes, DIV, NORM, MAC, the
  address registers (bit-reversed and modulo addressing), hardware loops, the memory map and long moves
  (`src/dsp_cpu.c`),
- the host port between CPU and DSP, as registers and as a protocol of two threads (`src/dsp_core.c`),
- the ATA controller: sector addressing, PIO transfers of sectors, ATAPI reads (`src/ata.cpp`),
- the blitter (`src/blitter.cpp`), the Adler-32 sum of a block (`src/adler32.c`) and the dirty-cell map
  of the screen (`src/dirty_rects.cpp`).

Code that updates state in place is a class or a method with loops; each is proved to do what a function on
values says, the theorems are about those functions, and the classes carry the main ones over to their own fields. `dafny verify dfyconfig.toml` checks everything.

| files | content |
|---|---|
| `Division` | facts about Euclidean division |
| `Accumulator`, `ConditionCodes`, `Divide`, `Normalize`, `DataAlu` | the data ALU |
| `BitReverse`, `Circular`, `AddressUnit` | the address registers |
| `HardwareLoops`, `ProgramControl` | DO, REP, subroutines and the hardware stack |
| `DspMemory`, `LongMove` | X and Y memory with the peripheral windows, storing and loading an accumulator |
| `HostPort`, `HostPortRuns`, `HostPortQueues`, `HostPortDuplex` | the host port, its interleavings, its two queues, both at once |
| `AtaAddress`, `AtaDisk`, `AtaController` | sector addresses, PIO transfers |
| `Atapi`, `AtapiController` | reads of the CD-ROM |
| `BlitWord`, `BlitMemory`, `BlitRun`, `BlitCopy`, `Blitter` | one word, memory, a whole blit, copies, the chip |
| `Adler32`, `DirtyRects` | the checksum, the dirty map |

## What turned out not to hold everywhere

Each of these is stated with the exact condition under which the code does hold.

- A modulo-addressed buffer is circular only while base + 2(M+1) does not pass 0x8000, or for M = 0x7fff at
  base 0: the code compares addresses as signed 16-bit numbers (`Circular.CircularIff`).
- A bit-reversed update is a reverse-carry addition of N exactly for powers of two; it ignores the other bits
  and the sign of N (`BitReverse.UpdateIsReverseCarryAdd`). The address register stays 16 bits wide exactly for
  N other than 0 (`AddressUnit.StaysIff`).
- A loop whose body ends with a loop never reaches its own end test and leaves its two slots on the stack. For
  every legal nest the stack is back when the PC first stands behind it if and only if no two loops share their
  end (`HardwareLoops.StackRestoredIff`).
- The loop end restores the whole status register from the stack, where the DSP restores the loop flag only: a
  loop leaves the status bits that its passes written out would leave exactly when the last pass ends with the
  bits that the loop began with (`HardwareLoops.RestoreIff`, `HardwareLoops.LoopLosesCarry`).
- A long move stores and loads back the clamped accumulator exactly for the numbers that the scaling mode
  saturates where it stores; in mode 0 these are all numbers (`LongMove.RoundTripIff`).
- TXDE alone does not allow the host to send: a word still waiting in the CPU window replaces the one the DSP
  was told about (`HostPort.ReadReturnsWordIff`). The two directions share their registers: with TRDY up a word
  sent leaves those on their way to the CPU alone exactly while RXDF is clear, and with HTDE up a word written
  by the DSP leaves the one in HRX alone exactly while HRDF is clear (`HostPort.SendSparesIff`,
  `HostPort.WriteSparesIff`). Over whole runs both directions are queues at once exactly under the discipline of
  `HostPortDuplex.SoundIff`; testing flags beforehand is not enough (`HostPortDuplex.FlagsAreNotEnough`).
- The checksum is right up to 5803 bytes and for no larger size (`Adler32.ExactIffShort`).
- An ATAPI read conserves bytes exactly when the request is below two gigabytes and no access crosses the end of
  a piece (`Atapi.ConservesIff`), and hands over those of the blocks exactly when none crosses the end of a
  block either (`Atapi.ContentIff`).
- Twenty-four DIV steps divide exactly the dividends below the divisor (`Divide.DivideIff`).
- A READ is cut to what the disc has exactly when it starts on the disc or at its end and its end does not wrap
  around 32 bits onto the disc (`Atapi.TransferLengthIff`); behind the end the length wraps to a huge one.
- A plain descending blit takes the word read before, so it copies only with FXSR set; an ascending one only
  with FXSR clear and every word read. With these settings it copies overlapping blocks exactly when no source
  word is overwritten before it is fetched, where a descending copy fetches one word ahead (`BlitCopy.CopyIff`).
- The test that should let NFSR read the last word anyway compares a negative number with the mask and never
  succeeds, so NFSR always suppresses that read (`BlitRun.ReadsAnyway`).
- An empty rectangle can mark a cell (`DirtyRects.EmptySpan`) and can leave the dirty box empty
  (`DirtyRects.DirtyIff`).

## Model

| member | source | states |
|---|---|---|
| `Accumulator.Add56` | src/dsp_cpu.c:3615-3657 | the limb addition with its carries is addition modulo 2^56; V exactly on signed overflow, C exactly on unsigned carry |
| `Accumulator.Sub56` | src/dsp_cpu.c:3659-3700 | the limb subtraction is subtraction modulo 2^56; V exactly on signed overflow, C exactly on borrow |
| `Accumulator.SumOfLimbs` | src/dsp_cpu.c:3627-3639 | limb sums with carries are the sum of the numbers, and the sign bits tell overflow |
| `Accumulator.DifferenceOfLimbs` | src/dsp_cpu.c:3668-3683 | the same for differences with borrows |
| `Accumulator.Asl56` | src/dsp_cpu.c:3568-3590 | a left shift doubles modulo 2^56; V exactly when the doubled value does not fit, C the bit shifted out |
| `Accumulator.Asr56` | src/dsp_cpu.c:3592-3613 | a right shift is division by two rounded down, C the remainder |
| `Accumulator.Abs56` | src/dsp_cpu.c:3546-3566 | the absolute value modulo 2^56, overflow exactly for -2^55 |
| `Accumulator.Mul56` | src/dsp_cpu.c:3702-3764 | the four 12-bit partial products give exactly twice the signed product, for all inputs including -1 times -1 |
| `Accumulator.PartialProducts` | src/dsp_cpu.c:3718-3738 | the partial products add up to the product |
| `Accumulator.Rnd56` | src/dsp_cpu.c:3766-3806 | in all scaling modes the result is the accumulator rounded half to even at 2^24, 2^25 or 2^23, modulo 2^56 |
| `Accumulator.RoundHalfEvenIsNearest` | src/dsp_cpu.c:3766-3806 | the rounded value is nearer than any other multiple, a tie goes to the even one |
| `Accumulator.RoundByAdding` | src/dsp_cpu.c:3766-3806 | adding half a unit, clearing the low bits and one more after a tie is rounding half to even |
| `ConditionCodes.ExtensionMeaning` | src/dsp_cpu.c:1028-1059 | E is clear exactly when the number fits the range of the scaling mode |
| `ConditionCodes.TestMeaning` | src/dsp_cpu.c:1028-1059 | the test of the bits above the range compares the number with the limit of the scaling mode |
| `ConditionCodes.UnnormalizedMeaning` | src/dsp_cpu.c:1061-1085 | U tells that the two bits below that range agree |
| `ConditionCodes.CcrMeaning` | src/dsp_cpu.c:1028-1108 | the flags computed from the limbs are those of the number |
| `ConditionCodes.CompareAndBranch` | src/dsp_cpu.c:1516-1540 | after a comparison, ge, lt, gt, le, eq, ne decide signed order and cc, cs unsigned order, also when the subtraction overflows |
| `ConditionCodes.ResultAndBranch` | src/dsp_cpu.c:1516-1540 | with flags that describe a number, pl and mi decide its sign, ec and es whether it fits the scaling mode, nr and nn whether it is normalised, ls and lc the limit flag |
| `Divide.DivInvariant` | src/dsp_cpu.c:1920-1965 | after k DIV steps the accumulator is the partial remainder of non-restoring division plus the quotient bits so far |
| `Divide.BitsMeaning` | src/dsp_cpu.c:1920-1965 | those bits are the quotient: dividend times 2^k minus divisor times (2q+1) is the partial remainder |
| `Divide.DivideTheorem` | src/dsp_cpu.c:1920-1965 | 24 steps divide: any dividend in range, any nonzero signed divisor, any initial carry; A0 is the quotient by twice the divisor, A2:A1 the remainder |
| `Divide.DivideIff` | src/dsp_cpu.c:1920-1965 | with the sign of the dividend as carry, quotient and remainder are right if and only if the dividend is below the divisor |
| `Normalize.StepIsShift` | src/dsp_cpu.c:2685-2726 | with flags in sync a NORM step is the shift the number calls for, keeps them in sync and counts it |
| `Normalize.RunStaysInSync` | src/dsp_cpu.c:2685-2726 | flags stay in sync over any number of steps |
| `Normalize.NormTheorem` | src/dsp_cpu.c:2685-2726 | in every scaling mode a bounded number of steps (47 left, 8 right in mode 0) ends normalised, left steps keeping the number, the address register counting modulo 2^16 |
| `Normalize.EnoughSteps` | src/dsp_cpu.c:2685-2726 | the bounds suffice for every 56-bit number |
| `DataAlu.Alu.Cmp` | src/dsp_cpu.c:4130-4194 | CMP leaves the accumulator alone and sets the flags of its comparison with the other accumulator, X0, Y0, X1 or Y1 |
| `DataAlu.CrossPairs` | src/dsp_cpu.c:551-561 | codes 4 to 7 name each pair of an X with a Y register once, codes 0 to 3 stay within X or within Y |
| `DataAlu.Alu.Multiply` | src/dsp_cpu.c:4330-4343 | the product the instruction adds is plus or minus twice the product of the two registers that each of the eight codes names |
| `DataAlu.Alu.Mac` | src/dsp_cpu.c:4325-4363 | A plus or minus twice that product modulo 2^56, V exactly on overflow, L sticky, no other register changed |
| `DataAlu.Alu.Macr` | src/dsp_cpu.c:4365-4405 | the same sum, rounded half to even in the current scaling mode |
| `DataAlu.RoundsToUpperWord` | src/dsp_cpu.c:3766-3806 | the unit of rounding is the limit of the scaling mode divided by 2^23 |
| `DataAlu.Alu.Div` | src/dsp_cpu.c:1920-1965 | one DIV step on the registers, C the new quotient bit, V exactly when the shift overflows |
| `DataAlu.Alu.DivideAccu` | src/dsp_cpu.c:1920-1965 | 24 repeated DIVs on the registers divide: quotient in A0, remainder in A2:A1, no other register changed |
| `DataAlu.Alu.Norm` | src/dsp_cpu.c:2685-2726 | one NORM step on accumulator, address register and flags, nothing else changed |
| `BitReverse.RevTwice` | src/dsp_cpu.c:1384-1405 | reversing the low bits twice gives them back |
| `BitReverse.StepMeaning` | src/dsp_cpu.c:1369-1408 | an update counts the reversed field up by one and keeps the upper bits |
| `BitReverse.RunMeaning` | src/dsp_cpu.c:1369-1408 | j updates take the field to the reversal of its reversal plus j, modulo its size |
| `BitReverse.RunEnumeratesBlock` | src/dsp_cpu.c:1369-1408 | every address of the block is reached at exactly one time, none outside, and the run returns to its start |
| `BitReverse.UpdateIsReverseCarryAdd` | src/dsp_cpu.c:1369-1408 | an update is reverse-carry addition of N if and only if N is a power of two |
| `Circular.BufSizeIsLeastPower` | src/dsp_cpu.c:1415-1421 | the size loop finds the least power of two that holds the buffer |
| `Circular.UpdateIsExact` | src/dsp_cpu.c:1410-1450 | in the low half an update moves around the ring by its modifier |
| `Circular.UpdateCanFail` | src/dsp_cpu.c:1410-1450 | elsewhere some update leaves the ring |
| `Circular.CircularIff` | src/dsp_cpu.c:1410-1450 | a buffer is circular for all offsets and modifiers if and only if it lies in the low half |
| `Circular.CircularRun` | src/dsp_cpu.c:1410-1450 | over any sequence of modifiers the register stays in the buffer and equals base plus the sum modulo M+1 |
| `Circular.FarUpdate` | src/dsp_cpu.c:1410-1450 | modifiers beyond M move by their sum less one length of the buffer, and M+1 itself by the plain sum |
| `AddressUnit.AddressRegisters.UpdateRn` | src/dsp_cpu.c:1347-1367 | the modifier register selects bit-reversed, modulo, linear or no update; no other register changes; all registers stay 16 bits wide if and only if not M = N = 0 |
| `AddressUnit.AddressRegisters.UpdateBitReverse` | src/dsp_cpu.c:1369-1408 | the loops compute the bit-reversed step |
| `AddressUnit.AddressRegisters.UpdateModulo` | src/dsp_cpu.c:1410-1450 | the loops and 16-bit comparisons compute the modulo step |
| `AddressUnit.CountBits` | src/dsp_cpu.c:1375-1381 | the search loop finds the lowest set bit |
| `AddressUnit.ReverseField` | src/dsp_cpu.c:1384-1390 | the loop reverses the low bits in place |
| `AddressUnit.ZeroModifierOverflows` | src/dsp_cpu.c:1375-1407 | with N = 0 the register becomes r + 65536 |
| `AddressUnit.StaysIff` | src/dsp_cpu.c:1369-1408 | a bit-reversed update keeps the register within 16 bits if and only if N is not 0 |
| `HardwareLoops.HardwareRunsStructured` | src/dsp_cpu.c:694-753 | any nest of DO loops, REPs, subroutine calls and instructions with distinct loop ends and enough stack runs as its structured form: bodies count times (0 meaning 65536), PC behind it, LA, LC, LF, stack restored, without passing the stop address before |
| `HardwareLoops.SimulateIterations` | src/dsp_cpu.c:1976-2049 | a loop with n passes to go runs its body n times and restores everything |
| `HardwareLoops.StepRepeated` | src/dsp_cpu.c:2759-2813 | a repeated instruction holds the PC until its count is used up, then gives LC back, even at a loop end |
| `HardwareLoops.LoopBack` | src/dsp_cpu.c:731-752 | the end test of a loop starts the next pass or pops both stack slots |
| `HardwareLoops.StepReturn` | src/dsp_cpu.c:2832-2840 | after the body of a subroutine the return comes back behind the call with the stack as before it |
| `HardwareLoops.PushThenPop` | src/dsp_cpu.c:1305-1341 | what is pushed comes back in 16 bits; a full stack takes nothing, an empty one gives nothing |
| `HardwareLoops.CallThenReturn` | src/dsp_cpu.c:2317-2336 | a return comes back behind the call with the stack as before it |
| `HardwareLoops.DoThenEnd` | src/dsp_cpu.c:1976-2049 | ENDDO undoes DO: LA, LC, SR and the stack are as before |
| `HardwareLoops.StackRestoredIff` | src/dsp_cpu.c:694-753 | for every legal code, when the PC first stands behind it the stack is as before if and only if no two loops share their end; otherwise it has grown by the slots that the code leaks |
| `HardwareLoops.LeakIffIllFormed` | src/dsp_cpu.c:731-752 | slots leak exactly from codes in which a loop ends where its body ends with a loop |
| `HardwareLoops.FirstBehindIsUnique` | src/dsp_cpu.c:694-753 | there is only one state in which the PC first stands behind a code |
| `HardwareLoops.RestoreIff` | src/dsp_cpu.c:731-752 | the machine leaves a loop with the status bits that its passes written out would leave if and only if the last pass ends with the bits that the loop began with |
| `HardwareLoops.LoopLosesCarry` | src/dsp_cpu.c:731-752 | a loop of one pass around an instruction that sets the carry loses it |
| `ProgramControl.Controller.StackPush` | src/dsp_cpu.c:1305-1322 | a push appends a slot to the hardware stack, up to 15; a full stack stays as it is |
| `ProgramControl.Controller.StackPop` | src/dsp_cpu.c:1324-1341 | a pop removes it; on an empty stack nothing changes |
| `ProgramControl.Controller.Do` | src/dsp_cpu.c:1976-2041 | DO saves LA, LC, PC and SR and sets up the loop |
| `ProgramControl.Controller.EndLoop` | src/dsp_cpu.c:2043-2049 | ENDDO restores SR, LA and LC |
| `ProgramControl.Controller.UpdateRep` | src/dsp_cpu.c:694-722 | the REP part of the PC update |
| `ProgramControl.Controller.CheckLoopEnd` | src/dsp_cpu.c:731-752 | the DO part of the PC update |
| `ProgramControl.Controller.PostExecuteUpdatePc` | src/dsp_cpu.c:694-753 | the PC update does what the machine of the loop theorem does |
| `ProgramControl.Controller.ExecuteInstruction` | src/dsp_cpu.c:640-686 | one instruction and the PC update on the registers and the flat stack is one step of the machine of the loop theorem |
| `ProgramControl.Controller.RunProgram` | src/dsp_cpu.c:640-753 | executing instructions until the PC stands behind a well-formed code ends in the state of its structured run |
| `DspMemory.ImagesDisjoint` | src/dsp_cpu.c:1158-1197 | the X and Y images of an address are never the same cell |
| `DspMemory.SameCellIff` | src/dsp_cpu.c:1158-1271 | two addresses of any spaces name one cell if and only if they are the same or the same word of the shared RAM, where X lies 16K above Y and P |
| `DspMemory.Memory.Read` | src/dsp_cpu.c:1158-1197 | a read gives what the addressed cell holds: internal RAM, the X or Y table, external RAM or peripheral; HSR shows HRDF, HTDE, HCP, HF0 and HF1; reading HRX takes the word from the host port |
| `DspMemory.Memory.Write` | src/dsp_cpu.c:1199-1271 | a write changes that cell only, to 24 bits, and a read-only one not at all; writing HTX hands the word to the host port, writing HCR sets HF2 and HF3 |
| `DspMemory.Memory.WriteThenRead` | src/dsp_cpu.c:1158-1271 | what is written to an address of the shared RAM is read at every address that shares its cell and at no other |
| `DspMemory.Memory.ProgramInY` | src/dsp_cpu.c:1189-1195 | P:a is Y:a, and X:a is Y:a+0x4000 |
| `LongMove.Mover.ReadAccu24` | src/dsp_cpu.c:2951-2994 | the limited upper word, L set exactly when the number is out of range |
| `LongMove.Mover.StoreLong` | src/dsp_cpu.c:3327-3366 | the two words go to the X and Y cells of any address, nothing else changes, L set exactly when the number is out of range |
| `LongMove.Mover.LoadLong` | src/dsp_cpu.c:3298-3326 | the two words of any address come back sign-extended, no other register changes |
| `LongMove.Mover.StoreThenLoad` | src/dsp_cpu.c:3284-3367 | in RAM, store then load clamps to 48 bits if and only if the scaling mode saturates the number where it stores; in mode 0 it gives the number back exactly when in range; a table gives its own words; L set exactly when out of range |
| `LongMove.RoundTripIff` | src/dsp_cpu.c:2951-2994 | in any scaling mode the round trip clamps if and only if the number is one that the mode saturates properly |
| `LongMove.RoundTripInModes` | src/dsp_cpu.c:2951-2994 | in every scaling mode what comes back: beyond the limit the largest or smallest 48-bit number, within it the low 48 bits |
| `LongMove.InRangeMeaning` | src/dsp_cpu.c:2957-2979 | the bit tests of the limiter compare with the limit of the scaling mode |
| `HostPort.AccessesKeepConsistent` | src/dsp_core.c:818-926 | every access keeps TRDY = TXDE and not HRDF, not TXDE implies HRDF, not HTDE implies RXDF |
| `HostPort.ReadReturnsWordIff` | src/dsp_core.c:857-895 | a read of HRX gives the word announced if and only if no other word waits |
| `HostPort.DirectionsInterfere` | src/dsp_core.c:830-926 | a word sent while one waits for the CPU replaces every word waiting there; a word the DSP writes while one waits in HRX replaces that |
| `HostPort.SendSparesIff` | src/dsp_core.c:857-926 | with TRDY up, sending any word leaves the words on their way to the CPU alone if and only if RXDF is clear |
| `HostPort.WriteSparesIff` | src/dsp_core.c:830-905 | with HTDE up, a word the DSP writes leaves those on their way to the DSP alone if and only if HRDF is clear |
| `HostPort.HostInterface.TransferToHost` | src/dsp_core.c:830-854 | a word moves to the host window when it is free |
| `HostPort.HostInterface.TransferToDsp` | src/dsp_core.c:857-884 | a word moves to HRX when it is free |
| `HostPort.HostInterface.DspReads` | src/dsp_core.c:886-895 | the DSP's read clears HRDF and pulls the next word |
| `HostPort.HostInterface.DspWrites` | src/dsp_core.c:897-905 | the DSP's write clears HTDE and pushes the word |
| `HostPort.HostInterface.ReadHost` | src/dsp_core.c:930-948 | a host read of any register: ISR shows RXDF, TXDE, TRDY, HF2 and HF3 in bits 0 to 4; the transfer and the wake-up come after the low byte |
| `HostPort.HostInterface.WriteHost` | src/dsp_core.c:950-1012 | a host write of any register with its masks and the read-only ones: host flags, host command, data bytes, with the transfer and the wake-up |
| `HostPort.HostInterface.TrySend` | src/dsp_core.c:930-1012 | a host that obeys bit 2 of ISR sends exactly when TRDY is up |
| `HostPort.HostInterface.SendAll` | src/dsp_core.c:857-1012 | words offered by a host that obeys ISR and read by the DSP arrive unchanged and in order |
| `HostPort.HostInterface.WriteAll` | src/dsp_core.c:830-948 | words written by the DSP and taken by a host that obeys ISR arrive unchanged and in order |
| `HostPort.HostInterface.Resume` | src/dsp_core.c:808-814 | a post leaves the semaphore at 1 |
| `HostPortRuns.NextKeepsInv` | src/dsp_cpu.c:2120-2169 | every step of either thread keeps the protocol invariant |
| `HostPortRuns.RunKeepsInv` | src/dsp_core.c:798-814 | so does every interleaving |
| `HostPortRuns.BlockedIsRescued` | src/dsp_core.c:798-1012 | in every run the semaphore stays below 2, a blocked DSP waits for a bit that is clear while the host's action is enabled, and that action wakes it with the bit set |
| `HostToDspQueue.IsQueue` | src/dsp_core.c:857-1012 | in every run the words the DSP received are a prefix of those sent, the rest is in flight in order, TRDY exactly when nothing is |
| `DspToHostQueue.IsQueue` | src/dsp_core.c:830-948 | the same from DSP to host, with RXDF |
| `HostPortDuplex.DuplexQueues` | src/dsp_core.c:818-1012 | in every interleaving in which the CPU writes no byte while a word waits for it, and the DSP no word while one waits for it or the CPU is between two bytes, both directions are queues at once |
| `HostPortDuplex.SoundIff` | src/dsp_core.c:818-1012 | that discipline is exact: an access keeps both directions queues, whatever the words and however it goes on, if and only if it does not break it |
| `HostPortDuplex.FlagsAreNotEnough` | src/dsp_core.c:818-1012 | the DSP sees every flag that invites it to write and still destroys the word that the CPU has begun |
| `AtaAddress.LogicalOfAddress` | src/ata.cpp:2781-2808 | the 32-bit arithmetic gives the sector that a proper CHS or LBA address means |
| `AtaAddress.LogicalOfZero` | src/ata.cpp:2781-2808 | the address 0/0/0 wraps around 32 bits and lies off the disk |
| `AtaAddress.IncrementAddsOne` | src/ata.cpp:2810-2840 | the step to the next sector adds one to its number, except behind the last sector |
| `AtaAddress.IncrementAtEnd` | src/ata.cpp:2810-2840 | behind the last sector CHS goes back to the start of the last cylinder |
| `AtaAddress.CylinderWraps` | src/ata.cpp:2810-2840 | a full cylinder register goes on with cylinder 0 |
| `AtaDisk.PutMeaning` | src/ata.cpp:1149-1215 | the stores of an access put each host byte at its seat, swapped or not |
| `AtaDisk.PutNumber` | src/ata.cpp:1149-1215 | in the image a word or long word is its big-endian number, or that of swapped pairs |
| `AtaDisk.ByteAccess` | src/ata.cpp:1149-1215 | byte accesses of the data port move the index and no data |
| `AtaDisk.GetMeaning` | src/ata.cpp:387-456 | a read access gives the host the bytes of their seats |
| `AtaDisk.WriteRun` | src/ata.cpp:1149-1273 | any aligned sequence of accesses writes its byte stream sector by sector |
| `AtaDisk.ReadRun` | src/ata.cpp:387-521 | any aligned sequence of reads delivers the bytes the sectors hold, in order |
| `AtaDisk.WriteThenRead` | src/ata.cpp:387-521 | WRITE SECTORS then READ SECTORS returns the stream, in CHS or LBA, any widths, 1 to 256 sectors; no other sector changes; DRQ is down after the last byte |
| `AtaDisk.DrqStaysUp` | src/ata.cpp:1149-1273 | before the last byte DRQ stays up |
| `AtaDisk.OffTheDisk` | src/ata.cpp:2004-2091 | a command or transfer off the disk ends with ERR up, DRQ down and the disk as it was |
| `AtaDisk.ReadsOffTheDisk` | src/ata.cpp:387-521 | so does a read that goes on behind the last sector |
| `AtaDisk.ReadStartsIff` | src/ata.cpp:2004-2063 | READ SECTORS raises DRQ with the addressed sector in the buffer if and only if the address is on the disk, else ERR |
| `AtaDisk.QuietPort` | src/ata.cpp:387-456 | without DRQ the data port gives nothing and nothing changes |
| `AtaDisk.NoSectorZero` | src/ata.cpp:2004-2063 | so does a read at cylinder, head and sector zero |
| `AtaController.Controller.CalculateLogicalAddress` | src/ata.cpp:2781-2808 | the sector of the registers and whether it is on the disk |
| `AtaController.Controller.IncrementAddress` | src/ata.cpp:2810-2840 | the registers of the next sector, count down by one |
| `AtaController.Controller.WriteData` | src/ata.cpp:1149-1273 | a data-port write does what the write transfer of the theorem does |
| `AtaController.Controller.ReadData` | src/ata.cpp:387-521 | a data-port read does what the read transfer of the theorem does |
| `AtaController.Controller.SendStream` | src/ata.cpp:1149-1273 | WRITE SECTORS and any aligned sequence of accesses put the byte stream on the image sector by sector |
| `AtaController.Controller.ReadSectors` | src/ata.cpp:2004-2063 | the read command, aborted for CHS 0/0/0 and off the disk |
| `AtaController.Controller.ReceiveStream` | src/ata.cpp:387-521 | READ SECTORS and any aligned sequence of accesses give the bytes that the sectors hold |
| `AtaController.Controller.RoundTrip` | src/ata.cpp:387-521 | on the controller itself, what is written is what is read back, no other sector of the image changes, DRQ and ERR are down |
| `Atapi.LengthIff` | src/ata.cpp:1782-1783 | the byte length of a request is right exactly below 2^20 blocks |
| `Atapi.TransferLengthIff` | src/ata.cpp:1738-1758 | a request is cut to the blocks the disc has if and only if it does not start behind the end of the disc and its end does not wrap onto the disc |
| `Atapi.TransferLengthBehind` | src/ata.cpp:1738-1758 | a start behind the disc gives a length that wraps around 32 bits |
| `Atapi.PieceRange` | src/ata.cpp:3298-3350 | the piece of a read is the largest even number that exceeds neither limit nor request, which is 0 for a limit below 2 |
| `Atapi.PieceIsLargestEven` | src/ata.cpp:3298-3350 | the same for any even request |
| `Atapi.AccountStep` | src/ata.cpp:613-655 | the accounting of an access inside its piece moves on by its width, and at the end of the piece the next one begins |
| `Atapi.CrossingLoses` | src/ata.cpp:613-655 | the first access that crosses the end of a piece, or comes after the last byte, loses the count |
| `Atapi.ReadStep` | src/ata.cpp:566-658 | an access inside its piece and its block hands over the next bytes of the blocks and loads a block exactly when needed |
| `Atapi.ReadConserves` | src/ata.cpp:566-658 | for accesses of any mixture of widths that cross neither a piece nor a block: delivered plus outstanding bytes are the request, the bytes are those of the blocks in order, blocks loaded are those touched, DRQ falls with the last byte and no block outstanding |
| `Atapi.ConservesIff` | src/ata.cpp:566-658 | bytes are conserved after every access of a sequence of any widths if and only if the request is below 2^20 blocks, no access crosses the end of a piece and none comes after the last byte |
| `Atapi.ContentIff` | src/ata.cpp:566-658 | of a transfer that conserves bytes, they are those of the blocks if and only if no access crosses the end of a block |
| `Atapi.UniformConserves` | src/ata.cpp:566-658 | bytes only, words only, and long words where the piece is a multiple of four always qualify |
| `AtapiController.PacketDevice.InitSend` | src/ata.cpp:3298-3350 | byte count and DRQ piece become the largest even number that exceeds neither the host limit nor the request; DRQ is up and the buffer counts as used up |
| `AtapiController.PacketDevice.Read` | src/ata.cpp:1736-1788 | READ(10) and READ(12) start the transfer of the cut length, or nothing at the end of the disc |
| `AtapiController.PacketDevice.ReadData` | src/ata.cpp:566-658 | a data-port read does what the read transfer of the theorem does, low byte first; behind the disc the buffer stays, behind the buffer the bytes are whatever lies there |
| `AtapiController.PacketDevice.Transfer` | src/ata.cpp:566-658 | a READ and a host that takes its bytes with accesses of any widths get the blocks of the disc in order, as far as the disc has them |
| `BlitWord.LogicIsTruthTable` | src/blitter.cpp:188-203 | the number of each of the sixteen operations is its truth table |
| `BlitWord.IgnoresSourceIff` | src/blitter.cpp:170-177 | the operations that skip the source are exactly those that do not depend on it |
| `BlitWord.ShiftIn` | src/blitter.cpp:185-188 | the 32-bit buffer always holds the last two words, side by side as on the screen |
| `BlitWord.WindowMeaning` | src/blitter.cpp:178-181 | the skewed window is the right word moved right with the left one moving in |
| `BlitRun.StoredMeaning` | src/blitter.cpp:138-140 | pixels under the mask take the operation, the others stay |
| `BlitRun.BlitMeaning` | src/blitter.cpp:114-167 | after a blit without hazards, at any even or odd addresses and increments and with 32-bit wrap-around, every destination word is its masked operation on source window, halftone line and old word, all as before the blit; no other byte changes; the registers point behind the blocks |
| `BlitRun.AddressMeaning` | src/blitter.cpp:128-163 | where each word is read and written, from the increments and the number of words |
| `BlitRun.BlitPixel` | src/blitter.cpp:114-323 | the same, pixel by pixel and spelled out from the registers: the words the skew combines, the pattern line that goes up or down with the lines, the three masks, the truth table of the operation |
| `BlitRun.BlitKeepsProtected` | src/blitter.cpp:104-110 | no blit, with hazards or without, changes a byte of low memory, ROM or the hardware registers |
| `BlitRun.WordsInduction` | src/blitter.cpp:131-160 | what the first word establishes and every later word keeps holds along the line |
| `BlitRun.ReadsAnyway` | src/blitter.cpp:153 | the second half of the test for the last source read never holds, for any skew and mask |
| `BlitCopy.CopyIff` | src/blitter.cpp:114-167 | a plain blit with distinct destination words copies for every memory only if FXSR and NFSR suit the direction, and does if besides no source word is overwritten before it is fetched; with distinct source words, if and only if |
| `BlitCopy.CopiesIff` | src/blitter.cpp:114-167 | with suitable settings and blocks of distinct words the copy moves the block for every memory if and only if no source word is overwritten before it is fetched, one word ahead when descending |
| `BlitCopy.InTimeCopies` | src/blitter.cpp:114-167 | the same condition gives the copy of a snapshot with everything else unchanged |
| `BlitCopy.OrderedInTime` | src/blitter.cpp:114-167 | ascending with the destination below, or descending with it above, no source word is overwritten before it is fetched |
| `BlitCopy.OverlappingCopy` | src/blitter.cpp:114-167 | such an overlapping copy equals the copy of a snapshot and changes nothing else |
| `Blitter.Chip.BlitWords` | src/blitter.cpp:130-160 | the loop over a line does what the model's words do, for every x count |
| `Blitter.Chip.BlitLine` | src/blitter.cpp:129-163 | one line and the step to the next, halftone line included |
| `Blitter.Chip.Blit` | src/blitter.cpp:114-167 | the whole loop, line counter down to zero |
| `Blitter.Chip.CheckAddresses` | src/blitter.cpp:596-616 | which source and destination addresses are refused, for which operations |
| `Blitter.Outcome` | src/blitter.cpp:584-624 | what a blit from an empty buffer leaves: painted pixels without hazards, the block moved by an ordered plain copy, nothing else changed |
| `Blitter.Chip.DoBlit` | src/blitter.cpp:584-624 | refused addresses leave memory alone; otherwise the blit from the programmed addresses and pattern line: without hazards every pixel is the masked operation on source, pattern and itself, an ordered plain copy moves the block, and no other byte changes |
| `Adler32.NoWrap` | src/adler32.c:41-53 | up to 5803 bytes neither 32-bit sum wraps |
| `Adler32.ReduceMeaning` | src/adler32.c:55-67 | two folds and one subtraction reduce both sums modulo 65521 |
| `Adler32.ShortBlockIsExact` | src/adler32.c:39-68 | up to 5803 bytes the result is the checksum of section 8.2 of RFC 1950 |
| `Adler32.ExactIffShort` | src/adler32.c:39-68 | the result is the checksum for all blocks of n bytes if and only if n is at most 5803 |
| `Adler32.WrapSpoils` | src/adler32.c:55-67 | a wrapped second sum never reduces to the right value |
| `Adler32.AddRow` | src/adler32.c:47-51 | the inner loop counts the bytes of a row |
| `Adler32.AddLines` | src/adler32.c:41-53 | the outer loop counts the rows of the block and skips the rest of the pitch |
| `Adler32.CalcAdler` | src/adler32.c:39-68 | the whole function, for any pitch: the checksum of the block if rows times lines is at most 5803 |
| `DirtyRects.TouchesIffSharesPixel` | src/dirty_rects.cpp:87-98 | the cell range of a rectangle is exactly the cells that share a pixel with it |
| `DirtyRects.EmptySpan` | src/dirty_rects.cpp:87-98 | an empty span reaches no cell if and only if it ends at or before its cell starts |
| `DirtyRects.BoxStartMeaning` | src/dirty_rects.cpp:75-85 | the start of the dirty box is the least cell start of a recorded rectangle that begins on the screen |
| `DirtyRects.BoxEndMeaning` | src/dirty_rects.cpp:75-85 | the end of the dirty box is the greatest last pixel of a recorded rectangle |
| `DirtyRects.BoxEndIsPixel` | src/dirty_rects.cpp:75-85 | the last column and the last row of the dirty box hold a pixel of some recorded rectangle |
| `DirtyRects.DirtyIff` | src/dirty_rects.cpp:144-147 | when the box counts as dirty, rectangles without width included |
| `DirtyRects.DirtyMap.ResizeDirty` | src/dirty_rects.cpp:43-68 | a new map counts as one rectangle over the whole area |
| `DirtyRects.DirtyMap.SetDirtyRect` | src/dirty_rects.cpp:75-107 | a cell is marked exactly when a recorded rectangle touches it, rectangles off screen or negative included |
| `DirtyRects.DirtyMap.SetDirtyLine` | src/dirty_rects.cpp:109-129 | a line records the smallest rectangle around its end points |
| `DirtyRects.DirtyMap.ClearDirtyRects` | src/dirty_rects.cpp:132-142 | nothing is recorded after a clear |
| `DirtyRects.DirtyMap.HasDirtyRect` | src/dirty_rects.cpp:144-147 | true exactly when some recorded rectangle reaches the least cell start recorded; for rectangles of positive width, exactly when there are any |
| `DirtyRects.DirtyMap.PixelsInBox` | src/dirty_rects.cpp:75-85 | every pixel of every recorded rectangle lies within the dirty box |
| `DirtyRects.DirtyMap.MarkedIffPixel` | src/dirty_rects.cpp:75-107 | a cell is marked if and only if some recorded rectangle has a pixel in it |

## Left out

- DSP instructions other than CMP, MAC, MACR, DIV, NORM, DO, ENDDO, REP, JSR, RTS, long moves and the host-port polls: their arithmetic is that of the operations modelled.
- DSP interrupts, the bootstrap, WAIT and STOP, and what the peripherals other than the host port do with the words written to them.
- HardwareLoops.HardwareRunsStructured: instructions inside loops change data and the low status bits only; jumps out of a loop, ENDDO inside a body and calls whose code overlaps the caller's are not part of the structured form.
- HardwareLoops.StackRestoredIff: subroutines are well formed; one that leaks returns to a saved loop address, outside any structured form.
- ProgramControl.Controller.StackPush: the stop of the DSP thread on a stack overflow is not modelled, only the stack.
- LongMove.Mover.StoreThenLoad: says nothing of the words that come back from the peripheral window.
- HostPort.HostInterface: DMA mode, and the interrupt that a host command raises.
- HostPortRuns: the mutex is modelled by making each access one step; a DSP that does not poll is outside the protocol.
- AtaDisk.WriteThenRead: PIO without interrupts; IDENTIFY, multiple mode, DMA, resets and slave selection are not modelled. Accesses that straddle a sector are outside the promise.
- AtaAddress.IncrementAddsOne: registers that form a proper address; others are not what a driver programs.
- Atapi: commands other than READ(10) and READ(12). The host's read of a block is taken to give the block; its byte offset, an int, is not modelled.
- BlitRun.BlitMeaning: bus errors are not modelled. The screen-to-screen shortcuts that are compiled out are not part of the model.
- BlitCopy.CopyIff: its last clause takes a destination that may be written; a word that the guard refuses is left as it was, as BlitRun.BlitMeaning says.
- Blitter.Chip: register access from the bus; a blit is started with at least one line, as the busy bit requires.
- DirtyRects: an area of zero width or height, and coordinates near the limits of a 32-bit int.
- Adler32.ExactIffShort: blocks of fewer than 2^31 bytes, the range of the source's loop counters.
