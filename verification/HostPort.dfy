/**
 * The host port between the 68040 and the DSP (src/dsp_core.c:818-1012, src/dsp_cpu.c:1176-1187 and
 * 1218-1243), after bootstrap.
 *
 * The two data registers of each side share storage: bytes 5, 6 and 7 of the CPU window are both
 * RXH/RXM/RXL and TXH/TXM/TXL, and HRX and HTX are one peripheral cell (src/include/dsp_core.h:40-46
 * and 75-76).
 */
module HostPort {
  import opened Division

  const ICR := 0
  const CVR := 1
  const ISR := 2
  const TXH := 5
  const TXM := 6
  const TXL := 7
  const RXL := 7

  /** The handshake bits of ISR and HSR, the three data bytes of the CPU window and the DSP's data cell. */
  datatype Port = Port(rxdf: bool, txde: bool, trdy: bool, hrdf: bool, htde: bool,
                       high: int, middle: int, low: int, cell: int)

  /** The port after a reset. */
  const RESET := Port(false, true, true, false, true, 0, 0, 0, 0)

  function Word(high: int, middle: int, low: int): int {
    low + middle * 0x100 + high * 0x1_0000
  }

  predicate IsByte(b: int) {
    0 <= b < 0x100
  }

  /** The word in the CPU window. */
  function Window(p: Port): int {
    Word(p.high, p.middle, p.low)
  }

  function UpdateTrdy(p: Port): Port {
    p.(trdy := p.txde && !p.hrdf)
  }

  function Dsp2Host(p: Port): Port {
    if p.rxdf || p.htde then p
    else p.(low := p.cell % 0x100, middle := p.cell / 0x100 % 0x100, high := p.cell / 0x1_0000 % 0x100,
            htde := true, rxdf := true)
  }

  function Host2Dsp(p: Port): Port {
    if p.txde || p.hrdf then p
    else UpdateTrdy(p.(cell := Window(p), hrdf := true, txde := true))
  }

  /** The DSP reads HRX: the flags move first, the word is fetched from the cell afterwards. */
  function DspRead(p: Port): Port {
    Host2Dsp(UpdateTrdy(p.(hrdf := false)))
  }

  /** The DSP writes HTX. */
  function DspWrite(p: Port, value: int): Port {
    Dsp2Host(p.(cell := value, htde := false))
  }

  /** The CPU reads RXL, after the byte has been fetched. */
  function CpuRead(p: Port): Port {
    Dsp2Host(p.(rxdf := false))
  }

  /** The CPU writes TXL, after the byte has been stored. */
  function CpuWrite(p: Port): Port {
    Host2Dsp(UpdateTrdy(p.(txde := false)))
  }

  /** One write by the host; registers that are read-only or of no concern here change nothing. */
  function HostWrite(p: Port, addr: int, value: int): Port {
    if addr == TXH then p.(high := value)
    else if addr == TXM then p.(middle := value)
    else if addr == TXL then CpuWrite(p.(low := value))
    else p
  }

  /** One read by the host. */
  function HostRead(p: Port, addr: int): Port {
    if addr == RXL then CpuRead(p) else p
  }

  /** The accesses after which the host wakes the DSP. */
  predicate Wakes(addr: int, write: bool, value: int) {
    addr == TXL || (write && addr == CVR && value / 0x80 % 2 == 1)
  }

  /** What holds between any two accesses. */
  predicate Consistent(p: Port) {
    && p.trdy == (p.txde && !p.hrdf)
    && (!p.txde ==> p.hrdf)
    && (!p.htde ==> p.rxdf)
  }

  /** Every access of either side keeps the handshake consistent, in any order. */
  lemma AccessesKeepConsistent(p: Port, addr: int, value: int)
    requires Consistent(p)
    ensures Consistent(HostWrite(p, addr, value)) && Consistent(HostRead(p, addr))
    ensures Consistent(DspRead(p)) && Consistent(DspWrite(p, value))
  {
  }

  /**
   * A read of HRX gives the word the DSP was told about exactly when no other word is waiting in the
   * CPU window (or the waiting one is the same): TXDE alone is not enough for the host to send.
   */
  lemma ReadReturnsWordIff(p: Port)
    requires Consistent(p) && p.hrdf
    ensures DspRead(p).cell == p.cell <==> p.txde || Window(p) == p.cell
  {
  }

  lemma SplitWord(w: int)
    requires 0 <= w < 0x100_0000
    ensures Word(w / 0x1_0000 % 0x100, w / 0x100 % 0x100, w % 0x100) == w
  {
    var high, rest := w / 0x1_0000, w % 0x1_0000;
    Quotient(w, 0x100, high * 0x100 + rest / 0x100, rest % 0x100);
    Quotient(high * 0x100 + rest / 0x100, 0x100, high, rest / 0x100);
    Quotient(high, 0x100, 0, high);
  }

  /** A word sent by the host, TXL last. */
  function Send(p: Port, w: int): Port {
    HostWrite(HostWrite(HostWrite(p, TXH, w / 0x1_0000 % 0x100), TXM, w / 0x100 % 0x100), TXL, w % 0x100)
  }

  /** The words on the way to the host: first the one in the CPU window, then the one in HTX. */
  function ToHost(p: Port): seq<int> {
    (if p.rxdf then [Window(p)] else []) + (if !p.htde then [p.cell] else [])
  }

  /** The words on the way to the DSP: first the one in HRX, then the one in the CPU window. */
  function ToDsp(p: Port): seq<int> {
    (if p.hrdf then [p.cell] else []) + (if !p.txde then [Window(p)] else [])
  }

  predicate IsWord(w: int) {
    0 <= w < 0x100_0000
  }

  /**
   * The directions share storage: a word that the host sends when invited by TRDY takes the place of
   * every word on its way to the host, one that the DSP writes when invited by HTDE the place of the
   * word it has yet to read.
   */
  lemma DirectionsInterfere(p: Port, w: int)
    requires Consistent(p) && IsWord(w)
    ensures p.trdy ==> ToHost(Send(p, w)) == if !p.rxdf then [] else if p.htde then [w] else [w, w]
    ensures p.htde && p.hrdf ==> ToDsp(DspWrite(p, w))[0] == w
  {
    SplitWord(w);
  }

  /** The word sent leaves the words on their way to the host alone. */
  predicate SendSpares(p: Port, w: int) {
    ToHost(Send(p, w)) == ToHost(p)
  }

  predicate WriteSpares(p: Port, w: int) {
    ToDsp(DspWrite(p, w)) == ToDsp(p)
  }

  lemma SendSparesNot(p: Port, w: int)
    requires Consistent(p) && p.trdy && p.rxdf && IsWord(w) && w != Window(p)
    ensures !SendSpares(p, w)
  {
    DirectionsInterfere(p, w);
    assert ToHost(Send(p, w))[0] != ToHost(p)[0];
  }

  /** So every word sent spares the other direction exactly while nothing is on the way to the host. */
  lemma SendSparesIff(p: Port)
    requires Consistent(p) && p.trdy
    ensures (forall w | IsWord(w) :: SendSpares(p, w)) <==> !p.rxdf
  {
    if p.rxdf {
      SendSparesNot(p, if Window(p) == 0 then 1 else 0);
    } else {
      forall w | IsWord(w) ensures SendSpares(p, w) {
        DirectionsInterfere(p, w);
      }
    }
  }

  lemma WriteSparesNot(p: Port, w: int)
    requires Consistent(p) && p.htde && p.hrdf && IsWord(w) && w != p.cell
    ensures !WriteSpares(p, w)
  {
    DirectionsInterfere(p, w);
    assert ToDsp(DspWrite(p, w))[0] != ToDsp(p)[0];
  }

  /** Every word written by the DSP spares the other direction exactly while nothing waits for the DSP. */
  lemma WriteSparesIff(p: Port)
    requires Consistent(p) && p.htde
    ensures (forall w | IsWord(w) :: WriteSpares(p, w)) <==> !p.hrdf
  {
    if p.hrdf {
      WriteSparesNot(p, if p.cell == 0 then 1 else 0);
    }
  }

  lemma SentWord(p: Port, w: int)
    requires Consistent(p) && p.trdy && IsWord(w)
    ensures var q := DspRead(Send(p, w)); q.cell == w && Consistent(q) && q.trdy
  {
    SplitWord(w);
  }

  lemma PassedWord(p: Port, w: int)
    requires Consistent(p) && !p.rxdf && IsWord(w)
    ensures w % 0x100_0000 == w && Window(DspWrite(p, w)) == w
    ensures DspWrite(p, w).rxdf
    ensures var q := CpuRead(DspWrite(p, w)); Consistent(q) && !q.rxdf
  {
    SplitWord(w);
    Quotient(w, 0x100_0000, 0, w);
  }

  /** Five flags as the lowest bits of a status register, the other bits clear. */
  predicate ShowsFlags(value: int, f0: bool, f1: bool, f2: bool, f3: bool, f4: bool) {
    && 0 <= value < 32 && (value % 2 == 1 <==> f0) && (value / 2 % 2 == 1 <==> f1) && (value / 4 % 2 == 1 <==> f2)
    && (value / 8 % 2 == 1 <==> f3) && (value / 16 % 2 == 1 <==> f4)
  }

  lemma ControlBits(value: int)
    requires IsByte(value)
    ensures var v := value - value / 4 % 2 * 4; IsByte(v) && v % 4 == value % 4 && v / 4 % 2 == 0 && v / 8 == value / 8
  {
    var h, l := value / 8, value % 4;
    Quotient(value / 4, 2, h, value / 4 % 2);
    Quotient(h * 8 + l, 4, h * 2, l);
    Quotient(h * 8 + l, 8, h, l);
  }

  lemma CommandBits(value: int)
    requires IsByte(value)
    ensures var v := value % 0x20 + value / 0x80 * 0x80;
            IsByte(v) && v % 32 == value % 32 && v / 32 % 4 == 0 && v / 128 == value / 128
    ensures value / 0x80 % 2 == 1 <==> value >= 0x80
  {
    var h, l := value / 0x80, value % 0x20;
    Quotient(h * 0x80 + l, 32, h * 4, l);
    Quotient(h * 0x80 + l, 128, h, l);
  }

  class HostInterface {
    var txde: bool
    var rxdf: bool
    var trdy: bool
    var hrdf: bool
    var htde: bool
    const hostport: array<int>
    var cell: int
    var semaphore: int
    /** The host flags and the pending host command. */
    var hf0: bool
    var hf1: bool
    var hf2: bool
    var hf3: bool
    var hcp: bool

    ghost predicate Valid()
      reads this, hostport
    {
      && hostport.Length == 8 && (forall i | 0 <= i < 8 :: IsByte(hostport[i]))
      && 0 <= cell < 0x100_0000 && 0 <= semaphore <= 1
    }

    /** dsp_core_reset, host port part, after which the DSP has been started. */
    constructor ()
      ensures Valid() && Abs() == RESET && semaphore == 0 && !hf0 && !hf1 && !hf2 && !hf3 && !hcp
      ensures hostport[0] == hostport[2] == hostport[4] == 0 && hostport[1] == 0x12 && hostport[3] == 0x0f
      ensures txde && trdy && htde && !rxdf && !hrdf && cell == 0
    {
      txde, rxdf, trdy, hrdf, htde := true, false, true, false, true;
      hostport := new int[8](i => if i == CVR then 0x12 else if i == 3 then 0x0f else 0);
      cell, semaphore := 0, 0;
      hf0, hf1, hf2, hf3, hcp := false, false, false, false, false;
    }

    ghost function Abs(): Port
      requires hostport.Length == 8
      reads this, hostport
    {
      Port(rxdf, txde, trdy, hrdf, htde, hostport[5], hostport[6], hostport[7], cell)
    }

    /** dsp_core_hostport_update_trdy. */
    method UpdateReady()
      requires Valid()
      modifies this`trdy
      ensures Valid() && Abs() == UpdateTrdy(old(Abs()))
    {
      trdy := false;
      trdy := txde && !hrdf;
    }

    /** dsp_core_dsp2host. */
    method TransferToHost()
      requires Valid()
      modifies this`htde, this`rxdf, hostport
      ensures Valid() && Abs() == Dsp2Host(old(Abs()))
    {
      if rxdf { return; }
      if htde { return; }
      hostport[RXL] := cell % 0x100;
      hostport[TXM] := cell / 0x100 % 0x100;
      hostport[TXH] := cell / 0x1_0000 % 0x100;
      htde := true;
      rxdf := true;
    }

    /** dsp_core_host2dsp. */
    method TransferToDsp()
      requires Valid()
      modifies this`cell, this`hrdf, this`txde, this`trdy
      ensures Valid() && Abs() == Host2Dsp(old(Abs()))
    {
      if txde { return; }
      if hrdf { return; }
      cell := hostport[TXL];
      cell := cell + hostport[TXM] * 0x100;
      cell := cell + hostport[TXH] * 0x1_0000;
      hrdf := true;
      txde := true;
      UpdateReady();
    }

    /** read_memory of X:HRX by the DSP. */
    method DspReads() returns (value: int)
      requires Valid()
      modifies this`cell, this`hrdf, this`txde, this`trdy
      ensures Valid() && Abs() == DspRead(old(Abs())) && value == cell
    {
      hrdf := false;
      UpdateReady();
      TransferToDsp();
      value := cell;
    }

    /** write_memory_raw to X:HTX by the DSP. */
    method DspWrites(value: int)
      requires Valid()
      modifies this`cell, this`htde, this`rxdf, hostport
      ensures Valid() && Abs() == DspWrite(old(Abs()), value % 0x100_0000)
    {
      cell := value % 0x100_0000;
      htde := false;
      TransferToHost();
    }

    /** resumeThreadThread: post only a semaphore that is down. */
    method Resume()
      requires Valid()
      modifies this`semaphore
      ensures Valid() && semaphore == 1
    {
      if semaphore == 0 {
        semaphore := semaphore + 1;
      }
    }

    /** The status register of the host side. */
    function Status(): (isr: int)
      reads this
      ensures IsByte(isr)
    {
      (if rxdf then 1 else 0) + (if txde then 2 else 0) + (if trdy then 4 else 0)
      + (if hf2 then 8 else 0) + (if hf3 then 16 else 0)
    }

    /** dsp_core_read_host. */
    method ReadHost(addr: int) returns (value: int)
      requires Valid() && 0 <= addr < 8
      modifies this`rxdf, this`htde, this`semaphore, hostport
      ensures Valid() && Abs() == HostRead(old(Abs()), addr)
      ensures addr != 2 ==> value == old(hostport[addr])
      ensures addr == 2 ==> ShowsFlags(value, old(rxdf), old(txde), old(trdy), old(hf2), old(hf3))
      ensures semaphore == (if addr == 7 then 1 else old(semaphore)) && (Wakes(addr, false, 0) <==> addr == 7)
    {
      value := if addr == ISR then Status() else hostport[addr];
      if addr == RXL {
        rxdf := false;
        TransferToHost();
        Resume();
      }
    }

    /** dsp_core_write_host, with the DSP running. */
    method WriteHost(addr: int, value: int)
      requires Valid() && 0 <= addr < 8 && IsByte(value)
      modifies this, hostport
      ensures Valid() && Abs() == HostWrite(old(Abs()), addr, value)
      ensures semaphore == if addr == 7 || (addr == 1 && value >= 0x80) then 1 else old(semaphore)
      ensures Wakes(addr, true, value) <==> addr == 7 || (addr == 1 && value >= 0x80)
      ensures forall i | i in {2, 3, 4} :: hostport[i] == if i == addr == 3 then value else old(hostport[i])
      ensures addr != 0 ==> hostport[0] == old(hostport[0])
      ensures addr == 0 ==> hostport[0] % 4 == value % 4 && hostport[0] / 4 % 2 == 0 && hostport[0] / 8 == value / 8
      ensures addr != 1 ==> hostport[1] == old(hostport[1])
      ensures addr == 1 ==>
              hostport[1] % 32 == value % 32 && hostport[1] / 32 % 4 == 0 && hostport[1] / 128 == value / 128
      ensures (hf0, hf1) == if addr == ICR then (value / 8 % 2 == 1, value / 16 % 2 == 1) else (old(hf0), old(hf1))
      ensures hcp == (old(hcp) || (addr == CVR && value / 0x80 % 2 == 1)) && (hf2, hf3) == (old(hf2), old(hf3))
    {
      if addr == ICR {
        WriteControl(value);
      } else if addr == CVR {
        WriteCommand(value);
      } else if addr == TXL {
        WriteLow(value);
      } else if addr != ISR && addr != 4 {
        hostport[addr] := value;
      }
    }

    /** The control register without its bit 2; HF0 and HF1 go to the DSP. */
    method WriteControl(value: int)
      requires Valid() && IsByte(value)
      modifies this`hf0, this`hf1, hostport
      ensures Valid() && forall i | 1 <= i < 8 :: hostport[i] == old(hostport[i])
      ensures hostport[0] % 4 == value % 4 && hostport[0] / 4 % 2 == 0 && hostport[0] / 8 == value / 8
      ensures (hf0, hf1) == (value / 8 % 2 == 1, value / 16 % 2 == 1)
    {
      ControlBits(value);
      hostport[ICR] := value - value / 4 % 2 * 4;
      hf0, hf1 := value / 8 % 2 == 1, value / 16 % 2 == 1;
    }

    /** The command vector register without its bits 5 and 6; bit 7 is a host command. */
    method WriteCommand(value: int)
      requires Valid() && IsByte(value)
      modifies this`hcp, this`semaphore, hostport
      ensures Valid() && forall i | 0 <= i < 8 && i != 1 :: hostport[i] == old(hostport[i])
      ensures hostport[1] % 32 == value % 32 && hostport[1] / 32 % 4 == 0 && hostport[1] / 128 == value / 128
      ensures hcp == (old(hcp) || value >= 0x80) && semaphore == if value >= 0x80 then 1 else old(semaphore)
    {
      CommandBits(value);
      hostport[CVR] := value % 0x20 + value / 0x80 * 0x80;
      if value / 0x80 % 2 == 1 {
        hcp := true;
        Resume();
      }
    }

    method WriteLow(value: int)
      requires Valid() && IsByte(value)
      modifies this`txde, this`trdy, this`hrdf, this`cell, this`semaphore, hostport
      ensures Valid() && Abs() == HostWrite(old(Abs()), TXL, value) && semaphore == 1
      ensures forall i | 0 <= i < 5 :: hostport[i] == old(hostport[i])
    {
      hostport[TXL] := value;
      txde := false;
      UpdateReady();
      TransferToDsp();
      Resume();
    }

    /** A word sent by the host. */
    method SendWord(w: int)
      requires Valid() && IsWord(w)
      modifies this, hostport
      ensures Valid() && Abs() == Send(old(Abs()), w)
    {
      WriteHost(TXH, w / 0x1_0000 % 0x100);
      WriteHost(TXM, w / 0x100 % 0x100);
      WriteHost(TXL, w % 0x100);
    }

    /** The host reads ISR and sends a word if TRDY, its bit 2, is set. */
    method TrySend(w: int) returns (sent: bool)
      requires Valid() && IsWord(w)
      modifies this, hostport
      ensures Valid() && sent == old(trdy) && Abs() == if sent then Send(old(Abs()), w) else old(Abs())
    {
      var isr := ReadHost(2);
      sent := isr / 4 % 2 == 1;
      if sent {
        SendWord(w);
      }
    }

    /** Words offered one by one by a host that obeys ISR, each read by the DSP, arrive as they were sent. */
    method SendAll(words: seq<int>) returns (received: seq<int>)
      requires Valid() && Consistent(Abs()) && trdy && forall i | 0 <= i < |words| :: IsWord(words[i])
      modifies this, hostport
      ensures Valid() && Consistent(Abs()) && trdy && received == words
    {
      received := [];
      for i := 0 to |words|
        invariant Valid() && Consistent(Abs()) && trdy && received == words[..i]
      {
        var w := SendOne(words[i]);
        received := received + [w];
      }
    }

    method SendOne(w: int) returns (received: int)
      requires Valid() && Consistent(Abs()) && trdy && IsWord(w)
      modifies this, hostport
      ensures Valid() && Consistent(Abs()) && trdy && received == w
    {
      received := 0;
      ghost var p := Abs();
      var sent := TrySend(w);
      if sent {
        SentWord(p, w);
        received := DspReads();
      }
    }

    /** A word taken by the host, RXL last. */
    method ReceiveWord() returns (w: int)
      requires Valid()
      modifies this`rxdf, this`htde, this`semaphore, hostport
      ensures Valid() && Abs() == CpuRead(old(Abs())) && w == Window(old(Abs()))
    {
      var high := ReadHost(TXH);
      var middle := ReadHost(TXM);
      var low := ReadHost(RXL);
      w := Word(high, middle, low);
    }

    /** Words written by the DSP, each taken by the host once ISR shows RXDF, arrive as they were written. */
    method WriteAll(words: seq<int>) returns (received: seq<int>)
      requires Valid() && Consistent(Abs()) && !rxdf && forall i | 0 <= i < |words| :: IsWord(words[i])
      modifies this, hostport
      ensures Valid() && Consistent(Abs()) && !rxdf && received == words
    {
      received := [];
      for i := 0 to |words|
        invariant Valid() && Consistent(Abs()) && !rxdf && received == words[..i]
      {
        var w := PassWord(words[i]);
        received := received + [w];
      }
    }

    method PassWord(w: int) returns (received: int)
      requires Valid() && Consistent(Abs()) && !rxdf && IsWord(w)
      modifies this, hostport
      ensures Valid() && Consistent(Abs()) && !rxdf && received == w
    {
      PassedWord(Abs(), w);
      DspWrites(w);
      received := 0;
      var isr := ReadHost(2);
      if isr % 2 == 1 {
        received := ReceiveWord();
      }
    }
  }
}
