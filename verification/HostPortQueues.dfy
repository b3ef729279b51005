/** The host port as a queue of words from the CPU to the DSP (src/dsp_core.c:856-926, src/dsp_cpu.c:1176-1187). */
module HostToDspQueue {
  import opened HostPort

  /** The CPU sends a word byte by byte, TXL last, once it has seen TRDY. */
  datatype Sender = Idle | Ready(w: int) | SentHigh(w: int) | SentMiddle(w: int)

  /** `told`: the DSP has seen HRDF set and is about to read HRX. */
  datatype State = State(port: Port, sender: Sender, told: bool, sent: seq<int>, received: seq<int>)

  datatype Event = CpuPolls(w: int) | CpuWrites | DspPolls | DspReads

  predicate Enabled(s: State, e: Event) {
    match e
    case CpuPolls(w) => s.sender == Idle && 0 <= w < 0x100_0000
    case CpuWrites => s.sender != Idle
    case DspPolls => true
    case DspReads => s.told
  }

  function Next(s: State, e: Event): State {
    match e
    case CpuPolls(w) => if s.port.trdy then s.(sender := Ready(w)) else s
    case CpuWrites =>
      (match s.sender
       case Idle => s
       case Ready(w) => s.(port := HostWrite(s.port, TXH, w / 0x1_0000 % 0x100), sender := SentHigh(w))
       case SentHigh(w) => s.(port := HostWrite(s.port, TXM, w / 0x100 % 0x100), sender := SentMiddle(w))
       case SentMiddle(w) => s.(port := HostWrite(s.port, TXL, w % 0x100), sender := Idle, sent := s.sent + [w]))
    case DspPolls => s.(told := s.port.hrdf)
    case DspReads =>
      var p := DspRead(s.port);
      s.(port := p, told := false, received := s.received + [p.cell])
  }

  const START := State(RESET, Idle, false, [], [])

  function After(es: seq<Event>): State {
    if es == [] then START else Next(After(es[..|es| - 1]), es[|es| - 1])
  }

  predicate IsRun(es: seq<Event>) {
    es == [] || (IsRun(es[..|es| - 1]) && Enabled(After(es[..|es| - 1]), es[|es| - 1]))
  }

  predicate Inv(s: State) {
    && Consistent(s.port) && s.port.txde
    && s.sent == s.received + ToDsp(s.port)
    && (s.told ==> s.port.hrdf)
    && (s.sender != Idle ==> s.port.trdy && 0 <= s.sender.w < 0x100_0000)
    && (s.sender.SentHigh? || s.sender.SentMiddle? ==> s.port.high == s.sender.w / 0x1_0000 % 0x100)
    && (s.sender.SentMiddle? ==> s.port.middle == s.sender.w / 0x100 % 0x100)
  }

  lemma NextKeepsInv(s: State, e: Event)
    requires Inv(s) && Enabled(s, e)
    ensures Inv(Next(s, e))
  {
    if e.CpuWrites? && s.sender.SentMiddle? {
      SplitWord(s.sender.w);
    }
  }

  /** In every run the words received are a prefix of the words sent, and at most one is on the way. */
  lemma {:induction false} IsQueue(es: seq<Event>)
    requires IsRun(es)
    ensures After(es).received <= After(es).sent
    ensures After(es).sent == After(es).received + ToDsp(After(es).port)
    ensures After(es).port.trdy <==> After(es).received == After(es).sent
  {
    RunKeepsInv(es);
  }

  lemma {:induction false} RunKeepsInv(es: seq<Event>)
    requires IsRun(es)
    ensures Inv(After(es))
  {
    if es != [] {
      RunKeepsInv(es[..|es| - 1]);
      NextKeepsInv(After(es[..|es| - 1]), es[|es| - 1]);
    }
  }
}

/** The host port as a queue of words from the DSP to the CPU (src/dsp_core.c:829-854, src/dsp_cpu.c:1218-1225). */
module DspToHostQueue {
  import opened HostPort

  /** The CPU takes a word byte by byte, RXL last, once it has seen RXDF. */
  datatype Receiver = Idle | Ready | GotHigh(high: int) | GotMiddle(high: int, middle: int)

  /** `told`: the DSP has seen HTDE set and is about to write HTX. */
  datatype State = State(port: Port, receiver: Receiver, told: bool, sent: seq<int>, received: seq<int>)

  datatype Event = DspPolls | DspWrites(w: int) | CpuPolls | CpuReads

  predicate Enabled(s: State, e: Event) {
    match e
    case DspPolls => true
    case DspWrites(w) => s.told && 0 <= w < 0x100_0000
    case CpuPolls => s.receiver == Idle
    case CpuReads => s.receiver != Idle
  }

  function Next(s: State, e: Event): State {
    match e
    case DspPolls => s.(told := s.port.htde)
    case DspWrites(w) => s.(port := DspWrite(s.port, w), told := false, sent := s.sent + [w])
    case CpuPolls => if s.port.rxdf then s.(receiver := Ready) else s
    case CpuReads =>
      match s.receiver
      case Idle => s
      case Ready => s.(receiver := GotHigh(s.port.high))
      case GotHigh(high) => s.(receiver := GotMiddle(high, s.port.middle))
      case GotMiddle(high, middle) =>
        s.(port := HostRead(s.port, RXL), receiver := Idle, received := s.received + [Word(high, middle, s.port.low)])
  }

  const START := State(RESET, Idle, false, [], [])

  function After(es: seq<Event>): State {
    if es == [] then START else Next(After(es[..|es| - 1]), es[|es| - 1])
  }

  predicate IsRun(es: seq<Event>) {
    es == [] || (IsRun(es[..|es| - 1]) && Enabled(After(es[..|es| - 1]), es[|es| - 1]))
  }

  predicate Inv(s: State) {
    && Consistent(s.port)
    && s.sent == s.received + ToHost(s.port)
    && (!s.port.htde ==> 0 <= s.port.cell < 0x100_0000)
    && (s.told ==> s.port.htde)
    && (s.receiver != Idle ==> s.port.rxdf)
    && (s.receiver.GotHigh? || s.receiver.GotMiddle? ==> s.receiver.high == s.port.high)
    && (s.receiver.GotMiddle? ==> s.receiver.middle == s.port.middle)
  }

  lemma NextKeepsInv(s: State, e: Event)
    requires Inv(s) && Enabled(s, e)
    ensures Inv(Next(s, e))
  {
    match e
    case DspWrites(w) => SplitWord(w);
    case CpuReads =>
      if s.receiver.GotMiddle? && !s.port.htde {
        SplitWord(s.port.cell);
      }
    case _ =>
  }

  /** In every run the words received are a prefix of the words sent, and at most two are on the way. */
  lemma {:induction false} IsQueue(es: seq<Event>)
    requires IsRun(es)
    ensures After(es).received <= After(es).sent
    ensures After(es).sent == After(es).received + ToHost(After(es).port)
    ensures !After(es).port.rxdf <==> After(es).received == After(es).sent
  {
    RunKeepsInv(es);
  }

  lemma {:induction false} RunKeepsInv(es: seq<Event>)
    requires IsRun(es)
    ensures Inv(After(es))
  {
    if es != [] {
      RunKeepsInv(es[..|es| - 1]);
      NextKeepsInv(After(es[..|es| - 1]), es[|es| - 1]);
    }
  }
}
