/**
 * Both directions of the host port at once (src/dsp_core.c:818-1012). They share the CPU window and
 * the data cell of the DSP, so two senders that watch their own flags can overwrite each other; this
 * is the discipline under which both directions are queues in every interleaving, and it is exact.
 */
module HostPortDuplex {
  import opened Division
  import opened HostPort
  import Down = HostToDspQueue
  import Up = DspToHostQueue

  /** Words go down to the DSP and up to the CPU, over one port. */
  datatype State = State(down: Down.State, up: Up.State)

  datatype Event = Downward(d: Down.Event) | Upward(u: Up.Event)

  const START := State(Down.START, Up.START)

  predicate Enabled(s: State, e: Event) {
    match e
    case Downward(d) => Down.Enabled(s.down, d)
    case Upward(u) => Up.Enabled(s.up, u)
  }

  function Next(s: State, e: Event): State {
    match e
    case Downward(d) => var r := Down.Next(s.down, d); State(r, s.up.(port := r.port))
    case Upward(u) => var r := Up.Next(s.up, u); State(s.down.(port := r.port), r)
  }

  /** The CPU has written the first byte of a word, and not the last. */
  predicate MidWord(s: State) {
    s.down.sender.SentHigh? || s.down.sender.SentMiddle?
  }

  /**
   * An access that breaks the discipline: the CPU writes a byte while a word waits for it, or the DSP
   * writes a word while one waits for it or while the CPU is in the middle of one.
   */
  predicate Clash(s: State, e: Event) {
    match e
    case Downward(CpuWrites) => s.up.port.rxdf
    case Upward(DspWrites(_)) => s.down.port.hrdf || MidWord(s)
    case _ => false
  }

  /** A run of events that can happen and do not clash. */
  predicate Proper(s: State, es: seq<Event>)
    decreases |es|
  {
    es == [] || (Enabled(s, es[0]) && !Clash(s, es[0]) && Proper(Next(s, es[0]), es[1..]))
  }

  function After(s: State, es: seq<Event>): State
    decreases |es|
  {
    if es == [] then s else After(Next(s, es[0]), es[1..])
  }

  /** What was sent in each direction is what was received, followed by what is on the way. */
  predicate BothQueues(s: State) {
    && s.down.sent == s.down.received + ToDsp(s.down.port)
    && s.up.sent == s.up.received + ToHost(s.up.port)
  }

  predicate Inv(s: State) {
    && s.down.port == s.up.port && Down.Inv(s.down) && Up.Inv(s.up)
    && (s.down.port.hrdf ==> s.down.port.htde) && (MidWord(s) ==> !s.down.port.rxdf)
  }

  lemma DownKeepsInv(s: State, d: Down.Event)
    requires Inv(s) && Down.Enabled(s.down, d) && !Clash(s, Downward(d))
    ensures Inv(Next(s, Downward(d)))
  {
    Down.NextKeepsInv(s.down, d);
  }

  lemma UpKeepsInv(s: State, u: Up.Event)
    requires Inv(s) && Up.Enabled(s.up, u) && !Clash(s, Upward(u))
    ensures Inv(Next(s, Upward(u)))
  {
    Up.NextKeepsInv(s.up, u);
  }

  lemma NextKeepsInv(s: State, e: Event)
    requires Inv(s) && Enabled(s, e) && !Clash(s, e)
    ensures Inv(Next(s, e))
  {
    match e
    case Downward(d) => DownKeepsInv(s, d);
    case Upward(u) => UpKeepsInv(s, u);
  }

  lemma {:induction false} ProperKeepsInv(s: State, es: seq<Event>)
    requires Inv(s) && Proper(s, es)
    ensures Inv(After(s, es))
    decreases |es|
  {
    if es != [] {
      NextKeepsInv(s, es[0]);
      ProperKeepsInv(Next(s, es[0]), es[1..]);
    }
  }

  /** In every interleaving without a clash both directions are queues. */
  lemma {:induction false} DuplexQueues(es: seq<Event>)
    requires Proper(START, es)
    ensures BothQueues(After(START, es))
    ensures After(START, es).down.received <= After(START, es).down.sent
    ensures After(START, es).up.received <= After(START, es).up.sent
  {
    ProperKeepsInv(START, es);
  }

  // ---- The discipline is exact ----

  /** The same event in the same state, but for the word that is about to be sent. */
  predicate Alike(s: State, e: Event, t: State, f: Event) {
    && t == s.(down := s.down.(sender := t.down.sender)) && Enabled(t, f)
    && (if s.down.sender.Ready? then t.down.sender.Ready? && IsWord(t.down.sender.w)
        else t.down.sender == s.down.sender)
    && (if e.Upward? && e.u.DspWrites? then f.Upward? && f.u.DspWrites? else f == e)
  }

  /** Whatever the words are, both directions stay queues after the event, however it goes on without a clash. */
  ghost predicate Sound(s: State, e: Event) {
    forall t: State, f: Event, es: seq<Event> {:trigger After(Next(t, f), es), Alike(s, e, t, f)} |
      Alike(s, e, t, f) && Proper(Next(t, f), es) :: BothQueues(After(Next(t, f), es))
  }

  lemma ProperIsSound(s: State, e: Event)
    requires Inv(s) && Enabled(s, e) && !Clash(s, e)
    ensures Sound(s, e)
  {
    forall t: State, f: Event, es: seq<Event> | Alike(s, e, t, f) && Proper(Next(t, f), es)
      ensures BothQueues(After(Next(t, f), es)) {
      NextKeepsInv(t, f);
      ProperKeepsInv(Next(t, f), es);
    }
  }

  lemma Refutes(s: State, e: Event, t: State, f: Event, es: seq<Event>)
    requires Alike(s, e, t, f) && Proper(Next(t, f), es) && !BothQueues(After(Next(t, f), es))
    ensures !Sound(s, e)
  {
  }

  /** A sequence continued in two ways. */
  lemma Differ(a: seq<int>, x: seq<int>, y: seq<int>)
    requires x != [] && y != [] && x[0] != y[0]
    ensures a + x != a + y
  {
    assert (a + x)[|a|] == x[0] && (a + y)[|a|] == y[0];
  }

  /** A byte written into the window of a waiting word changes that word. */
  lemma WriteIntoWindow(s: State)
    requires Inv(s) && s.down.sender.Ready? && s.up.port.rxdf
    ensures !Sound(s, Downward(Down.CpuWrites))
  {
    var w := if s.up.port.high == 0 then 0x1_0000 else 0;
    var t := s.(down := s.down.(sender := Down.Ready(w)));
    var e := Downward(Down.CpuWrites);
    var r := Next(t, e);
    Differ(s.up.received, ToHost(s.up.port), ToHost(r.up.port));
    assert After(r, []) == r;
    Refutes(s, e, t, e, []);
  }

  /** A word written over the one that waits in the cell changes that. */
  lemma WriteIntoCell(s: State, w: int)
    requires Inv(s) && Enabled(s, Upward(Up.DspWrites(w))) && s.down.port.hrdf
    ensures !Sound(s, Upward(Up.DspWrites(w)))
  {
    var v := if s.down.port.cell == 0 then 1 else 0;
    var f := Upward(Up.DspWrites(v));
    var r := Next(s, f);
    Differ(s.down.received, ToDsp(s.down.port), ToDsp(r.down.port));
    assert After(r, []) == r;
    Refutes(s, Upward(Up.DspWrites(w)), s, f, []);
  }

  lemma Prepend(s: State, e: Event, es: seq<Event>)
    requires Enabled(s, e) && !Clash(s, e) && Proper(Next(s, e), es)
    ensures Proper(s, [e] + es) && After(s, [e] + es) == After(Next(s, e), es)
  {
    assert ([e] + es)[1..] == es;
  }

  /** The state after the CPU has taken the word that waits for it. */
  function Taken(s: State): State {
    var read := Upward(Up.CpuReads);
    Next(Next(Next(Next(s, Upward(Up.CpuPolls)), read), read), read)
  }

  lemma TakenMeaning(s: State)
    requires s.up.receiver == Up.Idle && s.up.port.rxdf && s.up.port.htde && s.down.port == s.up.port
    ensures Taken(s).down == s.down.(port := s.down.port.(rxdf := false)) && Taken(s).up.port == Taken(s).down.port
  {
  }

  lemma TakeWord(s: State, rest: seq<Event>) returns (es: seq<Event>)
    requires s.up.receiver == Up.Idle && s.up.port.rxdf && Proper(Taken(s), rest)
    ensures Proper(s, es) && After(s, es) == After(Taken(s), rest)
  {
    var poll, read := Upward(Up.CpuPolls), Upward(Up.CpuReads);
    var s1 := Next(s, poll);
    var s2 := Next(s1, read);
    var s3 := Next(s2, read);
    Prepend(s3, read, rest);
    Prepend(s2, read, [read] + rest);
    Prepend(s1, read, [read] + ([read] + rest));
    es := [read] + ([read] + ([read] + rest));
    Prepend(s, poll, es);
    es := [poll] + es;
  }

  lemma WrongHigh(high: int, middle: int, low: int, w: int)
    requires IsByte(middle) && IsByte(low) && high != w / 0x1_0000
    ensures Word(high, middle, low) != w
  {
    if Word(high, middle, low) == w {
      Quotient(w, 0x1_0000, high, middle * 0x100 + low);
    }
  }

  /** A word whose high byte was replaced arrives wrong. */
  lemma LastByte(s: State, w: int)
    requires s.down.sender == Down.SentMiddle(w) && s.up.port == s.down.port
    requires s.down.port.trdy && Consistent(s.down.port) && s.down.sent == s.down.received
    requires s.down.port.high != w / 0x1_0000 && IsByte(s.down.port.middle)
    ensures !BothQueues(Next(s, Downward(Down.CpuWrites)))
  {
    var r := Next(s, Downward(Down.CpuWrites));
    WrongHigh(s.down.port.high, s.down.port.middle, w % 0x100, w);
    Differ(s.down.received, [w], ToDsp(r.down.port));
  }

  /** The CPU finishes its word. */
  lemma FinishWord(s: State, w: int) returns (es: seq<Event>)
    requires MidWord(s) && s.down.sender.w == w && !s.down.port.rxdf && s.up.port == s.down.port
    requires s.down.port.trdy && Consistent(s.down.port) && s.down.sent == s.down.received
    requires s.down.port.high != w / 0x1_0000 && IsByte(s.down.port.middle)
    ensures Proper(s, es) && !BothQueues(After(s, es))
  {
    var e := Downward(Down.CpuWrites);
    var s1 := Next(s, e);
    assert After(s1, []) == s1;
    es := [e] + [];
    if s.down.sender.SentMiddle? {
      LastByte(s, w);
      Prepend(s, e, []);
    } else {
      var s2 := Next(s1, e);
      assert After(s2, []) == s2;
      LastByte(s1, w);
      Prepend(s1, e, []);
      Prepend(s, e, es);
      es := [e] + es;
    }
  }

  /** A word that the DSP writes between the bytes of one that the CPU sends replaces its first byte. */
  lemma WriteBetweenBytes(s: State, w: int)
    requires Inv(s) && Enabled(s, Upward(Up.DspWrites(w))) && MidWord(s)
    ensures !Sound(s, Upward(Up.DspWrites(w)))
  {
    var word := s.down.sender.w;
    var v := if word < 0x1_0000 then 0x1_0000 else 0;
    var f := Upward(Up.DspWrites(v));
    var r := Next(s, f);
    assert s.down.sent == s.down.received;
    TakenMeaning(r);
    var rest := FinishWord(Taken(r), word);
    var es := TakeWord(r, rest);
    Refutes(s, Upward(Up.DspWrites(w)), s, f, es);
  }

  /** An event keeps both directions queues, whatever the words, if and only if it does not clash. */
  lemma {:induction false} SoundIff(s: State, e: Event)
    requires Inv(s) && Enabled(s, e)
    ensures Sound(s, e) <==> !Clash(s, e)
  {
    if !Clash(s, e) {
      ProperIsSound(s, e);
    } else if e.Downward? {
      WriteIntoWindow(s);
    } else if s.down.port.hrdf {
      WriteIntoCell(s, e.u.w);
    } else {
      WriteBetweenBytes(s, e.u.w);
    }
  }

  /** From the start: the CPU sees TRDY, the DSP sees HTDE, and the CPU writes its first byte. */
  function Overture(w: int): seq<Event> {
    [Downward(Down.CpuPolls(w)), Upward(Up.DspPolls), Downward(Down.CpuWrites)]
  }

  /**
   * So testing the flags beforehand is not enough: after this run, which has no clash, every flag that
   * invites the DSP to write is as it should be, and the write is not sound.
   */
  lemma FlagsAreNotEnough(w: int, v: int)
    requires IsWord(w) && IsWord(v)
    ensures Proper(START, Overture(w))
    ensures var s := After(START, Overture(w));
            && s.down.port.htde && !s.down.port.hrdf && !s.down.port.rxdf
            && Enabled(s, Upward(Up.DspWrites(v))) && !Sound(s, Upward(Up.DspWrites(v)))
  {
    var es := Overture(w);
    var s1 := Next(START, es[0]);
    var s2 := Next(s1, es[1]);
    var s3 := Next(s2, es[2]);
    assert After(s3, []) == s3;
    Prepend(s2, es[2], []);
    Prepend(s1, es[1], [es[2]] + []);
    Prepend(START, es[0], [es[1]] + ([es[2]] + []));
    assert [es[0]] + ([es[1]] + ([es[2]] + [])) == es;
    ProperKeepsInv(START, es);
    SoundIff(s3, Upward(Up.DspWrites(v)));
  }
}
