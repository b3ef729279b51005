/**
 * The blit loop (src/blitter.cpp:114-167): word after word, line after line, and what the whole run
 * leaves in memory.
 */
module BlitRun {
  import opened Division
  import opened BlitWord
  import opened BlitMemory

  type Nibble = x: int | 0 <= x < 16
  type Mode = x: int | 0 <= x < 4
  type Pattern = s: seq<Word> | |s| == 16
    witness [ZERO, ZERO, ZERO, ZERO, ZERO, ZERO, ZERO, ZERO, ZERO, ZERO, ZERO, ZERO, ZERO, ZERO, ZERO, ZERO]

  type Increment = x: int | -0x8000 <= x < 0x8000

  /** The registers that stay as they are during a blit. */
  datatype Job = Job(hop: Mode, op: Nibble, skewReg: nat, lineNum: nat, fxsr: bool, nfsr: bool,
                     mask1: Word, mask2: Word, mask3: Word, xCount: nat, halftone: Pattern,
                     sourceX: Increment, sourceY: Increment, destX: Increment, destY: Increment)
  {
    /** The source address descends. */
    predicate Down() {
      sourceX < 0
    }

    function Skew(): Nibble {
      skewReg % 16
    }

    /** The direction through the halftone pattern. */
    function Direction(): int {
      if destY >= 0 then 1 else -1
    }
  }

  /** What changes during a blit; `line` is the current line of the halftone pattern. */
  datatype State = State(mem: Memory, source: Address, dest: Address, buffer: Long, line: Nibble)

  /** Operations whose result does not depend on the source do not read it. */
  predicate ReadsSource(j: Job) {
    j.hop >= 2 && j.op !in {0, 5, 10, 15}
  }

  function Width(j: Job): (w: nat)
    ensures 1 <= w
  {
    if j.xCount < 2 then 1 else j.xCount
  }

  function Shift(j: Job, s: State): State {
    s.(buffer := Shifted(j.Down(), s.buffer))
  }

  function Fetch(j: Job, s: State): State {
    s.(buffer := if ReadsSource(j) then Taken(j.Down(), s.buffer, Look(s.mem, s.source))
                 else Shifted(j.Down(), s.buffer))
  }

  function Operand(j: Job, buffer: Long, line: Nibble): Word {
    match j.hop
    case 0 => ONES
    case 1 => j.halftone[line]
    case 2 => Window(buffer, j.Skew())
    case _ => And(Window(buffer, j.Skew()), j.halftone[line])
  }

  /** What is stored over d: under the mask the result of the operation, elsewhere d. */
  function Stored(j: Job, buffer: Long, line: Nibble, mask: Word, d: Word): Word {
    seq(16, p requires 0 <= p < 16 => (d[p] && !mask[p]) || (Logic(j.op, Operand(j, buffer, line)[p], d[p]) && mask[p]))
  }

  /** Pixel by pixel, the operation is the truth table that its number spells. */
  lemma StoredMeaning(j: Job, buffer: Long, line: Nibble, mask: Word, d: Word, p: int)
    requires 0 <= p < 16
    ensures Stored(j, buffer, line, mask, d)[p] == if mask[p] then Selected(j.op, Operand(j, buffer, line)[p], d[p])
            else d[p]
  {
    LogicIsTruthTable(j.op, Operand(j, buffer, line)[p], d[p]);
  }

  function Write(j: Job, s: State, mask: Word): State {
    var d := Look(s.mem, s.dest);
    s.(mem := Store(s.mem, s.dest, Stored(j, s.buffer, s.line, mask, d)))
  }

  function FirstWord(j: Job, s: State): State {
    var ahead := if j.fxsr then var f := Fetch(j, s); f.(source := Wrap(f.source + j.sourceX)) else s;
    Write(j, Fetch(j, ahead), j.mask1)
  }

  function MiddleWord(j: Job, s: State): State {
    Write(j, Fetch(j, s.(source := Wrap(s.source + j.sourceX), dest := Wrap(s.dest + j.destX))), j.mask2)
  }

  /** A row of pixels as an unsigned number. */
  function Number(w: seq<bool>): nat {
    if |w| == 0 then 0 else 2 * Number(w[..|w| - 1]) + if w[|w| - 1] then 1 else 0
  }

  /**
   * The second half of the test for the last read, made to read the word that the skew needs under the
   * mask. The complement is taken of an int, so it is negative and no mask lies below it.
   */
  predicate ReadsAnyway(j: Job)
    ensures !ReadsAnyway(j)
  {
    0 - Over(0xffff, Power2(j.Skew())) - 1 > Number(j.mask3)
  }

  function LastWord(j: Job, s: State): State {
    var next := s.(dest := Wrap(s.dest + j.destX));
    var read := if !j.nfsr || ReadsAnyway(j) then Fetch(j, next.(source := Wrap(next.source + j.sourceX)))
                else Shift(j, next);
    Write(j, read, j.mask3)
  }

  /** The first x words of a line. */
  function Words(j: Job, s: State, x: nat): State
    requires x <= Width(j)
  {
    if x == 0 then s
    else if x == 1 then FirstWord(j, s)
    else if x == Width(j) then LastWord(j, Words(j, s, x - 1))
    else MiddleWord(j, Words(j, s, x - 1))
  }

  predicate Halftoned(j: Job) {
    j.hop % 2 == 1
  }

  function EndLine(j: Job, s: State): State {
    s.(source := Wrap(s.source + j.sourceY), dest := Wrap(s.dest + j.destY),
       line := if Halftoned(j) then (s.line + j.Direction()) % 16 else s.line)
  }

  function Line(j: Job, s: State): State {
    EndLine(j, Words(j, s, Width(j)))
  }

  /** The first y lines. */
  function Lines(j: Job, s: State, y: nat): State {
    if y == 0 then s else Line(j, Lines(j, s, y - 1))
  }

  // ------------------------------------------------------------------------------------------------
  // What a blit means, word for word in terms of the memory it started with.

  /** The product of n and d, as the sum of n steps. */
  function Scale(n: int, d: int): int
    decreases if n < 0 then -n else n
  {
    if n == 0 then 0 else if n > 0 then Scale(n - 1, d) + d else Scale(n + 1, d) - d
  }

  lemma ScaleStep(n: int, d: int)
    ensures Scale(n, d) == Scale(n - 1, d) + d
  {
  }

  lemma {:induction false} ScaleIsProduct(n: int, d: int)
    ensures Scale(n, d) == n * d
    decreases if n < 0 then -n else n
  {
    if n > 0 {
      ScaleIsProduct(n - 1, d);
      Times(n, d);
    } else if n < 0 {
      ScaleIsProduct(n + 1, d);
      Times(n + 1, d);
    }
  }

  function SourceStride(j: Job): int {
    (if j.fxsr then j.sourceX else 0)
    + Scale(Width(j) - 1 - (if j.nfsr && j.xCount >= 2 then 1 else 0), j.sourceX) + j.sourceY
  }

  function DestStride(j: Job): int {
    Scale(Width(j) - 1, j.destX) + j.destY
  }

  function LineSource(j: Job, b: State, y: int): Address {
    Wrap(b.source + Scale(y, SourceStride(j)))
  }

  /** Where the source word for word x of line y is read, and where its destination is. */
  function ReadAt(j: Job, b: State, y: int, x: int): Address {
    Wrap(b.source + Scale(y, SourceStride(j)) + (if j.fxsr then j.sourceX else 0) + Scale(x, j.sourceX))
  }

  function WriteAt(j: Job, b: State, y: int, x: int): Address {
    Wrap(b.dest + Scale(y, DestStride(j)) + Scale(x, j.destX))
  }

  /** The last word of a line is not read when NFSR is set: zeros move in. */
  predicate Skipped(j: Job, x: int) {
    !ReadsSource(j) || (j.nfsr && 0 < x == Width(j) - 1)
  }

  function Fetched(j: Job, b: State, y: int, x: int): Word {
    if Skipped(j, x) then ZERO else Look(b.mem, ReadAt(j, b, y, x))
  }

  /** What the buffer holds when line y begins. */
  function Carried(j: Job, b: State, y: int): Word {
    if y == 0 then ZERO else Fetched(j, b, y - 1, Width(j) - 1)
  }

  /** The word beside the one fetched: the one before it, with FXSR the extra one at the start of a line. */
  function Beside(j: Job, b: State, y: int, x: int): Word {
    if x > 0 then Fetched(j, b, y, x - 1)
    else if !j.fxsr then Carried(j, b, y)
    else if ReadsSource(j) then Look(b.mem, LineSource(j, b, y)) else ZERO
  }

  function HalftoneLine(j: Job, b: State, y: int): Nibble {
    if j.hop in {1, 3} then (if j.destY >= 0 then b.line + y else b.line - y) % 16 else b.line
  }

  function MaskOf(j: Job, x: int): Word {
    if x == 0 then j.mask1 else if x == Width(j) - 1 then j.mask3 else j.mask2
  }

  /** What ends up in word x of line y. */
  function Result(j: Job, b: State, y: int, x: int): Word {
    var d := Look(b.mem, WriteAt(j, b, y, x));
    if Guarded(WriteAt(j, b, y, x)) then d
    else Stored(j, Pair(j.Down(), Beside(j, b, y, x), Fetched(j, b, y, x)), HalftoneLine(j, b, y), MaskOf(j, x), d)
  }

  /** Word x2 of line y2 is written before word x of line y. */
  predicate Earlier(j: Job, y2: int, x2: int, y: int, x: int) {
    0 <= y2 && 0 <= x2 < Width(j) && (y2 < y || (y2 == y && x2 < x))
  }

  /** The byte at c belongs to some word before word x of line y. */
  ghost predicate Covered(j: Job, b: State, y: int, x: int, c: int) {
    exists y2, x2 :: Earlier(j, y2, x2, y, x) && WriteAt(j, b, y2, x2) <= c <= WriteAt(j, b, y2, x2) + 1
  }

  /** The word at a shares a byte with some word before word x of line y. */
  ghost predicate Written(j: Job, b: State, y: int, x: int, a: int) {
    Covered(j, b, y, x, a) || Covered(j, b, y, x, a + 1)
  }

  /** No byte is written twice or read after it was written. */
  ghost predicate HazardFree(j: Job, b: State, h: nat) {
    && (forall y, x | 0 <= y < h && 0 <= x < Width(j) :: !Written(j, b, y, x, WriteAt(j, b, y, x)))
    && (forall y, x | 0 <= y < h && 0 <= x < Width(j) && !Skipped(j, x) :: !Written(j, b, y, x, ReadAt(j, b, y, x)))
    && (ReadsSource(j) && j.fxsr ==> forall y | 0 <= y < h :: !Written(j, b, y, 0, LineSource(j, b, y)))
  }

  /** Memory once everything before word x of line y is done. */
  ghost predicate MemoryAt(j: Job, b: State, m: Memory, y: int, x: int) {
    && (forall y2, x2 :: Earlier(j, y2, x2, y, x) ==> Look(m, WriteAt(j, b, y2, x2)) == Result(j, b, y2, x2))
    && (forall c {:trigger Covered(j, b, y, x, c)} :: !Covered(j, b, y, x, c) ==> ByteAt(m, c) == ByteAt(b.mem, c))
  }

  lemma LookKept(j: Job, b: State, m: Memory, y: int, x: int, a: int)
    requires MemoryAt(j, b, m, y, x) && !Written(j, b, y, x, a)
    ensures Look(m, a) == Look(b.mem, a)
  {
    SameWord(m, b.mem, a);
  }

  /** A store puts the result into its word and leaves the other bytes. */
  lemma StoreMeaning(j: Job, b: State, s: State, y: int, x: int)
    requires 0 <= y && 0 <= x < Width(j) && Look(s.mem, WriteAt(j, b, y, x)) == Look(b.mem, WriteAt(j, b, y, x))
    requires s.dest == WriteAt(j, b, y, x) && s.line == HalftoneLine(j, b, y)
    requires s.buffer == Pair(j.Down(), Beside(j, b, y, x), Fetched(j, b, y, x))
    ensures Differs(s.mem, Write(j, s, MaskOf(j, x)).mem, WriteAt(j, b, y, x), Result(j, b, y, x))
  {
    StoreDiffers(s.mem, s.dest, Stored(j, s.buffer, s.line, MaskOf(j, x), Look(s.mem, s.dest)));
  }

  lemma CoveredGrows(j: Job, b: State, y: int, x: int, c: int)
    requires Covered(j, b, y, x, c)
    ensures Covered(j, b, y, x + 1, c)
  {
    var y2, x2 :| Earlier(j, y2, x2, y, x) && WriteAt(j, b, y2, x2) <= c <= WriteAt(j, b, y2, x2) + 1;
    assert Earlier(j, y2, x2, y, x + 1);
  }

  /** A word shares no byte with those written before it. */
  lemma ApartFrom(j: Job, b: State, y: int, x: int, a: int, y2: int, x2: int)
    requires !Written(j, b, y, x, a) && Earlier(j, y2, x2, y, x)
    ensures WriteAt(j, b, y2, x2) + 1 < a || a + 1 < WriteAt(j, b, y2, x2)
  {
    assert !Covered(j, b, y, x, a) && !Covered(j, b, y, x, a + 1);
  }

  /** One store moves memory on by one word. */
  lemma MemoryStep(j: Job, b: State, before: Memory, after: Memory, y: int, x: int)
    requires 0 <= y && 0 <= x < Width(j) && MemoryAt(j, b, before, y, x) && !Written(j, b, y, x, WriteAt(j, b, y, x))
    requires Differs(before, after, WriteAt(j, b, y, x), Result(j, b, y, x))
    ensures MemoryAt(j, b, after, y, x + 1)
  {
    forall y2, x2 | Earlier(j, y2, x2, y, x + 1) ensures Look(after, WriteAt(j, b, y2, x2)) == Result(j, b, y2, x2) {
      if Earlier(j, y2, x2, y, x) {
        ApartFrom(j, b, y, x, WriteAt(j, b, y, x), y2, x2);
        SameWord(before, after, WriteAt(j, b, y2, x2));
      }
    }
    forall c | !Covered(j, b, y, x + 1, c) ensures ByteAt(after, c) == ByteAt(b.mem, c) {
      assert Earlier(j, y, x, y, x + 1);
      if Covered(j, b, y, x, c) {
        CoveredGrows(j, b, y, x, c);
      }
    }
  }

  function SourceAfter(j: Job, b: State, y: int, x: int): Address {
    ReadAt(j, b, y, if j.nfsr && 2 <= x == Width(j) then x - 2 else x - 1)
  }

  /** Where the machine stands after x words of line y, and before line y. */
  ghost predicate InLine(j: Job, b: State, s: State, y: int, x: int) {
    && s.source == SourceAfter(j, b, y, x) && s.dest == WriteAt(j, b, y, x - 1) && s.line == HalftoneLine(j, b, y)
    && s.buffer == Pair(j.Down(), Beside(j, b, y, x - 1), Fetched(j, b, y, x - 1))
    && MemoryAt(j, b, s.mem, y, x)
  }

  ghost predicate AtLine(j: Job, b: State, s: State, y: int) {
    && s.source == LineSource(j, b, y) && s.dest == WriteAt(j, b, y, 0) && s.line == HalftoneLine(j, b, y)
    && Newer(j.Down(), s.buffer) == Carried(j, b, y)
    && MemoryAt(j, b, s.mem, y, 0)
  }

  lemma FetchStep(j: Job, s: State, before: Word, last: Word)
    requires s.buffer == Pair(j.Down(), before, last)
    ensures Fetch(j, s) == s.(buffer := Pair(j.Down(), last, if ReadsSource(j) then Look(s.mem, s.source) else ZERO))
    ensures Shift(j, s) == s.(buffer := Pair(j.Down(), last, ZERO))
  {
    ShiftIn(j.Down(), before, last, Look(s.mem, s.source));
  }

  /** With the buffer and the addresses in place, the store completes word x. */
  lemma WordDone(j: Job, b: State, s: State, y: int, x: int)
    requires 0 <= y && 0 <= x < Width(j) && MemoryAt(j, b, s.mem, y, x) && !Written(j, b, y, x, WriteAt(j, b, y, x))
    requires s.source == SourceAfter(j, b, y, x + 1) && s.dest == WriteAt(j, b, y, x) && s.line == HalftoneLine(j, b, y)
    requires s.buffer == Pair(j.Down(), Beside(j, b, y, x), Fetched(j, b, y, x))
    ensures InLine(j, b, Write(j, s, MaskOf(j, x)), y, x + 1)
  {
    LookKept(j, b, s.mem, y, x, WriteAt(j, b, y, x));
    StoreMeaning(j, b, s, y, x);
    MemoryStep(j, b, s.mem, Write(j, s, MaskOf(j, x)).mem, y, x);
  }

  /** What is read for word x of a line is the word that memory held at first. */
  lemma ReadKept(j: Job, b: State, m: Memory, h: nat, y: int, x: int)
    requires HazardFree(j, b, h) && 0 <= y < h && 0 <= x < Width(j) && MemoryAt(j, b, m, y, x)
    ensures !Skipped(j, x) ==> Look(m, ReadAt(j, b, y, x)) == Fetched(j, b, y, x)
  {
    if !Skipped(j, x) {
      LookKept(j, b, m, y, x, ReadAt(j, b, y, x));
    }
  }

  lemma FirstStep(j: Job, b: State, s: State, h: nat, y: int)
    requires HazardFree(j, b, h) && 0 <= y < h && AtLine(j, b, s, y)
    ensures InLine(j, b, FirstWord(j, s), y, 1)
  {
    PairOfHalves(j.Down(), s.buffer);
    FetchStep(j, s, Older(j.Down(), s.buffer), Carried(j, b, y));
    if j.fxsr {
      if ReadsSource(j) {
        LookKept(j, b, s.mem, y, 0, LineSource(j, b, y));
      }
      WrapSum(b.source + Scale(y, SourceStride(j)), j.sourceX);
      AfterExtra(j, b, Fetch(j, s).(source := Wrap(s.source + j.sourceX)), h, y);
    } else {
      ReadKept(j, b, s.mem, h, y, 0);
      WordDone(j, b, Fetch(j, s), y, 0);
    }
  }

  lemma AfterExtra(j: Job, b: State, s: State, h: nat, y: int)
    requires HazardFree(j, b, h) && 0 <= y < h && j.fxsr && MemoryAt(j, b, s.mem, y, 0)
    requires s.source == ReadAt(j, b, y, 0) && s.dest == WriteAt(j, b, y, 0) && s.line == HalftoneLine(j, b, y)
    requires s.buffer == Pair(j.Down(), Carried(j, b, y), Beside(j, b, y, 0))
    ensures InLine(j, b, Write(j, Fetch(j, s), j.mask1), y, 1)
  {
    ReadKept(j, b, s.mem, h, y, 0);
    FetchStep(j, s, Carried(j, b, y), Beside(j, b, y, 0));
    WordDone(j, b, Fetch(j, s), y, 0);
  }

  lemma MiddleStep(j: Job, b: State, s: State, h: nat, y: int, x: int)
    requires HazardFree(j, b, h) && 0 <= y < h && 1 <= x < Width(j) - 1 && InLine(j, b, s, y, x)
    ensures InLine(j, b, MiddleWord(j, s), y, x + 1)
  {
    var next := s.(source := Wrap(s.source + j.sourceX), dest := Wrap(s.dest + j.destX));
    Advance(j, b, s, y, x);
    ReadKept(j, b, s.mem, h, y, x);
    FetchStep(j, next, Beside(j, b, y, x - 1), Fetched(j, b, y, x - 1));
    WordDone(j, b, Fetch(j, next), y, x);
  }

  lemma LastStep(j: Job, b: State, s: State, h: nat, y: int, x: int)
    requires HazardFree(j, b, h) && 0 <= y < h && 1 <= x == Width(j) - 1 && InLine(j, b, s, y, x)
    ensures InLine(j, b, LastWord(j, s), y, x + 1)
  {
    var next := s.(dest := Wrap(s.dest + j.destX));
    Advance(j, b, s, y, x);
    if j.nfsr {
      LastSkipped(j, b, next, h, y, x);
    } else {
      LastRead(j, b, next.(source := Wrap(next.source + j.sourceX)), h, y, x);
    }
  }

  lemma LastSkipped(j: Job, b: State, s: State, h: nat, y: int, x: int)
    requires HazardFree(j, b, h) && 0 <= y < h && 1 <= x == Width(j) - 1 && j.nfsr && MemoryAt(j, b, s.mem, y, x)
    requires s.source == SourceAfter(j, b, y, x) && s.dest == WriteAt(j, b, y, x) && s.line == HalftoneLine(j, b, y)
    requires s.buffer == Pair(j.Down(), Beside(j, b, y, x - 1), Fetched(j, b, y, x - 1))
    ensures InLine(j, b, Write(j, Shift(j, s), j.mask3), y, x + 1)
  {
    FetchStep(j, s, Beside(j, b, y, x - 1), Fetched(j, b, y, x - 1));
    WordDone(j, b, Shift(j, s), y, x);
  }

  lemma LastRead(j: Job, b: State, s: State, h: nat, y: int, x: int)
    requires HazardFree(j, b, h) && 0 <= y < h && 1 <= x == Width(j) - 1 && !j.nfsr && MemoryAt(j, b, s.mem, y, x)
    requires s.source == ReadAt(j, b, y, x) && s.dest == WriteAt(j, b, y, x) && s.line == HalftoneLine(j, b, y)
    requires s.buffer == Pair(j.Down(), Beside(j, b, y, x - 1), Fetched(j, b, y, x - 1))
    ensures InLine(j, b, Write(j, Fetch(j, s), j.mask3), y, x + 1)
  {
    ReadKept(j, b, s.mem, h, y, x);
    FetchStep(j, s, Beside(j, b, y, x - 1), Fetched(j, b, y, x - 1));
    WordDone(j, b, Fetch(j, s), y, x);
  }

  /** Addresses one word on. */
  lemma Forward(j: Job, b: State, y: int, x: int)
    ensures ReadAt(j, b, y, x) == Wrap(ReadAt(j, b, y, x - 1) + j.sourceX)
    ensures WriteAt(j, b, y, x) == Wrap(WriteAt(j, b, y, x - 1) + j.destX)
  {
    ScaleStep(x, j.sourceX);
    ScaleStep(x, j.destX);
    var extra := if j.fxsr then j.sourceX else 0;
    WrapSum(b.source + Scale(y, SourceStride(j)) + extra + Scale(x - 1, j.sourceX), j.sourceX);
    WrapSum(b.dest + Scale(y, DestStride(j)) + Scale(x - 1, j.destX), j.destX);
  }

  /** From the state after x words of a line to the addresses of word x. */
  lemma Advance(j: Job, b: State, s: State, y: int, x: int)
    requires 1 <= x < Width(j) && s.source == SourceAfter(j, b, y, x) && s.dest == WriteAt(j, b, y, x - 1)
    ensures Wrap(s.source + j.sourceX) == ReadAt(j, b, y, x) && Wrap(s.dest + j.destX) == WriteAt(j, b, y, x)
    ensures !j.nfsr || x + 1 < Width(j) ==> SourceAfter(j, b, y, x + 1) == ReadAt(j, b, y, x)
  {
    Forward(j, b, y, x);
  }

  lemma Times(x: int, d: int)
    ensures x * d == (x - 1) * d + d
  {
  }

  /** What the first word establishes and every further word keeps holds after each word of a line. */
  lemma {:induction false} WordsInduction(j: Job, s: State, x: nat, P: (State, int) -> bool)
    requires 1 <= x <= Width(j) && P(FirstWord(j, s), 1)
    requires forall r: State, k {:trigger MiddleWord(j, r), P(r, k)} | 1 <= k < Width(j) - 1 && P(r, k) ::
             P(MiddleWord(j, r), k + 1)
    requires forall r: State, k {:trigger LastWord(j, r), P(r, k)} | 1 <= k == Width(j) - 1 && P(r, k) ::
             P(LastWord(j, r), k + 1)
    ensures P(Words(j, s, x), x)
  {
    if x > 1 {
      WordsInduction(j, s, x - 1, P);
    }
  }

  /** What every line keeps holds after each of them. */
  lemma {:induction false} LinesInduction(j: Job, s: State, y: nat, h: nat, P: (State, int) -> bool)
    requires y <= h && P(s, 0)
    requires forall r: State, k {:trigger Line(j, r), P(r, k)} | 0 <= k < h && P(r, k) :: P(Line(j, r), k + 1)
    ensures P(Lines(j, s, y), y)
  {
    if y > 0 {
      LinesInduction(j, s, y - 1, h, P);
    }
  }

  lemma WordsRun(j: Job, b: State, s: State, h: nat, y: int)
    requires HazardFree(j, b, h) && 0 <= y < h && AtLine(j, b, s, y)
    ensures InLine(j, b, Words(j, s, Width(j)), y, Width(j))
  {
    var P := (r: State, k: int) => InLine(j, b, r, y, k);
    FirstStep(j, b, s, h, y);
    forall r: State, k | 1 <= k < Width(j) - 1 && P(r, k) ensures P(MiddleWord(j, r), k + 1) {
      MiddleStep(j, b, r, h, y, k);
    }
    forall r: State, k | 1 <= k == Width(j) - 1 && P(r, k) ensures P(LastWord(j, r), k + 1) {
      LastStep(j, b, r, h, y, k);
    }
    WordsInduction(j, s, Width(j), P);
  }

  lemma CoveredNext(j: Job, b: State, y: int, c: int)
    requires Covered(j, b, y, Width(j), c)
    ensures Covered(j, b, y + 1, 0, c)
  {
    var y2, x2 :| Earlier(j, y2, x2, y, Width(j)) && WriteAt(j, b, y2, x2) <= c <= WriteAt(j, b, y2, x2) + 1;
    assert Earlier(j, y2, x2, y + 1, 0);
  }

  /** The end of a line in the order of writing is the beginning of the next. */
  lemma MemoryAtNext(j: Job, b: State, m: Memory, y: int)
    requires 0 <= y && MemoryAt(j, b, m, y, Width(j))
    ensures MemoryAt(j, b, m, y + 1, 0)
  {
    forall y2, x2 | Earlier(j, y2, x2, y + 1, 0) ensures Look(m, WriteAt(j, b, y2, x2)) == Result(j, b, y2, x2) {
      assert Earlier(j, y2, x2, y, Width(j));
    }
    forall c | !Covered(j, b, y + 1, 0, c) ensures ByteAt(m, c) == ByteAt(b.mem, c) {
      if Covered(j, b, y, Width(j), c) {
        CoveredNext(j, b, y, c);
      }
    }
  }

  /** Where the addresses stand a line later. */
  lemma NextLine(j: Job, b: State, y: int)
    ensures Wrap(SourceAfter(j, b, y, Width(j)) + j.sourceY) == LineSource(j, b, y + 1)
    ensures Wrap(WriteAt(j, b, y, Width(j) - 1) + j.destY) == WriteAt(j, b, y + 1, 0)
  {
    NextSourceRow(j, b, y);
    NextRow(b.dest, y, Scale(Width(j) - 1, j.destX), j.destY);
  }

  lemma NextSourceRow(j: Job, b: State, y: int)
    ensures Wrap(SourceAfter(j, b, y, Width(j)) + j.sourceY) == LineSource(j, b, y + 1)
  {
    var last := Width(j) - 1 - (if j.nfsr && j.xCount >= 2 then 1 else 0);
    assert SourceAfter(j, b, y, Width(j)) == ReadAt(j, b, y, last);
    var row := (if j.fxsr then j.sourceX else 0) + Scale(last, j.sourceX);
    NextRow(b.source, y, row, j.sourceY);
  }

  /** From the end of a row to the beginning of the next. */
  lemma NextRow(base: int, y: int, row: int, gap: int)
    ensures Wrap(Wrap(base + Scale(y, row + gap) + row) + gap) == Wrap(base + Scale(y + 1, row + gap))
  {
    ScaleStep(y + 1, row + gap);
    WrapSum(base + Scale(y, row + gap) + row, gap);
  }

  lemma NextHalftone(sum: int, step: int)
    ensures (sum % 16 + step) % 16 == (sum + step) % 16
  {
    assert sum == 16 * (sum / 16) + sum % 16;
    Sixteens(sum % 16 + step, sum / 16);
  }

  lemma Sixteens(x: int, q: int)
    ensures (16 * q + x) % 16 == x % 16
  {
  }

  lemma EndStep(j: Job, b: State, s: State, y: int)
    requires 0 <= y && InLine(j, b, s, y, Width(j))
    ensures AtLine(j, b, EndLine(j, s), y + 1)
  {
    HalvesOfPair(j.Down(), Beside(j, b, y, Width(j) - 1), Fetched(j, b, y, Width(j) - 1));
    NextLine(j, b, y);
    NextHalftone(if j.destY >= 0 then b.line + y else b.line - y, j.Direction());
    MemoryAtNext(j, b, s.mem, y);
  }

  lemma LineStep(j: Job, b: State, s: State, h: nat, y: int)
    requires HazardFree(j, b, h) && 0 <= y < h && AtLine(j, b, s, y)
    ensures AtLine(j, b, Line(j, s), y + 1)
  {
    WordsRun(j, b, s, h, y);
    EndStep(j, b, Words(j, s, Width(j)), y);
  }

  lemma BeginRun(j: Job, b: State)
    requires b.buffer == Pair(j.Down(), ZERO, ZERO)
    ensures AtLine(j, b, b, 0)
  {
    HalvesOfPair(j.Down(), ZERO, ZERO);
  }

  lemma LinesRun(j: Job, b: State, h: nat)
    requires HazardFree(j, b, h) && b.buffer == Pair(j.Down(), ZERO, ZERO)
    ensures AtLine(j, b, Lines(j, b, h), h)
  {
    var P := (r: State, k: int) => AtLine(j, b, r, k);
    BeginRun(j, b);
    forall r: State, k | 0 <= k < h && P(r, k) ensures P(Line(j, r), k + 1) {
      LineStep(j, b, r, h, k);
    }
    LinesInduction(j, b, h, h, P);
  }

  /**
   * The meaning of a blit of h lines: every word of the destination becomes the masked combination of
   * its source window, its halftone line and itself, as memory was before; every other byte stays as
   * it was; and the registers point behind the blocks.
   */
  ghost predicate Blitted(j: Job, b: State, r: State, h: nat) {
    && (forall y, x | 0 <= y < h && 0 <= x < Width(j) :: Look(r.mem, WriteAt(j, b, y, x)) == Result(j, b, y, x))
    && OthersKept(j, b, r.mem, h)
    && r.source == LineSource(j, b, h) && r.dest == WriteAt(j, b, h, 0) && r.line == HalftoneLine(j, b, h)
  }

  /** The address of a byte of the destination. */
  ghost predicate IsTarget(j: Job, b: State, h: nat, c: int) {
    exists y, x :: 0 <= y < h && 0 <= x < Width(j) && WriteAt(j, b, y, x) <= c <= WriteAt(j, b, y, x) + 1
  }

  ghost predicate OthersKept(j: Job, b: State, after: Memory, h: nat) {
    forall c {:trigger IsTarget(j, b, h, c)} :: !IsTarget(j, b, h, c) ==> ByteAt(after, c) == ByteAt(b.mem, c)
  }

  lemma MemoryAtKeepsOthers(j: Job, b: State, m: Memory, h: nat)
    requires MemoryAt(j, b, m, h, 0)
    ensures OthersKept(j, b, m, h)
  {
    forall c | !IsTarget(j, b, h, c) ensures ByteAt(m, c) == ByteAt(b.mem, c) {
      assert !Covered(j, b, h, 0, c);
    }
  }

  lemma AtLineIsBlitted(j: Job, b: State, r: State, h: nat)
    requires AtLine(j, b, r, h)
    ensures Blitted(j, b, r, h)
  {
    forall y, x | 0 <= y < h && 0 <= x < Width(j) ensures Look(r.mem, WriteAt(j, b, y, x)) == Result(j, b, y, x) {
      assert Earlier(j, y, x, h, 0);
    }
    MemoryAtKeepsOthers(j, b, r.mem, h);
  }

  lemma {:induction false} BlitMeaning(j: Job, b: State, h: nat)
    requires HazardFree(j, b, h) && b.buffer == Pair(j.Down(), ZERO, ZERO)
    ensures Blitted(j, b, Lines(j, b, h), h)
  {
    LinesRun(j, b, h);
    AtLineIsBlitted(j, b, Lines(j, b, h), h);
  }

  /** Where words are read and written, as products. */
  lemma AddressMeaning(j: Job, b: State, y: int, x: int)
    ensures ReadAt(j, b, y, x)
            == Wrap(b.source + y * SourceStride(j) + (if j.fxsr then j.sourceX else 0) + x * j.sourceX)
    ensures WriteAt(j, b, y, x) == Wrap(b.dest + y * DestStride(j) + x * j.destX)
    ensures DestStride(j) == (WordsPerLine(j) - 1) * j.destX + j.destY
    ensures var skipped := if j.nfsr && WordsPerLine(j) > 1 then 1 else 0;
            SourceStride(j)
            == (if j.fxsr then j.sourceX else 0) + (WordsPerLine(j) - 1 - skipped) * j.sourceX + j.sourceY
  {
    ScaleIsProduct(y, SourceStride(j));
    ScaleIsProduct(y, DestStride(j));
    ScaleIsProduct(x, j.sourceX);
    ScaleIsProduct(x, j.destX);
    ScaleIsProduct(Width(j) - 1, j.destX);
    ScaleIsProduct(Width(j) - 1 - (if j.nfsr && j.xCount >= 2 then 1 else 0), j.sourceX);
  }

  // ------------------------------------------------------------------------------------------------
  // The same in terms of pixels, spelled out from the registers.

  /** Pixel p of the word at an address. */
  predicate PixelAt(m: Memory, a: int, p: int)
    requires 0 <= p < 16
  {
    ByteAt(m, a + p / 8)[p % 8]
  }

  lemma LookPixel(m: Memory, a: int, p: int)
    requires 0 <= p < 16
    ensures Look(m, a)[p] == PixelAt(m, a, p)
  {
  }

  function WordsPerLine(j: Job): int {
    if j.xCount < 2 then 1 else j.xCount
  }

  /** The last of several words of a line is not read with NFSR; zeros take its place. */
  predicate IsRead(j: Job, x: int) {
    !(j.nfsr && 0 < x == WordsPerLine(j) - 1)
  }

  /** Pixel p of the source word read for word x of line y. */
  predicate ReadPixel(j: Job, b: State, y: int, x: int, p: int)
    requires 0 <= p < 16
  {
    IsRead(j, x) && PixelAt(b.mem, ReadAt(j, b, y, x), p)
  }

  /** The same for the word read before it: the extra one of FXSR, or the last of the line before. */
  predicate BeforePixel(j: Job, b: State, y: int, x: int, p: int)
    requires 0 <= p < 16
  {
    if x > 0 then ReadPixel(j, b, y, x - 1, p)
    else if j.fxsr then PixelAt(b.mem, LineSource(j, b, y), p)
    else y > 0 && ReadPixel(j, b, y - 1, WordsPerLine(j) - 1, p)
  }

  /** The pixel that the skew brings: the two words as they stand on the screen, moved right. */
  predicate SourcePixel(j: Job, b: State, y: int, x: int, p: int)
    requires 0 <= p < 16
  {
    var skew := j.skewReg % 16;
    if j.sourceX < 0 then
      if p < skew then ReadPixel(j, b, y, x, 16 + p - skew) else BeforePixel(j, b, y, x, p - skew)
    else
      if p < skew then BeforePixel(j, b, y, x, 16 + p - skew) else ReadPixel(j, b, y, x, p - skew)
  }

  /** The halftone pattern goes up or down by one line with every line of the destination. */
  predicate PatternPixel(j: Job, b: State, y: int, p: int)
    requires 0 <= p < 16
  {
    j.halftone[(if j.destY >= 0 then b.line + y else b.line - y) % 16][p]
  }

  predicate OperandPixel(j: Job, b: State, y: int, x: int, p: int)
    requires 0 <= p < 16
  {
    match j.hop
    case 0 => true
    case 1 => PatternPixel(j, b, y, p)
    case 2 => SourcePixel(j, b, y, x, p)
    case _ => SourcePixel(j, b, y, x, p) && PatternPixel(j, b, y, p)
  }

  predicate MaskPixel(j: Job, x: int, p: int)
    requires 0 <= p < 16
  {
    if x == 0 then j.mask1[p] else if x == WordsPerLine(j) - 1 then j.mask3[p] else j.mask2[p]
  }

  /** Where the destination may be written. */
  predicate Open(a: int) {
    0x800 < a && !(0xe0_0000 <= a < 0x100_0000)
  }

  lemma FetchedPixel(j: Job, b: State, y: int, x: int, p: int)
    requires 0 <= p < 16 && ReadsSource(j)
    ensures Fetched(j, b, y, x)[p] == ReadPixel(j, b, y, x, p)
  {
    LookPixel(b.mem, ReadAt(j, b, y, x), p);
  }

  lemma BesidePixel(j: Job, b: State, y: int, x: int, p: int)
    requires 0 <= p < 16 && 0 <= y && 0 <= x && ReadsSource(j)
    ensures Beside(j, b, y, x)[p] == BeforePixel(j, b, y, x, p)
  {
    LookPixel(b.mem, LineSource(j, b, y), p);
    if x > 0 {
      FetchedPixel(j, b, y, x - 1, p);
    } else if !j.fxsr && y > 0 {
      FetchedPixel(j, b, y - 1, Width(j) - 1, p);
    }
  }

  /** The window into the source buffer is the source pixel, where the source is read. */
  lemma WindowPixel(j: Job, b: State, y: int, x: int, p: int)
    requires 0 <= p < 16 && 0 <= y && 0 <= x && ReadsSource(j)
    ensures Window(Pair(j.Down(), Beside(j, b, y, x), Fetched(j, b, y, x)), j.Skew())[p] == SourcePixel(j, b, y, x, p)
  {
    var skew := j.Skew();
    WindowMeaning(j.Down(), Beside(j, b, y, x), Fetched(j, b, y, x), skew, p);
    var q := if p < skew then 16 + p - skew else p - skew;
    FetchedPixel(j, b, y, x, q);
    BesidePixel(j, b, y, x, q);
  }

  /** Operations that are carried out without the source do not depend on it. */
  lemma SourceNotNeeded(op: int, s: bool, t: bool, d: bool)
    requires op in {0, 5, 10, 15}
    ensures Selected(op, s, d) == Selected(op, t, d)
  {
    IgnoresSourceIff(op);
  }

  lemma ResultPixel(j: Job, b: State, y: int, x: int, p: int)
    requires 0 <= p < 16 && 0 <= y && 0 <= x && !Guarded(WriteAt(j, b, y, x))
    ensures var d := PixelAt(b.mem, WriteAt(j, b, y, x), p);
            Result(j, b, y, x)[p] == if MaskPixel(j, x, p) then Selected(j.op, OperandPixel(j, b, y, x, p), d) else d
  {
    var buffer, line := Pair(j.Down(), Beside(j, b, y, x), Fetched(j, b, y, x)), HalftoneLine(j, b, y);
    LookPixel(b.mem, WriteAt(j, b, y, x), p);
    StoredMeaning(j, buffer, line, MaskOf(j, x), Look(b.mem, WriteAt(j, b, y, x)), p);
    if ReadsSource(j) {
      WindowPixel(j, b, y, x, p);
    } else if j.hop >= 2 {
      var d := PixelAt(b.mem, WriteAt(j, b, y, x), p);
      SourceNotNeeded(j.op, Operand(j, buffer, line)[p], OperandPixel(j, b, y, x, p), d);
    }
  }

  /**
   * The meaning of a blit, pixel by pixel: under the mask the truth table of the operation applied to
   * source, pattern and destination as they were, elsewhere the destination as it was.
   */
  lemma {:induction false} BlitPixel(j: Job, b: State, h: nat, y: int, x: int, p: int)
    requires HazardFree(j, b, h) && b.buffer == Pair(j.Down(), ZERO, ZERO)
    requires 0 <= y < h && 0 <= x < WordsPerLine(j) && 0 <= p < 16 && Open(WriteAt(j, b, y, x))
    ensures var d := PixelAt(b.mem, WriteAt(j, b, y, x), p);
            PixelAt(Lines(j, b, h).mem, WriteAt(j, b, y, x), p)
            == if MaskPixel(j, x, p) then Selected(j.op, OperandPixel(j, b, y, x, p), d) else d
  {
    BlitMeaning(j, b, h);
    ResultPixel(j, b, y, x, p);
    LookPixel(Lines(j, b, h).mem, WriteAt(j, b, y, x), p);
  }

  /** Every pixel of the destination that may be written, after the blit. */
  ghost predicate Painted(j: Job, b: State, after: Memory, h: nat) {
    forall y, x, p | 0 <= y < h && 0 <= x < WordsPerLine(j) && 0 <= p < 16 && Open(WriteAt(j, b, y, x)) ::
      var d := PixelAt(b.mem, WriteAt(j, b, y, x), p);
      PixelAt(after, WriteAt(j, b, y, x), p)
      == if MaskPixel(j, x, p) then Selected(j.op, OperandPixel(j, b, y, x, p), d) else d
  }

  lemma BlitPaints(j: Job, b: State, h: nat)
    requires HazardFree(j, b, h) && b.buffer == Pair(j.Down(), ZERO, ZERO)
    ensures Painted(j, b, Lines(j, b, h).mem, h) && OthersKept(j, b, Lines(j, b, h).mem, h)
  {
    forall y, x, p | 0 <= y < h && 0 <= x < WordsPerLine(j) && 0 <= p < 16 && Open(WriteAt(j, b, y, x))
      ensures var d := PixelAt(b.mem, WriteAt(j, b, y, x), p);
              PixelAt(Lines(j, b, h).mem, WriteAt(j, b, y, x), p)
              == if MaskPixel(j, x, p) then Selected(j.op, OperandPixel(j, b, y, x, p), d) else d {
      BlitPixel(j, b, h, y, x, p);
    }
    BlitMeaning(j, b, h);
  }

  /** Low memory, ROM and the hardware registers. */
  predicate Protected(c: int) {
    c <= 0x800 || 0xe0_0000 < c < 0x100_0000
  }

  ghost predicate ProtectedKept(before: Memory, after: Memory) {
    forall c {:trigger Protected(c)} | Protected(c) :: ByteAt(after, c) == ByteAt(before, c)
  }

  lemma StoreKeepsProtected(before: Memory, s: State, j: Job, mask: Word)
    requires ProtectedKept(before, s.mem)
    ensures ProtectedKept(before, Write(j, s, mask).mem)
  {
    StoreDiffers(s.mem, s.dest, Stored(j, s.buffer, s.line, mask, Look(s.mem, s.dest)));
  }

  lemma FirstKeepsProtected(j: Job, before: Memory, s: State)
    requires ProtectedKept(before, s.mem)
    ensures ProtectedKept(before, FirstWord(j, s).mem)
  {
    var ahead := if j.fxsr then Fetch(j, s).(source := Wrap(s.source + j.sourceX)) else s;
    StoreKeepsProtected(before, Fetch(j, ahead), j, j.mask1);
  }

  lemma MiddleKeepsProtected(j: Job, before: Memory, s: State)
    requires ProtectedKept(before, s.mem)
    ensures ProtectedKept(before, MiddleWord(j, s).mem)
  {
    var next := s.(source := Wrap(s.source + j.sourceX), dest := Wrap(s.dest + j.destX));
    StoreKeepsProtected(before, Fetch(j, next), j, j.mask2);
  }

  lemma LastKeepsProtected(j: Job, before: Memory, s: State)
    requires ProtectedKept(before, s.mem)
    ensures ProtectedKept(before, LastWord(j, s).mem)
  {
    var next := s.(dest := Wrap(s.dest + j.destX));
    var read := if j.nfsr then Shift(j, next) else Fetch(j, next.(source := Wrap(s.source + j.sourceX)));
    StoreKeepsProtected(before, read, j, j.mask3);
  }

  lemma LineKeepsProtected(j: Job, before: Memory, s: State)
    requires ProtectedKept(before, s.mem)
    ensures ProtectedKept(before, Line(j, s).mem)
  {
    var P := (r: State, k: int) => ProtectedKept(before, r.mem);
    FirstKeepsProtected(j, before, s);
    forall r: State, k | 1 <= k < Width(j) - 1 && P(r, k) ensures P(MiddleWord(j, r), k + 1) {
      MiddleKeepsProtected(j, before, r);
    }
    forall r: State, k | 1 <= k == Width(j) - 1 && P(r, k) ensures P(LastWord(j, r), k + 1) {
      LastKeepsProtected(j, before, r);
    }
    WordsInduction(j, s, Width(j), P);
  }

  /** Whatever a blit does, with hazards or without, it leaves these alone. */
  lemma BlitKeepsProtected(j: Job, b: State, h: nat)
    ensures ProtectedKept(b.mem, Lines(j, b, h).mem)
  {
    var P := (r: State, k: int) => ProtectedKept(b.mem, r.mem);
    forall r: State, k | 0 <= k < h && P(r, k) ensures P(Line(j, r), k + 1) {
      LineKeepsProtected(j, b.mem, r);
    }
    LinesInduction(j, b, h, h, P);
  }
}
