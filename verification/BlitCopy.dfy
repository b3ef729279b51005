/**
 * The plain copy (hop 2, op 3, no skew, full masks; src/blitter.cpp:114-167 and 584-624): when it
 * moves the block as it was before, also where source and destination overlap.
 */
module BlitCopy {
  import opened Division
  import opened BlitWord
  import opened BlitMemory
  import opened BlitRun

  predicate Plain(j: Job) {
    j.hop == 2 && j.op == 3 && j.Skew() == 0 && j.mask1 == j.mask2 == j.mask3 == ONES
  }

  /** The source word that belongs to word x of line y. */
  function CopyFrom(j: Job, b: State, y: int, x: int): Address {
    Wrap(b.source + Scale(y, SourceStride(j)) + Scale(x, j.sourceX))
  }

  /**
   * Settings that bring each source word to its place: an ascending copy takes the word just read, so
   * it must read every word and none extra; a descending one takes the word read before, so it needs
   * the extra read.
   */
  predicate Straight(j: Job) {
    if j.Down() then j.fxsr else (!j.fxsr || j.sourceX == 0) && (!j.nfsr || Width(j) == 1)
  }

  predicate InGrid(j: Job, h: nat, y: int, x: int) {
    0 <= y < h && 0 <= x < Width(j)
  }

  lemma PlainStored(j: Job, buffer: Long, line: Nibble, mask: Word, d: Word)
    requires Plain(j) && mask == ONES
    ensures Stored(j, buffer, line, mask, d) == buffer[16..]
  {
    assert Window(buffer, 0) == buffer[16..];
  }

  lemma PlainResult(j: Job, b: State, y: int, x: int)
    requires Plain(j) && !Guarded(WriteAt(j, b, y, x))
    ensures Result(j, b, y, x) == if j.Down() then Beside(j, b, y, x) else Fetched(j, b, y, x)
  {
    var beside, fetched := Beside(j, b, y, x), Fetched(j, b, y, x);
    PlainStored(j, Pair(j.Down(), beside, fetched), HalftoneLine(j, b, y), MaskOf(j, x),
                Look(b.mem, WriteAt(j, b, y, x)));
    HalvesOfPair(j.Down(), beside, fetched);
  }

  /** A descending copy reads one word ahead. */
  lemma ReadIsCopy(j: Job, b: State, y: int, x: int)
    requires Straight(j)
    ensures ReadAt(j, b, y, x) == CopyFrom(j, b, y, if j.Down() then x + 1 else x)
            && LineSource(j, b, y) == CopyFrom(j, b, y, 0)
  {
    ScaleStep(x + 1, j.sourceX);
  }

  lemma StraightResult(j: Job, b: State, y: int, x: int)
    requires Plain(j) && Straight(j) && !Guarded(WriteAt(j, b, y, x)) && 0 <= x < Width(j)
    ensures Result(j, b, y, x) == Look(b.mem, CopyFrom(j, b, y, x))
  {
    PlainResult(j, b, y, x);
    ReadIsCopy(j, b, y, if j.Down() then x - 1 else x);
  }

  /** Every word of the destination holds what its source word was. */
  ghost predicate IsCopy(j: Job, b: State, after: Memory, h: nat) {
    forall y, x | InGrid(j, h, y, x) && !Guarded(WriteAt(j, b, y, x)) ::
      Look(after, WriteAt(j, b, y, x)) == Look(b.mem, CopyFrom(j, b, y, x))
  }

  lemma StraightIsCopy(j: Job, b: State, after: Memory, h: nat)
    requires Plain(j) && Straight(j) && MemoryAt(j, b, after, h, 0)
    ensures IsCopy(j, b, after, h)
  {
    forall y, x | InGrid(j, h, y, x) && !Guarded(WriteAt(j, b, y, x))
      ensures Look(after, WriteAt(j, b, y, x)) == Look(b.mem, CopyFrom(j, b, y, x)) {
      assert Earlier(j, y, x, h, 0);
      StraightResult(j, b, y, x);
    }
  }

  lemma SameCovered(j: Job, b: State, c: State, y: int, x: int, d: int)
    requires c.dest == b.dest && Covered(j, b, y, x, d)
    ensures Covered(j, c, y, x, d)
  {
    var y2, x2 :| Earlier(j, y2, x2, y, x) && WriteAt(j, b, y2, x2) <= d <= WriteAt(j, b, y2, x2) + 1;
    assert WriteAt(j, c, y2, x2) == WriteAt(j, b, y2, x2);
  }

  lemma SameWritten(j: Job, b: State, c: State, y: int, x: int, a: int)
    requires c.dest == b.dest && !Written(j, b, y, x, a)
    ensures !Written(j, c, y, x, a)
  {
    if Covered(j, c, y, x, a) {
      SameCovered(j, c, b, y, x, a);
    }
    if Covered(j, c, y, x, a + 1) {
      SameCovered(j, c, b, y, x, a + 1);
    }
  }

  /** The blit copies whatever memory holds. */
  ghost predicate Copies(j: Job, b: State, h: nat) {
    forall m :: IsCopy(j, b.(mem := m), Lines(j, b.(mem := m), h).mem, h)
  }

  // ------------------------------------------------------------------------------------------------
  // The run of a straight copy, for any account M of memory and any words E that are fetched.

  /** The word before whose store the source of word x is fetched. */
  function FetchX(j: Job, x: int): int {
    if j.Down() && x > 0 then x - 1 else x
  }

  /** What a store of w at a leaves in the word. */
  function Landed(m: Memory, a: int, w: Word): Word {
    if Guarded(a) then Look(m, a) else w
  }

  /** The store of w as word x of line y. */
  ghost predicate Puts(j: Job, b: State, m: Memory, n: Memory, y: int, x: int, w: Word) {
    Differs(m, n, WriteAt(j, b, y, x), Landed(m, WriteAt(j, b, y, x), w))
  }

  ghost predicate Fetches(j: Job, b: State, h: nat, E: (int, int) -> Word, M: (Memory, int, int) -> bool) {
    forall m: Memory, y, x {:trigger M(m, y, FetchX(j, x))} | InGrid(j, h, y, x) && M(m, y, FetchX(j, x)) ::
      Look(m, CopyFrom(j, b, y, x)) == E(y, x)
  }

  ghost predicate Stores(j: Job, b: State, h: nat, E: (int, int) -> Word, M: (Memory, int, int) -> bool) {
    forall m: Memory, n: Memory, y, x {:trigger Puts(j, b, m, n, y, x, E(y, x))} |
      InGrid(j, h, y, x) && M(m, y, x) && Puts(j, b, m, n, y, x, E(y, x)) :: M(n, y, x + 1)
  }

  ghost predicate Carries(j: Job, b: State, h: nat, E: (int, int) -> Word, M: (Memory, int, int) -> bool) {
    && Plain(j) && Straight(j) && Fetches(j, b, h, E, M) && Stores(j, b, h, E, M)
    && forall m: Memory, y {:trigger M(m, y, Width(j))} | 0 <= y < h && M(m, y, Width(j)) :: M(m, y + 1, 0)
  }

  /** After x words of line y. A descending copy already holds the next word. */
  ghost predicate PlainIn(j: Job, b: State, s: State, y: int, x: int, E: (int, int) -> Word,
                          M: (Memory, int, int) -> bool) {
    && s.source == SourceAfter(j, b, y, x) && s.dest == WriteAt(j, b, y, x - 1) && M(s.mem, y, x)
    && (j.Down() && x < Width(j) ==> Newer(true, s.buffer) == E(y, x))
  }

  ghost predicate PlainAt(j: Job, b: State, s: State, y: int, M: (Memory, int, int) -> bool) {
    s.source == LineSource(j, b, y) && s.dest == WriteAt(j, b, y, 0) && M(s.mem, y, 0)
  }

  lemma FetchHalves(j: Job, s: State)
    requires Plain(j)
    ensures Fetch(j, s) == s.(buffer := Fetch(j, s).buffer) && Shift(j, s) == s.(buffer := Shift(j, s).buffer)
    ensures Newer(j.Down(), Fetch(j, s).buffer) == Look(s.mem, s.source)
    ensures Older(j.Down(), Fetch(j, s).buffer) == Newer(j.Down(), s.buffer)
    ensures Older(j.Down(), Shift(j, s).buffer) == Newer(j.Down(), s.buffer)
  {
    PairOfHalves(j.Down(), s.buffer);
    FetchStep(j, s, Older(j.Down(), s.buffer), Newer(j.Down(), s.buffer));
    HalvesOfPair(j.Down(), Newer(j.Down(), s.buffer), Look(s.mem, s.source));
    HalvesOfPair(j.Down(), Newer(j.Down(), s.buffer), ZERO);
  }

  /** What is stored is the word read last, or in a descending copy the one before it. */
  lemma PlainPut(j: Job, b: State, s: State, h: nat, y: int, x: int, E: (int, int) -> Word,
                 M: (Memory, int, int) -> bool)
    requires Carries(j, b, h, E, M) && InGrid(j, h, y, x) && M(s.mem, y, x) && s.dest == WriteAt(j, b, y, x)
    requires (if j.Down() then Older(true, s.buffer) else Newer(false, s.buffer)) == E(y, x)
    ensures Write(j, s, MaskOf(j, x)) == s.(mem := Write(j, s, MaskOf(j, x)).mem)
    ensures M(Write(j, s, MaskOf(j, x)).mem, y, x + 1)
  {
    PlainStored(j, s.buffer, s.line, MaskOf(j, x), Look(s.mem, s.dest));
    StoreDiffers(s.mem, s.dest, s.buffer[16..]);
    assert Puts(j, b, s.mem, Write(j, s, MaskOf(j, x)).mem, y, x, E(y, x));
  }

  lemma PlainFetch(j: Job, b: State, m: Memory, h: nat, y: int, x: int, E: (int, int) -> Word,
                   M: (Memory, int, int) -> bool)
    requires Carries(j, b, h, E, M) && InGrid(j, h, y, x) && M(m, y, FetchX(j, x))
    ensures Look(m, CopyFrom(j, b, y, x)) == E(y, x)
  {
  }

  /** Fetching at the address of word x gives that word, or in a descending copy the next if there is one. */
  lemma PlainRead(j: Job, b: State, m: Memory, h: nat, y: int, x: int, E: (int, int) -> Word,
                  M: (Memory, int, int) -> bool)
    requires Carries(j, b, h, E, M) && InGrid(j, h, y, x) && M(m, y, x)
    ensures !j.Down() ==> Look(m, ReadAt(j, b, y, x)) == E(y, x)
    ensures j.Down() && x + 1 < Width(j) ==> Look(m, ReadAt(j, b, y, x)) == E(y, x + 1)
  {
    ReadIsCopy(j, b, y, x);
    if !j.Down() {
      PlainFetch(j, b, m, h, y, x, E, M);
    } else if x + 1 < Width(j) {
      PlainFetch(j, b, m, h, y, x + 1, E, M);
    }
  }

  /** Fetch and store of word x, with the word before it in the buffer when the copy descends. */
  lemma PlainWord(j: Job, b: State, s: State, h: nat, y: int, x: int, E: (int, int) -> Word,
                  M: (Memory, int, int) -> bool)
    requires Carries(j, b, h, E, M) && InGrid(j, h, y, x) && M(s.mem, y, x)
    requires s.source == ReadAt(j, b, y, x) == SourceAfter(j, b, y, x + 1) && s.dest == WriteAt(j, b, y, x)
    requires j.Down() ==> Newer(true, s.buffer) == E(y, x)
    ensures PlainIn(j, b, Write(j, Fetch(j, s), MaskOf(j, x)), y, x + 1, E, M)
  {
    FetchHalves(j, s);
    PlainRead(j, b, s.mem, h, y, x, E, M);
    PlainPut(j, b, Fetch(j, s), h, y, x, E, M);
  }

  lemma PlainFirst(j: Job, b: State, s: State, h: nat, y: int, E: (int, int) -> Word, M: (Memory, int, int) -> bool)
    requires Carries(j, b, h, E, M) && 0 <= y < h && PlainAt(j, b, s, y, M)
    ensures PlainIn(j, b, FirstWord(j, s), y, 1, E, M)
  {
    ReadIsCopy(j, b, y, 0);
    if j.fxsr {
      FetchHalves(j, s);
      PlainFetch(j, b, s.mem, h, y, 0, E, M);
      WrapSum(b.source + Scale(y, SourceStride(j)), j.sourceX);
      PlainWord(j, b, Fetch(j, s).(source := Wrap(s.source + j.sourceX)), h, y, 0, E, M);
    } else {
      PlainWord(j, b, s, h, y, 0, E, M);
    }
  }

  lemma PlainMiddle(j: Job, b: State, s: State, h: nat, y: int, x: int, E: (int, int) -> Word,
                    M: (Memory, int, int) -> bool)
    requires Carries(j, b, h, E, M) && 0 <= y < h && 1 <= x < Width(j) - 1 && PlainIn(j, b, s, y, x, E, M)
    ensures PlainIn(j, b, MiddleWord(j, s), y, x + 1, E, M)
  {
    var next := s.(source := Wrap(s.source + j.sourceX), dest := Wrap(s.dest + j.destX));
    Advance(j, b, s, y, x);
    PlainWord(j, b, next, h, y, x, E, M);
    assert MiddleWord(j, s) == Write(j, Fetch(j, next), MaskOf(j, x));
  }

  lemma PlainLast(j: Job, b: State, s: State, h: nat, y: int, x: int, E: (int, int) -> Word,
                  M: (Memory, int, int) -> bool)
    requires Carries(j, b, h, E, M) && 0 <= y < h && 1 <= x == Width(j) - 1 && PlainIn(j, b, s, y, x, E, M)
    ensures PlainIn(j, b, LastWord(j, s), y, x + 1, E, M)
  {
    var next := s.(dest := Wrap(s.dest + j.destX));
    Advance(j, b, s, y, x);
    if j.nfsr {
      FetchHalves(j, next);
      PlainPut(j, b, Shift(j, next), h, y, x, E, M);
    } else {
      PlainWord(j, b, next.(source := Wrap(next.source + j.sourceX)), h, y, x, E, M);
    }
  }

  lemma PlainLine(j: Job, b: State, s: State, h: nat, y: int, E: (int, int) -> Word, M: (Memory, int, int) -> bool)
    requires Carries(j, b, h, E, M) && 0 <= y < h && PlainAt(j, b, s, y, M)
    ensures PlainAt(j, b, Line(j, s), y + 1, M)
  {
    var P := (r: State, k: int) => PlainIn(j, b, r, y, k, E, M);
    PlainFirst(j, b, s, h, y, E, M);
    forall r: State, k | 1 <= k < Width(j) - 1 && P(r, k) ensures P(MiddleWord(j, r), k + 1) {
      PlainMiddle(j, b, r, h, y, k, E, M);
    }
    forall r: State, k | 1 <= k == Width(j) - 1 && P(r, k) ensures P(LastWord(j, r), k + 1) {
      PlainLast(j, b, r, h, y, k, E, M);
    }
    WordsInduction(j, s, Width(j), P);
    NextLine(j, b, y);
  }

  lemma PlainRun(j: Job, b: State, h: nat, E: (int, int) -> Word, M: (Memory, int, int) -> bool)
    requires Carries(j, b, h, E, M) && M(b.mem, 0, 0)
    ensures M(Lines(j, b, h).mem, h, 0)
  {
    var P := (r: State, k: int) => PlainAt(j, b, r, k, M);
    forall r: State, k | 0 <= k < h && P(r, k) ensures P(Line(j, r), k + 1) {
      PlainLine(j, b, r, h, k, E, M);
    }
    LinesInduction(j, b, h, h, P);
  }

  // ------------------------------------------------------------------------------------------------
  // Which places copy.

  predicate SharesByte(a: int, a2: int) {
    -1 <= a - a2 <= 1
  }

  /** No two words of the destination share a byte. */
  ghost predicate Destinations(j: Job, b: State, h: nat) {
    forall y, x, y2, x2 {:trigger Earlier(j, y2, x2, y, x)} | InGrid(j, h, y, x) && Earlier(j, y2, x2, y, x) ::
      !SharesByte(WriteAt(j, b, y, x), WriteAt(j, b, y2, x2))
  }

  /** No two words of the source share a byte. */
  ghost predicate Sources(j: Job, b: State, h: nat) {
    forall y, x, y2, x2 {:trigger Earlier(j, y2, x2, y, x)} | InGrid(j, h, y, x) && Earlier(j, y2, x2, y, x) ::
      !SharesByte(CopyFrom(j, b, y, x), CopyFrom(j, b, y2, x2))
  }

  /** Every source word is fetched before any of it is overwritten. */
  ghost predicate InTime(j: Job, b: State, h: nat) {
    forall y, x | InGrid(j, h, y, x) :: !Written(j, b, y, FetchX(j, x), CopyFrom(j, b, y, x))
  }

  lemma NotWritten(j: Job, b: State, h: nat, y: int, x: int)
    requires Destinations(j, b, h) && InGrid(j, h, y, x)
    ensures !Written(j, b, y, x, WriteAt(j, b, y, x))
  {
    forall y2, x2 | Earlier(j, y2, x2, y, x) ensures !SharesByte(WriteAt(j, b, y, x), WriteAt(j, b, y2, x2)) {
    }
  }

  /** One more word of a straight copy is in place. */
  lemma CopyStep(j: Job, b: State, m: Memory, n: Memory, h: nat, y: int, x: int)
    requires Plain(j) && Straight(j) && Destinations(j, b, h) && InGrid(j, h, y, x) && MemoryAt(j, b, m, y, x)
    requires Puts(j, b, m, n, y, x, Look(b.mem, CopyFrom(j, b, y, x)))
    ensures MemoryAt(j, b, n, y, x + 1)
  {
    NotWritten(j, b, h, y, x);
    LookKept(j, b, m, y, x, WriteAt(j, b, y, x));
    if !Guarded(WriteAt(j, b, y, x)) {
      StraightResult(j, b, y, x);
    }
    MemoryStep(j, b, m, n, y, x);
  }

  lemma InTimeCopies(j: Job, b: State, h: nat)
    requires Plain(j) && Straight(j) && Destinations(j, b, h) && InTime(j, b, h)
    ensures MemoryAt(j, b, Lines(j, b, h).mem, h, 0)
  {
    var E := (y, x) => Look(b.mem, CopyFrom(j, b, y, x));
    var M := (m: Memory, y: int, x: int) => MemoryAt(j, b, m, y, x);
    forall m: Memory, y, x | InGrid(j, h, y, x) && M(m, y, FetchX(j, x))
      ensures Look(m, CopyFrom(j, b, y, x)) == E(y, x) {
      LookKept(j, b, m, y, FetchX(j, x), CopyFrom(j, b, y, x));
    }
    forall m: Memory, n: Memory, y, x | InGrid(j, h, y, x) && M(m, y, x) && Puts(j, b, m, n, y, x, E(y, x))
      ensures M(n, y, x + 1) {
      CopyStep(j, b, m, n, h, y, x);
    }
    forall m: Memory, y | 0 <= y < h && M(m, y, Width(j)) ensures M(m, y + 1, 0) {
      MemoryAtNext(j, b, m, y);
    }
    PlainRun(j, b, h, E, M);
  }

  /** All of memory is blank but for the byte a, which is blank as soon as it was covered. */
  ghost predicate BlankBut(j: Job, b: State, m: Memory, a: int, y: int, x: int) {
    && (forall d {:trigger ByteAt(m, d)} | d != a :: ByteAt(m, d) == BLANK)
    && (Covered(j, b, y, x, a) ==> ByteAt(m, a) == BLANK)
  }

  lemma CoveredStep(j: Job, b: State, y: int, x: int, c: int)
    requires 0 <= x < Width(j) && Covered(j, b, y, x + 1, c) && !Covered(j, b, y, x, c)
    ensures WriteAt(j, b, y, x) <= c <= WriteAt(j, b, y, x) + 1
  {
    var y2, x2 :| Earlier(j, y2, x2, y, x + 1) && WriteAt(j, b, y2, x2) <= c <= WriteAt(j, b, y2, x2) + 1;
    assert !Earlier(j, y2, x2, y, x);
  }

  lemma BlankStep(j: Job, b: State, m: Memory, n: Memory, a: int, y: int, x: int)
    requires 0 <= x < Width(j) && BlankBut(j, b, m, a, y, x) && Differs(m, n, WriteAt(j, b, y, x), ZERO)
    ensures BlankBut(j, b, n, a, y, x + 1)
  {
    BlankWord(n, WriteAt(j, b, y, x));
    if Covered(j, b, y, x + 1, a) && !Covered(j, b, y, x, a) {
      CoveredStep(j, b, y, x, a);
    }
  }

  lemma BlankNext(j: Job, b: State, m: Memory, a: int, y: int)
    requires 0 <= y && BlankBut(j, b, m, a, y, Width(j))
    ensures BlankBut(j, b, m, a, y + 1, 0)
  {
    if Covered(j, b, y + 1, 0, a) {
      var y2, x2 :| Earlier(j, y2, x2, y + 1, 0) && WriteAt(j, b, y2, x2) <= a <= WriteAt(j, b, y2, x2) + 1;
      assert Earlier(j, y2, x2, y, Width(j));
    }
  }

  /** The only word that could fetch the byte a comes too late. */
  lemma BlankFetch(j: Job, b: State, m: Memory, h: nat, a: int, y0: int, x0: int, y: int, x: int)
    requires Sources(j, b, h) && InGrid(j, h, y0, x0) && CopyFrom(j, b, y0, x0) <= a <= CopyFrom(j, b, y0, x0) + 1
    requires Covered(j, b, y0, FetchX(j, x0), a) && InGrid(j, h, y, x) && BlankBut(j, b, m, a, y, FetchX(j, x))
    ensures Look(m, CopyFrom(j, b, y, x)) == ZERO
  {
    BlankWord(m, CopyFrom(j, b, y, x));
    assert Earlier(j, y, x, y0, x0) || Earlier(j, y0, x0, y, x) || (y == y0 && x == x0);
  }

  lemma LaterCovered(j: Job, b: State, h: nat, y: int, x: int, c: int)
    requires InGrid(j, h, y, x) && Covered(j, b, y, FetchX(j, x), c)
    ensures Covered(j, b, h, 0, c)
  {
    var y2, x2 :| Earlier(j, y2, x2, y, FetchX(j, x)) && WriteAt(j, b, y2, x2) <= c <= WriteAt(j, b, y2, x2) + 1;
    assert Earlier(j, y2, x2, h, 0);
  }

  /** Every word of the destination may be written. */
  ghost predicate Writable(j: Job, b: State, h: nat) {
    forall y, x | InGrid(j, h, y, x) :: !Guarded(WriteAt(j, b, y, x))
  }

  lemma BlankStart(j: Job, b: State, a: int)
    requires b.mem == map[a := ONES[..8]]
    ensures BlankBut(j, b, b.mem, a, 0, 0)
  {
  }

  /** A blit of a memory in which only the late byte is set ends with nothing set. */
  lemma LateRun(j: Job, b: State, h: nat, a: int, y0: int, x0: int)
    requires Plain(j) && Straight(j) && Sources(j, b, h) && Writable(j, b, h)
    requires InGrid(j, h, y0, x0) && CopyFrom(j, b, y0, x0) <= a <= CopyFrom(j, b, y0, x0) + 1
    requires Covered(j, b, y0, FetchX(j, x0), a) && BlankBut(j, b, b.mem, a, 0, 0)
    ensures BlankBut(j, b, Lines(j, b, h).mem, a, h, 0)
  {
    var E := (y: int, x: int) => ZERO;
    var M := (m: Memory, y: int, x: int) => BlankBut(j, b, m, a, y, x);
    forall m: Memory, y, x | InGrid(j, h, y, x) && M(m, y, FetchX(j, x))
      ensures Look(m, CopyFrom(j, b, y, x)) == E(y, x) {
      BlankFetch(j, b, m, h, a, y0, x0, y, x);
    }
    forall m: Memory, n: Memory, y, x | InGrid(j, h, y, x) && M(m, y, x) && Puts(j, b, m, n, y, x, E(y, x))
      ensures M(n, y, x + 1) {
      BlankStep(j, b, m, n, a, y, x);
    }
    forall m: Memory, y | 0 <= y < h && M(m, y, Width(j)) ensures M(m, y + 1, 0) {
      BlankNext(j, b, m, a, y);
    }
    PlainRun(j, b, h, E, M);
  }

  lemma BlankEnd(j: Job, b: State, m: Memory, h: nat, a: int, y: int, x: int, c: int)
    requires InGrid(j, h, y, x) && Covered(j, b, y, FetchX(j, x), a) && BlankBut(j, b, m, a, h, 0)
    ensures Look(m, c) == ZERO
  {
    LaterCovered(j, b, h, y, x, a);
    BlankWord(m, c);
  }

  lemma ByteIsSeen(m: Memory, a: int, c: int)
    requires m == map[a := ONES[..8]] && c <= a <= c + 1
    ensures Look(m, c) != ZERO
  {
    BlankWord(m, c);
    assert ByteAt(m, a)[0] && !BLANK[0];
  }

  lemma LateIsNoCopy(j: Job, b: State, h: nat, a: int, y0: int, x0: int)
    requires Plain(j) && Straight(j) && Sources(j, b, h) && Writable(j, b, h)
    requires InGrid(j, h, y0, x0) && CopyFrom(j, b, y0, x0) <= a <= CopyFrom(j, b, y0, x0) + 1
    requires Covered(j, b, y0, FetchX(j, x0), a) && b.mem == map[a := ONES[..8]]
    ensures !IsCopy(j, b, Lines(j, b, h).mem, h)
  {
    BlankStart(j, b, a);
    LateRun(j, b, h, a, y0, x0);
    BlankEnd(j, b, Lines(j, b, h).mem, h, a, y0, x0, WriteAt(j, b, y0, x0));
    ByteIsSeen(b.mem, a, CopyFrom(j, b, y0, x0));
  }

  /** Where words lie does not depend on what memory holds. */
  lemma SamePlaces(j: Job, b: State, m: Memory, y: int, x: int)
    ensures WriteAt(j, b.(mem := m), y, x) == WriteAt(j, b, y, x)
    ensures CopyFrom(j, b.(mem := m), y, x) == CopyFrom(j, b, y, x)
  {
  }

  lemma SameDestinations(j: Job, b: State, m: Memory, h: nat)
    requires Destinations(j, b, h)
    ensures Destinations(j, b.(mem := m), h)
  {
    var c := b.(mem := m);
    forall y, x, y2, x2 | InGrid(j, h, y, x) && Earlier(j, y2, x2, y, x)
      ensures !SharesByte(WriteAt(j, c, y, x), WriteAt(j, c, y2, x2)) {
      SamePlaces(j, b, m, y, x);
      SamePlaces(j, b, m, y2, x2);
    }
  }

  lemma SameSources(j: Job, b: State, m: Memory, h: nat)
    requires Sources(j, b, h)
    ensures Sources(j, b.(mem := m), h)
  {
    var c := b.(mem := m);
    forall y, x, y2, x2 | InGrid(j, h, y, x) && Earlier(j, y2, x2, y, x)
      ensures !SharesByte(CopyFrom(j, c, y, x), CopyFrom(j, c, y2, x2)) {
      SamePlaces(j, b, m, y, x);
      SamePlaces(j, b, m, y2, x2);
    }
  }

  lemma SameTimes(j: Job, b: State, m: Memory, h: nat)
    requires InTime(j, b, h)
    ensures InTime(j, b.(mem := m), h)
  {
    var c := b.(mem := m);
    forall y, x | InGrid(j, h, y, x) ensures !Written(j, c, y, FetchX(j, x), CopyFrom(j, c, y, x)) {
      SamePlaces(j, b, m, y, x);
      SameWritten(j, b, c, y, FetchX(j, x), CopyFrom(j, b, y, x));
    }
  }

  lemma SameWritable(j: Job, b: State, m: Memory, h: nat)
    requires Writable(j, b, h)
    ensures Writable(j, b.(mem := m), h)
  {
    forall y, x | InGrid(j, h, y, x) ensures !Guarded(WriteAt(j, b.(mem := m), y, x)) {
      SamePlaces(j, b, m, y, x);
    }
  }

  /** Whatever memory holds, the copy arrives in time. */
  lemma InTimeIsEnough(j: Job, b: State, h: nat)
    requires Plain(j) && Straight(j) && Destinations(j, b, h) && InTime(j, b, h)
    ensures Copies(j, b, h)
  {
    forall m ensures IsCopy(j, b.(mem := m), Lines(j, b.(mem := m), h).mem, h) {
      SameDestinations(j, b, m, h);
      SameTimes(j, b, m, h);
      InTimeCopies(j, b.(mem := m), h);
      StraightIsCopy(j, b.(mem := m), Lines(j, b.(mem := m), h).mem, h);
    }
  }

  /**
   * The exact condition for a straight copy between blocks of distinct words: whatever memory holds, the
   * block arrives as it was before if and only if no source word is overwritten before it is fetched.
   */
  lemma {:induction false} CopiesIff(j: Job, b: State, h: nat)
    requires Plain(j) && Straight(j) && Destinations(j, b, h) && Sources(j, b, h) && Writable(j, b, h)
    ensures Copies(j, b, h) <==> InTime(j, b, h)
  {
    if InTime(j, b, h) {
      InTimeIsEnough(j, b, h);
    } else {
      var y0, x0 :| InGrid(j, h, y0, x0) && Written(j, b, y0, FetchX(j, x0), CopyFrom(j, b, y0, x0));
      var a :| CopyFrom(j, b, y0, x0) <= a <= CopyFrom(j, b, y0, x0) + 1 && Covered(j, b, y0, FetchX(j, x0), a);
      var c := b.(mem := map[a := ONES[..8]]);
      SameSources(j, b, c.mem, h);
      SameWritable(j, b, c.mem, h);
      SamePlaces(j, b, c.mem, y0, x0);
      SameCovered(j, b, c, y0, FetchX(j, x0), a);
      LateIsNoCopy(j, c, h, a, y0, x0);
    }
  }

  // ------------------------------------------------------------------------------------------------
  // Which settings copy.

  /** A word of the first line that crooked settings get wrong, and a memory that shows it. */
  function Wrong(j: Job): int {
    if j.Down() || (j.fxsr && j.sourceX != 0) then 0 else Width(j) - 1
  }

  function Witness(j: Job, b: State): Memory {
    map[CopyFrom(j, b, 0, Wrong(j)) := ONES[..8]]
  }

  /** An address with a small step added is another word that does not reach back to the first byte. */
  lemma StepAway(a: Address, d: int)
    requires 0 < d < 0x8000
    ensures Wrap(a + d) != a && Wrap(a + d) + 1 != a
  {
  }

  lemma ByteShows(m: Memory, a: int)
    ensures Look(m, a)[0] == ByteAt(m, a)[0]
  {
  }

  /** The leftmost pixel of that word is not set. */
  predicate Spoilt(j: Job, b: State, m: Memory) {
    !Look(m, WriteAt(j, b, 0, Wrong(j)))[0]
  }

  /** After x words of line y, the wrong word is and stays wrong. */
  ghost predicate SpoiltIn(j: Job, b: State, s: State, y: int, x: int) {
    s.dest == WriteAt(j, b, y, x - 1) && (Earlier(j, 0, Wrong(j), y, x) ==> Spoilt(j, b, s.mem))
  }

  ghost predicate SpoiltAt(j: Job, b: State, s: State, y: int) {
    s.dest == WriteAt(j, b, y, 0) && if y == 0 then s == b else Spoilt(j, b, s.mem)
  }

  /** A store elsewhere leaves the word alone. */
  lemma SpoiltKept(j: Job, b: State, s: State, h: nat, mask: Word, y: int, x: int)
    requires Destinations(j, b, h) && InGrid(j, h, y, x) && Earlier(j, 0, Wrong(j), y, x)
    requires s.dest == WriteAt(j, b, y, x) && Spoilt(j, b, s.mem)
    ensures Spoilt(j, b, Write(j, s, mask).mem)
  {
    StoreDiffers(s.mem, s.dest, Stored(j, s.buffer, s.line, mask, Look(s.mem, s.dest)));
    SameWord(s.mem, Write(j, s, mask).mem, WriteAt(j, b, 0, Wrong(j)));
  }

  /** A blank pixel on top of the window spoils the word. */
  lemma SpoiltNow(j: Job, b: State, s: State)
    requires Plain(j) && s.dest == WriteAt(j, b, 0, Wrong(j)) && !Guarded(s.dest) && !s.buffer[16]
    ensures Spoilt(j, b, Write(j, s, ONES).mem)
  {
    PlainStored(j, s.buffer, s.line, ONES, Look(s.mem, s.dest));
    StoreDiffers(s.mem, s.dest, s.buffer[16..]);
  }

  /** Descending without the extra read, the first word is what was in the empty buffer. */
  lemma SpoiltDown(j: Job, b: State)
    requires Plain(j) && j.Down() && !j.fxsr && b.buffer == Pair(true, ZERO, ZERO) && !Guarded(WriteAt(j, b, 0, 0))
    ensures Spoilt(j, b, FirstWord(j, b).mem)
  {
    FetchHalves(j, b);
    HalvesOfPair(true, ZERO, ZERO);
    var f := Fetch(j, b);
    assert f.buffer[16..][0] == ZERO[0];
    SpoiltNow(j, b, f);
  }

  /** Ascending with the extra read, the first word is the one behind its source. */
  lemma SpoiltUp(j: Job, b: State)
    requires Plain(j) && !j.Down() && j.fxsr && j.sourceX != 0 && b.mem == Witness(j, b)
    requires !Guarded(WriteAt(j, b, 0, 0))
    ensures Spoilt(j, b, FirstWord(j, b).mem)
  {
    var f := Fetch(j, b);
    var next := f.(source := Wrap(f.source + j.sourceX));
    FetchHalves(j, b);
    FetchHalves(j, next);
    StepAway(b.source, j.sourceX);
    ByteShows(b.mem, next.source);
    assert Fetch(j, next).buffer[16..][0] == Look(b.mem, next.source)[0];
    SpoiltNow(j, b, Fetch(j, next));
  }

  lemma SpoiltFirst(j: Job, b: State, s: State, h: nat, y: int)
    requires Crooked(j, b, h) && 0 <= y < h && SpoiltAt(j, b, s, y)
    ensures SpoiltIn(j, b, FirstWord(j, s), y, 1)
  {
    if y > 0 {
      var ahead := if j.fxsr then Fetch(j, s).(source := Wrap(s.source + j.sourceX)) else s;
      SpoiltKept(j, b, Fetch(j, ahead), h, j.mask1, y, 0);
    } else if Wrong(j) == 0 {
      if j.Down() {
        SpoiltDown(j, b);
      } else {
        SpoiltUp(j, b);
      }
    }
  }

  lemma SpoiltMiddle(j: Job, b: State, s: State, h: nat, y: int, x: int)
    requires Crooked(j, b, h) && 0 <= y < h && 1 <= x < Width(j) - 1 && SpoiltIn(j, b, s, y, x)
    ensures SpoiltIn(j, b, MiddleWord(j, s), y, x + 1)
  {
    var next := s.(source := Wrap(s.source + j.sourceX), dest := Wrap(s.dest + j.destX));
    Forward(j, b, y, x);
    if Earlier(j, 0, Wrong(j), y, x + 1) {
      SpoiltKept(j, b, Fetch(j, next), h, j.mask2, y, x);
    }
  }

  /** With NFSR, zeros move into the last word of an ascending line. */
  lemma SpoiltLast(j: Job, b: State, s: State, h: nat, y: int, x: int)
    requires Crooked(j, b, h) && 0 <= y < h && 1 <= x == Width(j) - 1 && SpoiltIn(j, b, s, y, x)
    ensures SpoiltIn(j, b, LastWord(j, s), y, x + 1)
  {
    var next := s.(dest := Wrap(s.dest + j.destX));
    var read := if j.nfsr then Shift(j, next) else Fetch(j, next.(source := Wrap(next.source + j.sourceX)));
    Forward(j, b, y, x);
    if y == 0 && x == Wrong(j) {
      assert read.buffer[16..] == ZERO;
      assert read.buffer[16] == ZERO[0];
      SpoiltNow(j, b, read);
    } else {
      SpoiltKept(j, b, read, h, j.mask3, y, x);
    }
  }

  lemma SpoiltLine(j: Job, b: State, s: State, h: nat, y: int)
    requires Crooked(j, b, h) && 0 <= y < h && SpoiltAt(j, b, s, y)
    ensures SpoiltAt(j, b, Line(j, s), y + 1)
  {
    SpoiltWords(j, b, s, h, y);
    NextLine(j, b, y);
    assert Earlier(j, 0, Wrong(j), y, Width(j));
  }

  lemma SpoiltWords(j: Job, b: State, s: State, h: nat, y: int)
    requires Crooked(j, b, h) && 0 <= y < h && SpoiltAt(j, b, s, y)
    ensures SpoiltIn(j, b, Words(j, s, Width(j)), y, Width(j))
  {
    var P := (r: State, k: int) => SpoiltIn(j, b, r, y, k);
    SpoiltFirst(j, b, s, h, y);
    forall r: State, k | 1 <= k < Width(j) - 1 && P(r, k) ensures P(MiddleWord(j, r), k + 1) {
      SpoiltMiddle(j, b, r, h, y, k);
    }
    forall r: State, k | 1 <= k == Width(j) - 1 && P(r, k) ensures P(LastWord(j, r), k + 1) {
      SpoiltLast(j, b, r, h, y, k);
    }
    WordsInduction(j, s, Width(j), P);
  }

  /** Settings that are not straight, and the memory that shows it. */
  ghost predicate Crooked(j: Job, b: State, h: nat) {
    && Plain(j) && !Straight(j) && Destinations(j, b, h) && !Guarded(WriteAt(j, b, 0, Wrong(j)))
    && b.buffer == Pair(j.Down(), ZERO, ZERO) && b.mem == Witness(j, b)
  }

  lemma SpoiltRun(j: Job, b: State, h: nat)
    requires Crooked(j, b, h) && 1 <= h
    ensures Spoilt(j, b, Lines(j, b, h).mem)
  {
    var P := (r: State, k: int) => SpoiltAt(j, b, r, k);
    forall r: State, k | 0 <= k < h && P(r, k) ensures P(Line(j, r), k + 1) {
      SpoiltLine(j, b, r, h, k);
    }
    LinesInduction(j, b, h, h, P);
  }

  lemma CrookedIsNoCopy(j: Job, b: State, h: nat)
    requires Crooked(j, b, h) && 1 <= h
    ensures !IsCopy(j, b, Lines(j, b, h).mem, h)
  {
    SpoiltRun(j, b, h);
    ByteShows(b.mem, CopyFrom(j, b, 0, Wrong(j)));
    assert InGrid(j, h, 0, Wrong(j));
  }

  /**
   * Any plain blit whose destination words are distinct: whatever memory holds, the block arrives as it
   * was before if the settings are straight and no source word is overwritten before it is fetched, and
   * never with other settings; if the source words are distinct too, if and only if.
   */
  lemma {:induction false} CopyIff(j: Job, b: State, h: nat)
    requires Plain(j) && Destinations(j, b, h) && !Guarded(WriteAt(j, b, 0, Wrong(j)))
    requires b.buffer == Pair(j.Down(), ZERO, ZERO) && 1 <= h
    ensures Copies(j, b, h) ==> Straight(j)
    ensures Straight(j) && InTime(j, b, h) ==> Copies(j, b, h)
    ensures Sources(j, b, h) && Writable(j, b, h) ==> (Copies(j, b, h) <==> Straight(j) && InTime(j, b, h))
  {
    if !Straight(j) {
      var c := b.(mem := Witness(j, b));
      SameDestinations(j, b, c.mem, h);
      SamePlaces(j, b, c.mem, 0, Wrong(j));
      CrookedIsNoCopy(j, c, h);
    } else if InTime(j, b, h) {
      InTimeIsEnough(j, b, h);
    } else if Sources(j, b, h) && Writable(j, b, h) {
      CopiesIff(j, b, h);
    }
  }

  // ------------------------------------------------------------------------------------------------
  // Blocks that run side by side.

  predicate Parallel(j: Job) {
    j.sourceX == j.destX && SourceStride(j) == DestStride(j)
  }

  /** Rows that do not turn back: every word lies wholly behind the next one. */
  predicate Steady(j: Job) {
    if j.Down() then j.destX <= -2 && DestStride(j) <= (Width(j) - 1) * j.destX - 2
    else 2 <= j.destX && (Width(j) - 1) * j.destX + 2 <= DestStride(j)
  }

  /** Neither block runs over an end of the address space. */
  ghost predicate Unwrapped(j: Job, b: State, h: nat) {
    forall y, x | InGrid(j, h, y, x) ::
      && WriteAt(j, b, y, x) == b.dest + y * DestStride(j) + x * j.destX
      && CopyFrom(j, b, y, x) == b.source + y * SourceStride(j) + x * j.sourceX
  }

  /**
   * Source and destination run side by side, in one direction without turning back, and what is
   * still to be read lies ahead of what is written.
   */
  ghost predicate Ordered(j: Job, b: State, h: nat) {
    Parallel(j) && Steady(j) && Unwrapped(j, b, h) && (if j.Down() then b.source <= b.dest else b.dest <= b.source)
  }

  /** In rows that do not overlap, later words lie higher. */
  lemma Ascends(width: nat, step: int, stride: int, y2: int, x2: int, y: int, x: int)
    requires 2 <= step && (width - 1) * step + 2 <= stride && 0 <= x2 < width && 0 <= x < width
    requires y2 < y || (y2 == y && x2 < x)
    ensures y2 * stride + x2 * step + 2 <= y * stride + x * step
  {
    if y2 == y {
      MulMonotonic(x2 + 1, x, step);
      Times(x2 + 1, step);
    } else {
      RowWithin(width, step, x2);
      RowWithin(width, step, x);
      MulMonotonic(y2 + 1, y, stride);
      Times(y2 + 1, stride);
    }
  }

  lemma RowWithin(width: nat, step: int, x: int)
    requires 0 <= step && 0 <= x < width
    ensures 0 <= x * step <= (width - 1) * step
  {
    MulMonotonic(x, width - 1, step);
    MulMonotonic(0, x, step);
  }

  lemma Negated(y: int, stride: int, x: int, step: int)
    ensures y * -stride + x * -step == -(y * stride + x * step)
  {
  }

  /** A word written lies behind every word that is written later. */
  lemma WritesAdvance(j: Job, b: State, h: nat, y2: int, x2: int, y: int, x: int)
    requires Steady(j) && Unwrapped(j, b, h) && Earlier(j, y2, x2, y, x) && InGrid(j, h, y, x)
    ensures if j.Down() then WriteAt(j, b, y2, x2) >= WriteAt(j, b, y, x) + 2
            else WriteAt(j, b, y2, x2) + 2 <= WriteAt(j, b, y, x)
  {
    assert InGrid(j, h, y2, x2);
    if j.Down() {
      Negated(0, 0, Width(j) - 1, j.destX);
      Ascends(Width(j), 0 - j.destX, -DestStride(j), y2, x2, y, x);
      Negated(y2, DestStride(j), x2, j.destX);
      Negated(y, DestStride(j), x, j.destX);
    } else {
      Ascends(Width(j), j.destX, DestStride(j), y2, x2, y, x);
    }
  }

  lemma CopyOffset(j: Job, b: State, h: nat, y: int, x: int)
    requires Parallel(j) && Unwrapped(j, b, h) && InGrid(j, h, y, x)
    ensures CopyFrom(j, b, y, x) == WriteAt(j, b, y, x) + (b.source - b.dest)
  {
  }

  lemma OrderedDestinations(j: Job, b: State, h: nat)
    requires Ordered(j, b, h)
    ensures Destinations(j, b, h)
  {
    forall y, x, y2, x2 | InGrid(j, h, y, x) && Earlier(j, y2, x2, y, x)
      ensures !SharesByte(WriteAt(j, b, y, x), WriteAt(j, b, y2, x2)) {
      WritesAdvance(j, b, h, y2, x2, y, x);
    }
  }

  lemma OrderedInTime(j: Job, b: State, h: nat)
    requires Ordered(j, b, h)
    ensures InTime(j, b, h)
  {
    forall y, x | InGrid(j, h, y, x) ensures !Written(j, b, y, FetchX(j, x), CopyFrom(j, b, y, x)) {
      CopyOffset(j, b, h, y, x);
      forall y2, x2 | Earlier(j, y2, x2, y, FetchX(j, x))
        ensures !SharesByte(WriteAt(j, b, y2, x2), CopyFrom(j, b, y, x)) {
        WritesAdvance(j, b, h, y2, x2, y, x);
      }
    }
  }

  /** The block at the source arrives at the destination. */
  ghost predicate IsMove(j: Job, b: State, after: Memory, h: nat) {
    forall y, x | InGrid(j, h, y, x) && !Guarded(WriteAt(j, b, y, x)) ::
      Look(after, WriteAt(j, b, y, x)) == Look(b.mem, WriteAt(j, b, y, x) + (b.source - b.dest))
  }

  lemma CopyIsMove(j: Job, b: State, after: Memory, h: nat)
    requires IsCopy(j, b, after, h) && Parallel(j) && Unwrapped(j, b, h)
    ensures IsMove(j, b, after, h)
  {
    forall y, x | InGrid(j, h, y, x) && !Guarded(WriteAt(j, b, y, x))
      ensures Look(after, WriteAt(j, b, y, x)) == Look(b.mem, WriteAt(j, b, y, x) + (b.source - b.dest)) {
      CopyOffset(j, b, h, y, x);
    }
  }

  /**
   * The overlapping copy: ascending with the destination below the source, or descending with it
   * above, the block arrives as it was before, and nothing else changes.
   */
  lemma {:induction false} OverlappingCopy(j: Job, b: State, h: nat)
    requires Plain(j) && Straight(j) && Ordered(j, b, h)
    ensures IsMove(j, b, Lines(j, b, h).mem, h) && OthersKept(j, b, Lines(j, b, h).mem, h)
  {
    OrderedDestinations(j, b, h);
    OrderedInTime(j, b, h);
    InTimeCopies(j, b, h);
    StraightIsCopy(j, b, Lines(j, b, h).mem, h);
    CopyIsMove(j, b, Lines(j, b, h).mem, h);
    MemoryAtKeepsOthers(j, b, Lines(j, b, h).mem, h);
  }
}
