/**
 * One word of a blit (src/blitter.cpp:114-167 and 178-323): the sixteen logic operations, the end
 * masks and the 32-bit source buffer that the skew looks into. Words are rows of pixels, the leftmost
 * being the most significant bit.
 */
module BlitWord {

  function Row(v: bool): (r: seq<bool>)
    ensures |r| == 16 && forall p | 0 <= p < 16 :: r[p] == v
  {
    seq(16, p => v)
  }

  type Word = w: seq<bool> | |w| == 16 witness Row(false)
  type Long = w: seq<bool> | |w| == 32 witness Row(false) + Row(false)

  const ZERO: Word := Row(false)
  const ONES: Word := Row(true)

  function And(a: Word, b: Word): Word {
    seq(16, p requires 0 <= p < 16 => a[p] && b[p])
  }

  /** One pixel of the logic operations, as the op table lists them. */
  predicate Logic(op: int, s: bool, d: bool)
    requires 0 <= op < 16
  {
    match op
    case 0 => false
    case 1 => s && d
    case 2 => s && !d
    case 3 => s
    case 4 => !s && d
    case 5 => d
    case 6 => s != d
    case 7 => s || d
    case 8 => !s && !d
    case 9 => !s != d
    case 10 => !d
    case 11 => s || !d
    case 12 => !s
    case 13 => !s || d
    case 14 => !s || !d
    case _ => true
  }

  /** The number of an operation is its truth table: one bit for each pair of source and destination pixel. */
  predicate Selected(op: int, s: bool, d: bool) {
    match (s, d)
    case (true, true) => op % 2 == 1
    case (true, false) => op / 2 % 2 == 1
    case (false, true) => op / 4 % 2 == 1
    case (false, false) => op / 8 % 2 == 1
  }

  lemma LogicIsTruthTable(op: int, s: bool, d: bool)
    requires 0 <= op < 16
    ensures Logic(op, s, d) == Selected(op, s, d)
  {
  }

  /** The operations that do not need the source are exactly those whose table ignores it. */
  lemma IgnoresSourceIff(op: int)
    requires 0 <= op < 16
    ensures (forall d :: Selected(op, true, d) == Selected(op, false, d)) <==> op in {0, 5, 10, 15}
  {
    assert (forall d :: Selected(op, true, d) == Selected(op, false, d))
           <==> (Selected(op, true, true) == Selected(op, false, true) &&
                 Selected(op, true, false) == Selected(op, false, false));
  }

  /** The source buffer shifted by a word: to the left, or to the right when the source address descends. */
  function Shifted(down: bool, buffer: Long): Long {
    if down then ZERO + buffer[..16] else buffer[16..] + ZERO
  }

  /** A word read from the source goes to the end that the shift made free. */
  function Placed(down: bool, w: Word): Long {
    if down then w + ZERO else ZERO + w
  }

  /** The buffer after a word is read. */
  function Taken(down: bool, buffer: Long, w: Word): Long {
    seq(32, p requires 0 <= p < 32 => Shifted(down, buffer)[p] || Placed(down, w)[p])
  }

  /** The buffer that holds two words, side by side as on the screen. */
  function Pair(down: bool, before: Word, last: Word): Long {
    if down then last + before else before + last
  }

  /** The word read last, and the one before it. */
  function Newer(down: bool, buffer: Long): Word {
    if down then buffer[..16] else buffer[16..]
  }

  function Older(down: bool, buffer: Long): Word {
    if down then buffer[16..] else buffer[..16]
  }

  lemma PairOfHalves(down: bool, buffer: Long)
    ensures buffer == Pair(down, Older(down, buffer), Newer(down, buffer))
  {
  }

  lemma HalvesOfPair(down: bool, before: Word, last: Word)
    ensures Newer(down, Pair(down, before, last)) == last && Older(down, Pair(down, before, last)) == before
  {
  }

  /** Shifting makes room for the next word and drops the older of the two. */
  lemma ShiftIn(down: bool, before: Word, last: Word, next: Word)
    ensures Shifted(down, Pair(down, before, last)) == Pair(down, last, ZERO)
    ensures Taken(down, Pair(down, before, last), next) == Pair(down, last, next)
  {
  }

  /** The low sixteen bits of the buffer shifted right by the skew. */
  function Window(buffer: Long, skew: int): Word
    requires 0 <= skew < 16
  {
    (ZERO[..skew] + buffer[..32 - skew])[16..]
  }

  /** In the window the right word moves right by the skew, and the left word moves in behind it. */
  lemma WindowMeaning(down: bool, before: Word, last: Word, skew: int, p: int)
    requires 0 <= skew < 16 && 0 <= p < 16
    ensures var left, right := if down then last else before, if down then before else last;
            Window(Pair(down, before, last), skew)[p] == if p < skew then left[16 + p - skew] else right[p - skew]
  {
  }
}
