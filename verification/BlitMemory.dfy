/**
 * The Atari memory that the blitter works on (src/blitter.cpp:98-110): bytes by address, read and
 * written in big-endian words at even and odd addresses alike.
 */
module BlitMemory {
  import opened Division
  import opened BlitWord

  /** Eight pixels, the leftmost being the most significant bit. */
  type Byte = w: seq<bool> | |w| == 8 witness Row(false)[..8]

  const BLANK: Byte := ZERO[..8]

  type Memory = map<int, Byte>

  /** Address registers are 32 bits wide. */
  type Address = a: int | 0 <= a < 0x1_0000_0000

  function Wrap(a: int): Address {
    a % 0x1_0000_0000
  }

  lemma WrapSum(a: int, d: int)
    ensures Wrap(Wrap(a) + d) == Wrap(a + d)
  {
    ReduceSummand(a, d, 0x1_0000_0000);
  }

  function ByteAt(m: Memory, a: int): Byte {
    if a in m then m[a] else BLANK
  }

  /** LM_UW: the word at an address. */
  function Look(m: Memory, a: int): Word {
    seq(16, p requires 0 <= p < 16 => if p < 8 then ByteAt(m, a)[p] else ByteAt(m, a + 1)[p - 8])
  }

  /** Where SM_UW refuses to write. */
  predicate Guarded(a: int) {
    a <= 0x800 || 0xe0_0000 <= a < 0x100_0000
  }

  /** SM_UW. */
  function Store(m: Memory, a: int, w: Word): Memory {
    if Guarded(a) then m else m[a := w[..8]][a + 1 := w[8..]]
  }

  /** Memories that differ only in the word at one address, which is w in the second. */
  ghost predicate Differs(before: Memory, after: Memory, at: int, w: Word) {
    Look(after, at) == w &&
    forall c {:trigger ByteAt(after, c)} | c != at && c != at + 1 :: ByteAt(after, c) == ByteAt(before, c)
  }

  lemma StoreDiffers(m: Memory, a: int, w: Word)
    ensures Differs(m, Store(m, a, w), a, if Guarded(a) then Look(m, a) else w)
  {
    if !Guarded(a) {
      var after := Store(m, a, w);
      assert ByteAt(after, a) == w[..8] && ByteAt(after, a + 1) == w[8..];
      assert Look(after, a) == w;
    }
  }

  /** A word is its two bytes. */
  lemma SameWord(m: Memory, m': Memory, a: int)
    requires ByteAt(m, a) == ByteAt(m', a) && ByteAt(m, a + 1) == ByteAt(m', a + 1)
    ensures Look(m, a) == Look(m', a)
  {
  }

  lemma BlankWord(m: Memory, a: int)
    ensures Look(m, a) == ZERO <==> ByteAt(m, a) == BLANK && ByteAt(m, a + 1) == BLANK
  {
    if Look(m, a) == ZERO {
      forall p | 0 <= p < 8 ensures !ByteAt(m, a)[p] && !ByteAt(m, a + 1)[p] {
        assert Look(m, a)[p] == ZERO[p] && Look(m, a)[p + 8] == ZERO[p + 8];
      }
    }
  }
}
