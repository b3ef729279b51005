/** The block checksum of src/adler32.c against Adler-32 as section 8.2 of RFC 1950 defines it. */
module Adler32 {
  import opened Division

  type Byte = x: int | 0 <= x < 0x100

  // ---- The definition ----

  /** The first sum: one plus all bytes, modulo 65521. */
  function S1(bs: seq<Byte>): (r: int)
    ensures 0 <= r < 65521
  {
    if bs == [] then 1 else (S1(bs[..|bs| - 1]) + bs[|bs| - 1]) % 65521
  }

  /** The second sum: all intermediate values of the first, modulo 65521. */
  function S2(bs: seq<Byte>): (r: int)
    ensures 0 <= r < 65521
  {
    if bs == [] then 0 else (S2(bs[..|bs| - 1]) + S1(bs)) % 65521
  }

  function Checksum(bs: seq<Byte>): int {
    S2(bs) * 0x1_0000 + S1(bs)
  }

  // ---- The block ----

  /** One row of a block in memory. */
  function Row(mem: int -> Byte, base: int, rows: int): (bs: seq<Byte>)
    ensures |bs| == if rows <= 0 then 0 else rows
    decreases rows
  {
    if rows <= 0 then [] else Row(mem, base, rows - 1) + [mem(base + rows - 1)]
  }

  /** The rows of a block one after the other, without the bytes the pitch skips. */
  function Block(mem: int -> Byte, base: int, rows: int, lines: int, pitch: int): seq<Byte>
    decreases lines
  {
    if lines <= 0 then [] else Block(mem, base, rows, lines - 1, pitch) + Row(mem, base + (lines - 1) * pitch, rows)
  }

  lemma {:induction false} BlockLength(mem: int -> Byte, base: int, rows: int, lines: int, pitch: int)
    ensures |Block(mem, base, rows, lines, pitch)| == if rows <= 0 || lines <= 0 then 0 else rows * lines
    decreases lines
  {
    if lines > 0 {
      BlockLength(mem, base, rows, lines - 1, pitch);
      assert rows * lines == rows * (lines - 1) + rows;
    }
  }

  // ---- The sums without reduction ----

  function SumA(bs: seq<Byte>): (r: int)
    ensures 1 <= r <= 1 + 255 * |bs|
  {
    if bs == [] then 1 else SumA(bs[..|bs| - 1]) + bs[|bs| - 1]
  }

  function SumB(bs: seq<Byte>): (r: int)
    ensures 0 <= r
  {
    if bs == [] then 0 else SumB(bs[..|bs| - 1]) + SumA(bs)
  }

  lemma {:induction false} SumsReduce(bs: seq<Byte>)
    ensures S1(bs) == SumA(bs) % 65521 && S2(bs) == SumB(bs) % 65521
  {
    if bs != [] {
      var init, last := bs[..|bs| - 1], bs[|bs| - 1];
      SumsReduce(init);
      ReduceSummand(SumA(init), last, 65521);
      ReduceSummand(SumB(init), S1(bs), 65521);
      ReduceSummand(SumA(bs), SumB(init), 65521);
    }
  }

  /** Twice the largest second sum of n bytes. */
  lemma {:induction false} SumBBound(bs: seq<Byte>)
    ensures 2 * SumB(bs) <= 2 * |bs| + 255 * (|bs| * (|bs| + 1))
  {
    if bs != [] {
      var n := |bs| - 1;
      SumBBound(bs[..n]);
      assert (n + 1) * (n + 2) == n * (n + 1) + 2 * (n + 1);
    }
  }

  lemma ProductUpTo(n: int, m: int)
    requires 0 <= n <= m
    ensures n * (n + 1) <= m * (m + 1)
  {
    assert n * (n + 1) <= m * (n + 1) <= m * (m + 1);
  }

  /** Up to 5803 bytes neither sum leaves 32 bits. */
  lemma NoWrap(bs: seq<Byte>)
    requires |bs| <= 5803
    ensures SumA(bs) < 0x20_0000 && SumB(bs) < 0x1_0000_0000
  {
    SumBBound(bs);
    ProductUpTo(|bs|, 5803);
  }

  // ---- The final reduction ----

  /** Bitwise OR. */
  function Or(x: nat, y: nat): nat {
    if x == 0 then y else if y == 0 then x
    else (if x % 2 == 1 || y % 2 == 1 then 1 else 0) + 2 * Or(x / 2, y / 2)
  }

  lemma {:induction false} OrOfFields(high: nat, low: nat, k: nat)
    requires low < Power2(k)
    ensures Or(high * Power2(k), low) == high * Power2(k) + low
    decreases k
  {
    if k > 0 && high > 0 && low > 0 {
      var p := Power2(k - 1);
      assert high * (2 * p) == 2 * (high * p);
      assert high * p > 0;
      OrOfFields(high, low / 2, k - 1);
    } else if high > 0 {
      assert high * Power2(k) > 0;
    }
  }

  /** 65536 is 15 more than the modulus, so the upper half folds into the lower with weight 15. */
  function Fold(x: nat): (y: nat)
    ensures y % 65521 == x % 65521
    ensures x < 0x1_0000_0000 ==> y < 0x10_0000
    ensures x < 0x20_0000 ==> y < 2 * 65521
  {
    assert x == x / 0x1_0000 * 0x1_0000 + x % 0x1_0000;
    FoldRemainder(x / 0x1_0000, x % 0x1_0000);
    x % 0x1_0000 + x / 0x1_0000 * (0x1_0000 - 65521)
  }

  lemma FoldRemainder(h: nat, l: nat)
    ensures (l + h * 15) % 65521 == (h * 0x1_0000 + l) % 65521
  {
    var y := l + h * 15;
    Quotient(h * 0x1_0000 + l, 65521, y / 65521 + h, y % 65521);
  }

  function SubtractOnce(x: nat): (y: nat)
    ensures x < 2 * 65521 ==> y == x % 65521
  {
    if x >= 65521 then x - 65521 else x
  }

  /** What the two 32-bit sums are turned into. */
  function Reduce(a: nat, b: nat): int {
    Or(SubtractOnce(Fold(Fold(b))) * 0x1_0000, SubtractOnce(Fold(a)))
  }

  lemma ReduceMeaning(a: nat, b: nat)
    requires a < 0x20_0000 && b < 0x1_0000_0000
    ensures Reduce(a, b) == b % 65521 * 0x1_0000 + a % 65521
  {
    assert Power2(16) == 0x1_0000 by { assert Power2(8) == 0x100; }
    OrOfFields(b % 65521, a % 65521, 16);
  }

  /** The result of calc_adler for the bytes of a block. */
  function Result(bs: seq<Byte>): int {
    Reduce(SumA(bs) % 0x1_0000_0000, SumB(bs) % 0x1_0000_0000)
  }

  /** The two running sums, as the 32-bit variables hold them, stand for the bytes seen so far. */
  ghost predicate Counted(bs: seq<Byte>, a: int, b: int) {
    a == SumA(bs) % 0x1_0000_0000 && b == SumB(bs) % 0x1_0000_0000
  }

  lemma CountByte(bs: seq<Byte>, x: Byte, a: int, b: int)
    requires Counted(bs, a, b)
    ensures var a' := (a + x) % 0x1_0000_0000;
            Counted(bs + [x], a', (b + a') % 0x1_0000_0000)
  {
    var next := bs + [x];
    assert next[..|next| - 1] == bs;
    ReduceSummand(SumA(bs), x, 0x1_0000_0000);
    ReduceSummand(SumB(bs), SumA(next) % 0x1_0000_0000, 0x1_0000_0000);
    ReduceSummand(SumA(next), SumB(bs), 0x1_0000_0000);
  }

  /** Up to 5803 bytes the reduced 32-bit sums are the checksum. */
  lemma {:induction false} ShortBlockIsExact(bs: seq<Byte>)
    requires |bs| <= 5803
    ensures Result(bs) == Checksum(bs)
  {
    var a, b := SumA(bs), SumB(bs);
    NoWrap(bs);
    Quotient(a, 0x1_0000_0000, 0, a);
    Quotient(b, 0x1_0000_0000, 0, b);
    assert Result(bs) == Reduce(a, b);
    ReduceMeaning(a, b);
    SumsReduce(bs);
  }

  lemma NextByte(before: seq<Byte>, mem: int -> Byte, line: int, x: nat)
    ensures before + Row(mem, line, x) + [mem(line + x)] == before + Row(mem, line, x + 1)
  {
  }

  /** The body of the inner loop. */
  method AddByte(a: nat, b: nat, x: Byte, ghost bs: seq<Byte>) returns (a': nat, b': nat)
    requires Counted(bs, a, b)
    ensures Counted(bs + [x], a', b')
  {
    CountByte(bs, x, a, b);
    a' := (a + x) % 0x1_0000_0000;
    b' := (b + a') % 0x1_0000_0000;
  }

  /** The inner loop of calc_adler. */
  method AddRow(mem: int -> Byte, line: int, rows: int, a0: nat, b0: nat, ghost before: seq<Byte>)
      returns (a: nat, b: nat)
    requires Counted(before, a0, b0)
    ensures Counted(before + Row(mem, line, rows), a, b)
  {
    a, b := a0, b0;
    var x := 0;
    assert before + Row(mem, line, 0) == before;
    while x < rows
      invariant 0 <= x && (x <= rows || x == 0)
      invariant Counted(before + Row(mem, line, x), a, b)
    {
      NextByte(before, mem, line, x);
      a, b := AddByte(a, b, mem(line + x), before + Row(mem, line, x));
      x := x + 1;
    }
    assert x == rows || rows <= 0;
    assert Row(mem, line, x) == Row(mem, line, rows);
  }

  /** calc_adler: right for every block of at most 5803 bytes, whatever its pitch. */
  method CalcAdler(mem: int -> Byte, base: int, rows: int, lines: int, pitch: int) returns (sum: int)
    ensures sum == Result(Block(mem, base, rows, lines, pitch))
    ensures rows * lines <= 5803 || rows <= 0 || lines <= 0 ==> sum == Checksum(Block(mem, base, rows, lines, pitch))
  {
    var a, b := AddLines(mem, base, rows, lines, pitch);
    sum := Reduce(a, b);
    BlockLength(mem, base, rows, lines, pitch);
    if rows * lines <= 5803 || rows <= 0 || lines <= 0 {
      ShortBlockIsExact(Block(mem, base, rows, lines, pitch));
    }
  }

  /** The outer loop of calc_adler. */
  method AddLines(mem: int -> Byte, base: int, rows: int, lines: int, pitch: int) returns (a: nat, b: nat)
    ensures Counted(Block(mem, base, rows, lines, pitch), a, b)
  {
    a, b := 1, 0;
    var y, line := 0, base;
    while y < lines
      invariant 0 <= y && (y <= lines || y == 0)
      invariant line == base + y * pitch
      invariant Counted(Block(mem, base, rows, y, pitch), a, b)
    {
      a, b := AddRow(mem, line, rows, a, b, Block(mem, base, rows, y, pitch));
      y := y + 1;
      line := line + pitch;
    }
  }

  // ---- The bound is exact ----

  /** n bytes: zeros first, then j times 255. */
  function Heavy(zeros: nat, j: nat): (bs: seq<Byte>)
    ensures |bs| == zeros + j
  {
    if j > 0 then Heavy(zeros, j - 1) + [255] else if zeros > 0 then Heavy(zeros - 1, 0) + [0] else []
  }

  lemma {:induction false} HeavySums(zeros: nat, j: nat)
    ensures SumA(Heavy(zeros, j)) == 1 + 255 * j
    ensures 2 * SumB(Heavy(zeros, j)) == 2 * zeros + 2 * j + 255 * (j * (j + 1))
    decreases j, zeros
  {
    var bs := Heavy(zeros, j);
    if j > 0 {
      HeavySums(zeros, j - 1);
      assert bs[..|bs| - 1] == Heavy(zeros, j - 1);
      assert j * (j + 1) == (j - 1) * j + 2 * j;
    } else if zeros > 0 {
      HeavySums(zeros - 1, 0);
      assert bs[..|bs| - 1] == Heavy(zeros - 1, 0);
    }
  }

  /** Every block of n bytes gets the right checksum. */
  ghost predicate ExactFor(n: nat) {
    forall bs: seq<Byte> | |bs| == n :: Result(bs) == Checksum(bs)
  }

  /** 5803 is the exact bound: one more byte, and the second sum can wrap and spoil the result. */
  lemma {:induction false} ExactIffShort(n: nat)
    requires n < 0x8000_0000
    ensures ExactFor(n) <==> n <= 5803
  {
    if n <= 5803 {
      forall bs: seq<Byte> | |bs| == n
        ensures Result(bs) == Checksum(bs)
      {
        ShortBlockIsExact(bs);
      }
    } else {
      HeavyFails(n);
    }
  }

  lemma HeavyFails(n: nat)
    requires 5804 <= n < 0x8000_0000
    ensures Result(Heavy(n - 5804, 5804)) != Checksum(Heavy(n - 5804, 5804))
  {
    var bs := Heavy(n - 5804, 5804);
    var a, b := SumA(bs), SumB(bs);
    assert 0x1_0000_0000 <= b < 0x2_0000_0000 && a < 0x20_0000 by {
      HeavySums(n - 5804, 5804);
    }
    assert a % 0x1_0000_0000 == a;
    assert Result(bs) == Reduce(a, b % 0x1_0000_0000);
    WrapSpoils(a, b);
    SumsReduce(bs);
  }

  lemma WrapSpoils(a: nat, b: nat)
    requires a < 0x20_0000 && 0x1_0000_0000 <= b < 0x2_0000_0000
    ensures Reduce(a, b % 0x1_0000_0000) != b % 65521 * 0x1_0000 + a % 65521
  {
    var w := b - 0x1_0000_0000;
    Quotient(b, 0x1_0000_0000, 1, w);
    ReduceMeaning(a, w);
    var r := w % 65521;
    assert b == (w / 65521 + 65551) * 65521 + r + 225;
    Quotient(b, 65521, if r + 225 < 65521 then w / 65521 + 65551 else w / 65521 + 65552,
             if r + 225 < 65521 then r + 225 else r + 225 - 65521);
  }
}
