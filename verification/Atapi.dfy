/**
 * READ(10) and READ(12) of the ATAPI CD-ROM through the data port (src/ata.cpp:566-658, 1736-1788 and
 * 3298-3350): how the bytes of the blocks are handed over in DRQ-sized pieces.
 */
module Atapi {
  import opened Division

  /** The packet device; `disc` is the medium, block by block, `byteCount` the host's limit per piece. */
  datatype Device = Device(disc: seq<seq<int>>, buffer: seq<int>, index: nat, drq: bool, drqIndex: int, drqBytes: int,
                           byteCount: int, total: int, nextLba: int, remaining: int)

  predicate IsDisc(disc: seq<seq<int>>) {
    forall b | 0 <= b < |disc| :: |disc[b]| == 2048 && forall k | 0 <= k < 2048 :: 0 <= disc[b][k] < 0x100
  }

  /** The bytes of n blocks, as the 32-bit product becomes an int. */
  function Length(n: int): int {
    var bytes := 2048 * n % 0x1_0000_0000;
    if bytes < 0x8000_0000 then bytes else bytes - 0x1_0000_0000
  }

  /** Below two gigabytes the length is the product, above it never is. */
  lemma LengthIff(n: int)
    requires 0 <= n < 0x1_0000_0000
    ensures Length(n) == 2048 * n <==> n < 0x10_0000
  {
    if n < 0x10_0000 {
      Quotient(2048 * n, 0x1_0000_0000, 0, 2048 * n);
    }
  }

  /** The piece size init_send_atapi_command settles on, for a request of `length` bytes; a 16-bit field holds it. */
  function Piece(limit: int, length: int): int {
    var c := if limit == 0xffff then 0xfffe else limit;
    var even := if c % 2 == 1 && !(length <= c) then c - 1 else c;
    if even > length then length % 0x1_0000 else even
  }

  /** Set-up of a read of n blocks from lba: the buffer counts as used up, so the first access loads it. */
  function Start(d: Device, lba: int, n: int): Device {
    var piece := Piece(d.byteCount, Length(n));
    d.(index := 2048, drq := true, drqIndex := 0, byteCount := piece, drqBytes := piece, total := Length(n),
       nextLba := lba, remaining := n)
  }

  /** The number of blocks to read, cut at the end of the disc, in 32-bit arithmetic. */
  function TransferLength(lba: int, length: int, capacity: int): int {
    if (lba + length) % 0x1_0000_0000 > capacity then (capacity - lba) % 0x1_0000_0000 else length
  }

  /** The blocks a request can have: what it asks for, up to the end of the disc, none behind it. */
  function Available(lba: int, length: int, capacity: int): int {
    if capacity < lba then 0 else if lba + length <= capacity then length else capacity - lba
  }

  /**
   * The request is cut to what there is, except where it starts behind the end of the disc, when the
   * difference wraps around, and where the sum wraps around onto the disc again.
   */
  lemma TransferLengthIff(lba: int, length: int, capacity: int)
    requires 0 <= lba < 0x1_0000_0000 && 0 <= capacity < 0x1_0000_0000 && 0 <= length < 0x1_0000_0000
    ensures TransferLength(lba, length, capacity) == Available(lba, length, capacity)
            <==> lba <= capacity && !(0x1_0000_0000 <= lba + length <= 0x1_0000_0000 + capacity)
  {
    var wraps := if lba <= capacity then 0 else -1;
    Quotient(capacity - lba, 0x1_0000_0000, wraps, capacity - lba - wraps * 0x1_0000_0000);
    if lba + length < 0x1_0000_0000 {
      Quotient(lba + length, 0x1_0000_0000, 0, lba + length);
    } else {
      Quotient(lba + length, 0x1_0000_0000, 1, lba + length - 0x1_0000_0000);
    }
  }

  /** Behind the end of the disc the length wraps around to all the blocks that 32 bits can count. */
  lemma TransferLengthBehind(lba: int, length: int, capacity: int)
    requires 0 <= capacity < lba && 0 <= length && lba + length < 0x1_0000_0000
    ensures TransferLength(lba, length, capacity) == 0x1_0000_0000 - (lba - capacity)
  {
    Quotient(lba + length, 0x1_0000_0000, 0, lba + length);
    Quotient(capacity - lba, 0x1_0000_0000, -1, capacity - lba + 0x1_0000_0000);
  }

  /** The bytes of one access, low byte first, as far as they lie in the buffer. */
  function Bytes(b: seq<int>, i: nat, width: nat): seq<int> {
    if |b| < i then [] else if i + width <= |b| then b[i..i + width] else b[i..]
  }

  /** The value the host sees. */
  function Value(bytes: seq<int>): int {
    if bytes == [] then 0 else bytes[0] + 0x100 * Value(bytes[1..])
  }

  /** The bytes the host takes from a value, low byte first. */
  function Split(value: int, width: nat): seq<int>
    decreases width
  {
    if width == 0 then [] else [value % 0x100] + Split(value / 0x100, width - 1)
  }

  lemma {:induction false} SplitOfValue(bytes: seq<int>)
    requires forall k | 0 <= k < |bytes| :: 0 <= bytes[k] < 0x100
    ensures Split(Value(bytes), |bytes|) == bytes
  {
    if bytes != [] {
      SplitOfValue(bytes[1..]);
      Quotient(Value(bytes), 0x100, Value(bytes[1..]), bytes[0]);
      assert [bytes[0]] + bytes[1..] == bytes;
    }
  }

  lemma ValueOfBytes(b: seq<int>, i: int, width: nat)
    requires width in {1, 2, 4} && 0 <= i && i + width <= |b|
    ensures Bytes(b, i, width) == b[i..i + width]
    ensures Value(Bytes(b, i, width)) == b[i] + (if width >= 2 then 0x100 * b[i + 1] else 0)
                                         + (if width == 4 then 0x1_0000 * b[i + 2] + 0x100_0000 * b[i + 3] else 0)
  {
    ValueStep(b, i, i + width);
    if width > 1 {
      ValueStep(b, i + 1, i + width);
    }
    if width == 4 {
      ValueStep(b, i + 2, i + 4);
      ValueStep(b, i + 3, i + 4);
    }
  }

  lemma ValueStep(b: seq<int>, i: int, j: int)
    requires 0 <= i < j <= |b|
    ensures Value(b[i..j]) == b[i] + 0x100 * Value(b[i + 1..j])
  {
    assert b[i..j][1..] == b[i + 1..j];
  }

  /** The next block comes into the buffer when the last one is used up; behind the disc the buffer stays. */
  function Load(d: Device): Device {
    if d.index < 2048 then d
    else d.(buffer := if 0 <= d.nextLba < |d.disc| then d.disc[d.nextLba] else d.buffer,
            nextLba := d.nextLba + 1, remaining := d.remaining - 1, index := 0)
  }

  /** The accounting of `width` bytes: at the end of a piece, the next one or the end. */
  function Account(d: Device, width: nat): Device {
    var d1 := d.(index := d.index + width, drqIndex := d.drqIndex + width);
    if d1.drqIndex < d1.drqBytes then d1
    else
      var d2 := d1.(drq := false, drqIndex := 0, total := d1.total - d1.drqBytes);
      if d2.total > 0 then
        var count := if d2.total < d2.byteCount then d2.total else d2.byteCount;
        d2.(drq := true, byteCount := count, drqBytes := count)
      else d2
  }

  /** One read of the data port: the device afterwards and the bytes handed over. */
  function ReadPort(d: Device, width: nat): (Device, seq<int>) {
    if !d.drq then (d, []) else (Account(Load(d), width), Bytes(Load(d).buffer, Load(d).index, width))
  }

  /** Reads of any widths one after the other, and everything they handed over. */
  function ReadAll(d: Device, widths: seq<nat>): (Device, seq<int>) {
    if widths == [] then (d, []) else ReadMore(ReadAll(d, widths[..|widths| - 1]), widths[|widths| - 1])
  }

  function ReadMore(r: (Device, seq<int>), width: nat): (Device, seq<int>) {
    var (after, more) := ReadPort(r.0, width);
    (after, r.1 + more)
  }

  /** The blocks from lba on, one after the other. */
  function Blocks(disc: seq<seq<int>>, lba: int, n: nat): (s: seq<int>)
    requires IsDisc(disc) && 0 <= lba && lba + n <= |disc|
    ensures |s| == 2048 * n
  {
    if n == 0 then [] else Blocks(disc, lba, n - 1) + disc[lba + n - 1]
  }

  lemma {:induction false} BlocksAt(disc: seq<seq<int>>, lba: int, n: nat, b: nat)
    requires IsDisc(disc) && 0 <= lba && lba + n <= |disc| && b < n
    ensures Blocks(disc, lba, n)[2048 * b..2048 * b + 2048] == disc[lba + b]
  {
    var init := Blocks(disc, lba, n - 1);
    if b < n - 1 {
      BlocksAt(disc, lba, n - 1, b);
      assert (init + disc[lba + n - 1])[2048 * b..2048 * b + 2048] == init[2048 * b..2048 * b + 2048];
    } else {
      assert (init + disc[lba + b])[2048 * b..2048 * b + 2048] == disc[lba + b];
    }
  }

  // ---- Sequences of accesses ----

  function Total(widths: seq<nat>): nat {
    if widths == [] then 0 else Total(widths[..|widths| - 1]) + widths[|widths| - 1]
  }

  predicate Accesses(widths: seq<nat>) {
    forall i | 0 <= i < |widths| :: widths[i] in {1, 2, 4}
  }

  /** No access crosses the end of a unit, with the units one after the other. */
  predicate Within(widths: seq<nat>, unit: nat) {
    widths == [] ||
    (var init, last := widths[..|widths| - 1], widths[|widths| - 1];
     0 < unit && Within(init, unit) && Total(init) % unit + last <= unit)
  }

  lemma {:induction false} Prefix(widths: seq<nat>, i: nat)
    requires i <= |widths|
    ensures Total(widths[..i]) <= Total(widths)
    ensures forall unit: nat | Within(widths, unit) :: Within(widths[..i], unit)
  {
    if i == |widths| {
      assert widths[..i] == widths;
    } else {
      var init := widths[..|widths| - 1];
      Prefix(init, i);
      assert init[..i] == widths[..i];
    }
  }

  /** Where in its unit a count stands after an access. */
  lemma NextRemainder(t: nat, width: nat, unit: nat)
    requires 0 < unit && 0 < width && t % unit + width <= unit
    ensures (t + width) % unit == if t % unit + width == unit then 0 else t % unit + width
  {
    var q, r := t / unit, t % unit;
    Multiples(q, 1, unit);
    if r + width == unit {
      Quotient(t + width, unit, q + 1, 0);
    } else {
      Quotient(t + width, unit, q, r + width);
    }
  }

  /** A number that accesses of this width divide evenly. */
  predicate Whole(x: int, width: nat) {
    0 < width && x % width == 0
  }

  lemma WholeRemainder(t: nat, unit: nat, width: nat)
    requires 0 < unit && Whole(t, width) && Whole(unit, width)
    ensures t % unit + width <= unit
  {
    var q, p, u := t / unit, t / width, unit / width;
    var r := t % unit;
    assert q * unit == q * u * width by { assert unit == u * width; }
    Multiples(p, q * u, width);
    assert r == (p - q * u) * width;
    MulOrder(p - q * u + 1, u, width);
    MulOrder(u, p - q * u, width);
    Multiples(p - q * u, 1, width);
  }

  lemma WholeSum(x: int, width: nat)
    requires Whole(x, width)
    ensures Whole(x + width, width)
  {
    Multiples(x / width, 1, width);
    Quotient(x + width, width, x / width + 1, 0);
  }

  /** Accesses of one width stay within units that they divide. */
  lemma {:induction false} UniformIsWithin(widths: seq<nat>, width: nat, unit: nat)
    requires (forall i | 0 <= i < |widths| :: widths[i] == width) && 0 < unit && Whole(unit, width)
    ensures Within(widths, unit) && Whole(Total(widths), width)
  {
    if widths == [] {
      Quotient(0, width, 0, 0);
    } else {
      var init := widths[..|widths| - 1];
      UniformIsWithin(init, width, unit);
      WholeRemainder(Total(init), unit, width);
      WholeSum(Total(init), width);
    }
  }

  // ---- The pieces ----

  /** The largest even number that exceeds neither the host's limit nor the request. */
  ghost predicate IsLargestEven(piece: int, limit: int, length: int) {
    && piece % 2 == 0 && 0 <= piece <= limit && piece <= length
    && forall q | q % 2 == 0 && q <= limit && q <= length :: q <= piece
  }

  /** Whatever the device settles on respects the limit and the request, and wastes nothing. */
  lemma PieceIsLargestEven(limit: int, length: int)
    requires 0 <= limit <= 0xffff && 0 < length && length % 2 == 0
    ensures IsLargestEven(Piece(limit, length), limit, length)
  {
    if length < 0x1_0000 {
      Quotient(length, 0x1_0000, 0, length);
    }
  }

  lemma PieceRange(limit: int, n: nat)
    requires 0 <= limit <= 0xffff && 1 <= n
    ensures if limit < 2 then Piece(limit, 2048 * n) == 0 else 2 <= Piece(limit, 2048 * n) <= 2048 * n
    ensures IsLargestEven(Piece(limit, 2048 * n), limit, 2048 * n)
  {
    Quotient(2048 * n, 2, 1024 * n, 0);
    PieceIsLargestEven(limit, 2048 * n);
    assert 2 % 2 == 0;
  }

  /** The accounting after t of `length` bytes: pieces of one size, the last one as long as what is left. */
  predicate Pieces(d: Device, piece: nat, length: nat, t: nat) {
    && 0 < piece && t <= length
    && if t == length then !d.drq && d.drqIndex == 0 && d.total == 0
       else
         && d.drq && d.drqIndex == t % piece && d.total == length - (t - t % piece)
         && d.byteCount == d.drqBytes == if d.total < piece then d.total else piece
  }

  /** An access inside its piece is accounted for, and at the end of the piece the next one begins. */
  lemma AccountStep(d: Device, piece: nat, length: nat, t: nat, width: nat)
    requires Pieces(d, piece, length, t) && 0 < width && t % piece + width <= piece && t + width <= length
    ensures Pieces(Account(d, width), piece, length, t + width)
  {
    NextRemainder(t, width, piece);
  }

  /** The access that crosses the end of a piece accounts for the piece only. */
  lemma AccountCrosses(d: Device, piece: nat, length: nat, t: nat, width: nat)
    requires Pieces(d, piece, length, t) && t < length && 0 < width && (t % piece + width > piece || t + width > length)
    ensures var r := Account(d, width); t + width + (r.total - r.drqIndex) != length
  {
  }

  lemma StartPieces(d: Device, lba: int, n: nat)
    requires 1 <= n < 0x10_0000 && 2 <= d.byteCount <= 0xffff
    ensures Pieces(Start(d, lba, n), Piece(d.byteCount, 2048 * n), 2048 * n, 0)
  {
    LengthIff(n);
    PieceRange(d.byteCount, n);
    Quotient(0, Piece(d.byteCount, 2048 * n), 0, 0);
  }

  lemma {:induction false} PiecesRun(d: Device, piece: nat, length: nat, widths: seq<nat>)
    requires Pieces(d, piece, length, 0) && Accesses(widths) && Within(widths, piece) && Total(widths) <= length
    ensures Pieces(ReadAll(d, widths).0, piece, length, Total(widths))
  {
    if widths != [] {
      var init, last := widths[..|widths| - 1], widths[|widths| - 1];
      PiecesRun(d, piece, length, init);
      AccountStep(Load(ReadAll(d, init).0), piece, length, Total(init), last);
    }
  }

  /** The bytes the accesses moved and the bytes outstanding are the request. */
  predicate Balanced(d: Device, length: int, widths: seq<nat>) {
    var r := ReadAll(d, widths).0;
    Total(widths) + (r.total - r.drqIndex) == length
  }

  /** So it is after every access. */
  ghost predicate Conserves(d: Device, length: int, widths: seq<nat>) {
    forall i: nat | i <= |widths| :: Balanced(d, length, widths[..i])
  }

  lemma WithinConserves(d: Device, piece: nat, length: nat, widths: seq<nat>)
    requires Pieces(d, piece, length, 0) && Accesses(widths) && Within(widths, piece) && Total(widths) <= length
    ensures Conserves(d, length, widths)
  {
    forall i: nat | i <= |widths| ensures Balanced(d, length, widths[..i]) {
      Prefix(widths, i);
      PiecesRun(d, piece, length, widths[..i]);
    }
  }

  /** The first access that crosses the end of a piece, or comes after the end, loses the count for good. */
  lemma {:induction false} CrossingLoses(d: Device, piece: nat, length: nat, widths: seq<nat>) returns (i: nat)
    requires Pieces(d, piece, length, 0) && Accesses(widths) && !(Within(widths, piece) && Total(widths) <= length)
    ensures i <= |widths| && !Balanced(d, length, widths[..i])
  {
    var init, last := widths[..|widths| - 1], widths[|widths| - 1];
    var t := Total(init);
    if Within(init, piece) && t <= length {
      i := |widths|;
      assert widths[..i] == widths;
      PiecesRun(d, piece, length, init);
      if t < length {
        AccountCrosses(Load(ReadAll(d, init).0), piece, length, t, last);
      }
    } else {
      i := CrossingLoses(d, piece, length, init);
      assert init[..i] == widths[..i];
    }
  }

  /** With a limit of zero or one the pieces are empty, and no byte is ever accounted for. */
  lemma EmptyPieces(d: Device, lba: int, n: nat, widths: seq<nat>)
    requires 1 <= n < 0x10_0000 && 0 <= d.byteCount < 2 && Accesses(widths) && widths != []
    ensures !Conserves(Start(d, lba, n), 2048 * n, widths)
  {
    var start := Start(d, lba, n);
    LengthIff(n);
    assert widths[..1] == [widths[0]] && [widths[0]][..0] == [];
    assert ReadAll(start, []) == (start, []);
    assert !Balanced(start, 2048 * n, widths[..1]);
  }

  /**
   * A transfer conserves bytes, whatever the widths of its accesses, if and only if the request is below
   * two gigabytes, no access crosses the end of a piece, and none comes after the last byte. Empty
   * pieces hold no access at all.
   */
  lemma {:induction false} ConservesIff(d: Device, lba: int, n: nat, widths: seq<nat>)
    requires 1 <= n < 0x1_0000_0000 && 0 <= d.byteCount <= 0xffff && Accesses(widths)
    ensures Conserves(Start(d, lba, n), 2048 * n, widths)
            <==> n < 0x10_0000 && Within(widths, Piece(d.byteCount, 2048 * n)) && Total(widths) <= 2048 * n
  {
    var start, piece := Start(d, lba, n), Piece(d.byteCount, 2048 * n);
    LengthIff(n);
    PieceRange(d.byteCount, n);
    assert widths[..0] == [] && ReadAll(start, []) == (start, []);
    if n >= 0x10_0000 {
      assert !Balanced(start, 2048 * n, widths[..0]);
    } else if d.byteCount < 2 {
      if widths != [] {
        EmptyPieces(d, lba, n, widths);
      } else {
        assert forall i: nat | i <= |widths| :: widths[..i] == widths;
      }
    } else {
      StartPieces(d, lba, n);
      if Within(widths, piece) && Total(widths) <= 2048 * n {
        WithinConserves(start, piece, 2048 * n, widths);
      } else {
        var i := CrossingLoses(start, piece, 2048 * n, widths);
      }
    }
  }

  // ---- The blocks ----

  /** The number of blocks touched by the first t bytes. */
  function Loaded(t: int): int {
    (t + 2047) / 2048
  }

  /**
   * The state after t bytes of a read of n blocks from lba: the blocks loaded are those touched, the
   * last of them is in the buffer, and the accounting stands at t.
   */
  ghost predicate Reading(disc: seq<seq<int>>, lba: int, n: nat, piece: nat, t: nat, d: Device) {
    && d.disc == disc && IsDisc(disc) && 0 <= lba && lba + n <= |disc| && 1 <= n && t <= 2048 * n
    && d.nextLba == lba + Loaded(t) && d.remaining == n - Loaded(t)
    && d.index == (if t == 0 then 2048 else (t - 1) % 2048 + 1)
    && (t > 0 ==> d.buffer == disc[lba + Loaded(t) - 1])
    && Pieces(d, piece, 2048 * n, t)
  }

  /** Where a byte count stands in its blocks, before and after an access. */
  lemma BlockCount(t: nat, width: nat)
    requires 0 < width && t % 2048 + width <= 2048
    ensures (t == 0 || (t - 1) % 2048 + 1 == 2048) <==> t % 2048 == 0
    ensures t % 2048 == 0 ==> Loaded(t) == t / 2048 && Loaded(t + width) == Loaded(t) + 1
                              && (t + width - 1) % 2048 + 1 == width
    ensures t % 2048 != 0 ==> Loaded(t) == t / 2048 + 1 && Loaded(t + width) == Loaded(t)
                              && (t - 1) % 2048 + 1 == t % 2048 && (t + width - 1) % 2048 + 1 == t % 2048 + width
  {
    var q, r := t / 2048, t % 2048;
    Quotient(t + width - 1, 2048, q, r + width - 1);
    Quotient(t + width + 2047, 2048, q + 1, r + width - 1);
    if r == 0 {
      Quotient(t + 2047, 2048, q, 2047);
      Quotient(t - 1, 2048, q - 1, 2047);
    } else {
      Quotient(t + 2047, 2048, q + 1, r - 1);
      Quotient(t - 1, 2048, q, r - 1);
    }
  }

  lemma StartReads(d: Device, lba: int, n: nat)
    requires IsDisc(d.disc) && 0 <= lba && lba + n <= |d.disc| && 1 <= n < 0x10_0000 && 2 <= d.byteCount <= 0xffff
    ensures Reading(d.disc, lba, n, Piece(d.byteCount, 2048 * n), 0, Start(d, lba, n))
  {
    PieceRange(d.byteCount, n);
    StartPieces(d, lba, n);
  }

  /** With the block that holds byte t in the buffer. */
  lemma LoadStep(disc: seq<seq<int>>, lba: int, n: nat, piece: nat, t: nat, d: Device)
    requires Reading(disc, lba, n, piece, t, d) && t < 2048 * n
    ensures var b := t / 2048;
            && 0 <= b < n
            && Load(d) == d.(buffer := disc[lba + b], nextLba := lba + b + 1, remaining := n - (b + 1),
                             index := t % 2048)
  {
    BlockCount(t, 1);
  }

  lemma AccountKeeps(d: Device, width: nat)
    ensures var r := Account(d, width);
            && r.disc == d.disc && r.buffer == d.buffer && r.nextLba == d.nextLba && r.remaining == d.remaining
            && r.index == d.index + width
  {
  }

  lemma BytesOfBlock(disc: seq<seq<int>>, lba: int, n: nat, t: nat, width: nat)
    requires IsDisc(disc) && 0 <= lba && lba + n <= |disc| && t < 2048 * n && t % 2048 + width <= 2048
    ensures t + width <= 2048 * n
    ensures disc[lba + t / 2048][t % 2048..t % 2048 + width] == Blocks(disc, lba, n)[t..t + width]
  {
    var b, s := t / 2048, Blocks(disc, lba, n);
    BlocksAt(disc, lba, n, b);
    assert s[2048 * b..2048 * b + 2048][t % 2048..t % 2048 + width] == s[t..t + width];
  }

  /** One access inside its piece and its block moves the read on by its width and hands over the next bytes. */
  lemma ReadStep(disc: seq<seq<int>>, lba: int, n: nat, piece: nat, t: nat, d: Device, width: nat)
    requires Reading(disc, lba, n, piece, t, d) && t < 2048 * n
    requires 0 < width && t % piece + width <= piece && t % 2048 + width <= 2048
    ensures t + width <= 2048 * n
    ensures Reading(disc, lba, n, piece, t + width, ReadPort(d, width).0)
    ensures ReadPort(d, width).1 == Blocks(disc, lba, n)[t..t + width]
  {
    LoadStep(disc, lba, n, piece, t, d);
    BytesOfBlock(disc, lba, n, t, width);
    AccountKeeps(Load(d), width);
    AccountStep(Load(d), piece, 2048 * n, t, width);
    BlockCount(t, width);
  }

  /** What an access hands over are bytes. */
  lemma NextAreBytes(disc: seq<seq<int>>, lba: int, n: nat, piece: nat, t: nat, d: Device, width: nat)
    requires Reading(disc, lba, n, piece, t, d) && t < 2048 * n && t % 2048 + width <= 2048
    ensures var next := ReadPort(d, width).1; |next| == width && forall k | 0 <= k < width :: 0 <= next[k] < 0x100
  {
    LoadStep(disc, lba, n, piece, t, d);
    var block := disc[lba + t / 2048];
    assert ReadPort(d, width).1 == block[t % 2048..t % 2048 + width];
  }

  /** After t bytes: the state, and everything handed over so far. */
  ghost predicate Delivered(disc: seq<seq<int>>, lba: int, n: nat, piece: nat, t: nat, r: (Device, seq<int>)) {
    Reading(disc, lba, n, piece, t, r.0) && r.1 == Blocks(disc, lba, n)[..t]
  }

  lemma DeliveredMore(disc: seq<seq<int>>, lba: int, n: nat, piece: nat, t: nat, r: (Device, seq<int>), width: nat)
    requires Delivered(disc, lba, n, piece, t, r) && t < 2048 * n
    requires 0 < width && t % piece + width <= piece && t % 2048 + width <= 2048
    ensures Delivered(disc, lba, n, piece, t + width, ReadMore(r, width))
  {
    ReadStep(disc, lba, n, piece, t, r.0, width);
    var s := Blocks(disc, lba, n);
    assert s[..t] + s[t..t + width] == s[..t + width];
  }

  lemma DeliveredNothing(disc: seq<seq<int>>, lba: int, n: nat, piece: nat, d: Device)
    requires Reading(disc, lba, n, piece, 0, d)
    ensures Delivered(disc, lba, n, piece, 0, (d, []))
  {
    assert Blocks(disc, lba, n)[..0] == [];
  }

  /** What every access keeps holds after all of them. */
  lemma {:induction false} ReadInduction(start: Device, widths: seq<nat>, P: ((Device, seq<int>), nat) -> bool)
    requires P((start, []), 0)
    requires forall r: (Device, seq<int>), i: nat {:trigger P(r, i)} | i < |widths| && P(r, i) ::
             P(ReadMore(r, widths[i]), i + 1)
    ensures P(ReadAll(start, widths), |widths|)
  {
    if widths != [] {
      ReadInduction(start, widths[..|widths| - 1], P);
    }
  }

  /** One access more. */
  lemma NextWidth(widths: seq<nat>, i: nat, unit: nat)
    requires i < |widths| && Within(widths, unit)
    ensures Total(widths[..i + 1]) == Total(widths[..i]) + widths[i] <= Total(widths)
    ensures 0 < unit && Total(widths[..i]) % unit + widths[i] <= unit
  {
    Prefix(widths, i + 1);
    assert widths[..i + 1][..i] == widths[..i];
  }

  lemma NextDelivered(disc: seq<seq<int>>, lba: int, n: nat, piece: nat, widths: seq<nat>, i: nat,
                      r: (Device, seq<int>))
    requires i < |widths| && Delivered(disc, lba, n, piece, Total(widths[..i]), r)
    requires Accesses(widths) && Total(widths) <= 2048 * n && Within(widths, piece) && Within(widths, 2048)
    ensures Delivered(disc, lba, n, piece, Total(widths[..i + 1]), ReadMore(r, widths[i]))
  {
    NextWidth(widths, i, piece);
    NextWidth(widths, i, 2048);
    DeliveredMore(disc, lba, n, piece, Total(widths[..i]), r, widths[i]);
  }

  lemma ReadRun(disc: seq<seq<int>>, lba: int, n: nat, piece: nat, start: Device, widths: seq<nat>)
    requires Reading(disc, lba, n, piece, 0, start) && Accesses(widths) && Total(widths) <= 2048 * n
    requires Within(widths, piece) && Within(widths, 2048)
    ensures Delivered(disc, lba, n, piece, Total(widths), ReadAll(start, widths))
  {
    var P := (r: (Device, seq<int>), i: nat) => i <= |widths| && Delivered(disc, lba, n, piece, Total(widths[..i]), r);
    DeliveredNothing(disc, lba, n, piece, start);
    forall r: (Device, seq<int>), i: nat | i < |widths| && P(r, i) ensures P(ReadMore(r, widths[i]), i + 1) {
      NextDelivered(disc, lba, n, piece, widths, i, r);
    }
    ReadInduction(start, widths, P);
    assert widths[..|widths|] == widths;
  }

  /** When everything is delivered, no block is left. */
  lemma DeliveredAll(disc: seq<seq<int>>, lba: int, n: nat, piece: nat, r: (Device, seq<int>))
    requires Delivered(disc, lba, n, piece, 2048 * n, r)
    ensures r.1 == Blocks(disc, lba, n) && r.0.remaining == 0 && !r.0.drq
  {
    BlockCount(2048 * n, 1);
    assert Blocks(disc, lba, n)[..2048 * n] == Blocks(disc, lba, n);
  }

  /**
   * Conservation: whatever the piece size and the widths of the accesses, as long as none crosses the
   * end of a piece or a block, after every access the bytes handed over and the bytes still accounted
   * for make up the request; the bytes are those of the blocks in order; the blocks loaded are those
   * touched; DRQ falls with the last byte, and then no block is outstanding.
   */
  lemma {:induction false} ReadConserves(d: Device, lba: int, n: nat, widths: seq<nat>)
    requires IsDisc(d.disc) && 0 <= lba && lba + n <= |d.disc| && 1 <= n < 0x10_0000 && 2 <= d.byteCount <= 0xffff
    requires Within(widths, Piece(d.byteCount, 2048 * n))
    requires Accesses(widths) && Within(widths, 2048) && Total(widths) <= 2048 * n
    ensures var (r, bytes) := ReadAll(Start(d, lba, n), widths);
            && |bytes| == Total(widths) && |bytes| + (r.total - r.drqIndex) == 2048 * n
            && bytes == Blocks(d.disc, lba, n)[..Total(widths)]
            && r.nextLba == lba + Loaded(Total(widths))
            && r.drq == (Total(widths) < 2048 * n) && (!r.drq ==> r.remaining == 0)
  {
    var piece := Piece(d.byteCount, 2048 * n);
    StartReads(d, lba, n);
    ReadRun(d.disc, lba, n, piece, Start(d, lba, n), widths);
    if Total(widths) == 2048 * n {
      DeliveredAll(d.disc, lba, n, piece, ReadAll(Start(d, lba, n), widths));
    }
  }

  /** The bytes handed over are the first bytes of the blocks. */
  predicate Delivers(d: Device, blocks: seq<int>, widths: seq<nat>) {
    ReadAll(d, widths).1 <= blocks && |ReadAll(d, widths).1| == Total(widths)
  }

  lemma StraddleFallsShort(disc: seq<seq<int>>, lba: int, n: nat, piece: nat, start: Device, widths: seq<nat>,
                           width: nat)
    requires Delivered(disc, lba, n, piece, Total(widths), ReadAll(start, widths)) && Total(widths) < 2048 * n
    requires Total(widths) % 2048 + width > 2048
    ensures |ReadMore(ReadAll(start, widths), width).1| < Total(widths) + width
  {
    LoadStep(disc, lba, n, piece, Total(widths), ReadAll(start, widths).0);
  }

  /** The first access that crosses the end of a block falls short. */
  lemma {:induction false} StraddleLoses(disc: seq<seq<int>>, lba: int, n: nat, piece: nat, start: Device,
                                         widths: seq<nat>)
      returns (i: nat)
    requires Reading(disc, lba, n, piece, 0, start) && Accesses(widths) && Total(widths) <= 2048 * n
    requires Within(widths, piece) && !Within(widths, 2048)
    ensures i <= |widths| && !Delivers(start, Blocks(disc, lba, n), widths[..i])
  {
    var init, last := widths[..|widths| - 1], widths[|widths| - 1];
    if Within(init, 2048) {
      i := |widths|;
      assert widths[..i] == widths;
      ReadRun(disc, lba, n, piece, start, init);
      StraddleFallsShort(disc, lba, n, piece, start, init, last);
    } else {
      i := StraddleLoses(disc, lba, n, piece, start, init);
      assert init[..i] == widths[..i];
    }
  }

  /** Of a transfer that conserves bytes, they are those of the blocks if and only if no access crosses a block. */
  lemma {:induction false} ContentIff(d: Device, lba: int, n: nat, widths: seq<nat>)
    requires IsDisc(d.disc) && 0 <= lba && lba + n <= |d.disc| && 1 <= n < 0x10_0000 && 2 <= d.byteCount <= 0xffff
    requires Accesses(widths) && Conserves(Start(d, lba, n), 2048 * n, widths)
    ensures (forall i: nat | i <= |widths| :: Delivers(Start(d, lba, n), Blocks(d.disc, lba, n), widths[..i]))
            <==> Within(widths, 2048)
  {
    var start, piece := Start(d, lba, n), Piece(d.byteCount, 2048 * n);
    PieceRange(d.byteCount, n);
    ConservesIff(d, lba, n, widths);
    StartReads(d, lba, n);
    if Within(widths, 2048) {
      forall i: nat | i <= |widths| ensures Delivers(start, Blocks(d.disc, lba, n), widths[..i]) {
        Prefix(widths, i);
        ReadRun(d.disc, lba, n, piece, start, widths[..i]);
      }
    } else {
      var i := StraddleLoses(d.disc, lba, n, piece, start, widths);
    }
  }

  /** Bytes, or words, or long words where the limit is a multiple of four, never cross a piece or a block. */
  lemma UniformConserves(d: Device, lba: int, n: nat, widths: seq<nat>, width: nat)
    requires 1 <= n < 0x10_0000 && 2 <= d.byteCount <= 0xffff && width in {1, 2, 4}
    requires (forall i | 0 <= i < |widths| :: widths[i] == width) && Total(widths) <= 2048 * n
    requires width == 4 ==> Piece(d.byteCount, 2048 * n) % 4 == 0
    ensures Conserves(Start(d, lba, n), 2048 * n, widths) && Within(widths, 2048)
  {
    PieceRange(d.byteCount, n);
    UniformIsWithin(widths, width, Piece(d.byteCount, 2048 * n));
    UniformIsWithin(widths, width, 2048);
    ConservesIff(d, lba, n, widths);
  }
}
