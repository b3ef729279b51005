/**
 * PIO sector transfers of the ATA controller through the data port: READ SECTORS and WRITE SECTORS
 * (src/ata.cpp:387-521, 1149-1273 and 2004-2091).
 */
module AtaDisk {
  import opened AtaAddress
  import opened Division

  const READ_SECTORS := 0x20
  const READ_SECTORS_NO_RETRY := 0x21
  const WRITE_SECTORS := 0x30

  /** A drive and its controller; `swap` is the byteswap option of the disk image. */
  datatype Drive = Drive(geo: Geometry, swap: bool, regs: Regs, buffer: seq<int>, index: int,
                         command: int, drq: bool, err: bool, disk: seq<seq<int>>)

  predicate DriveOk(d: Drive) {
    && ValidGeometry(d.geo) && ValidRegs(d.regs)
    && |d.buffer| == 2048 && 0 <= d.index < 512
    && |d.disk| == Capacity(d.geo) && (forall q | 0 <= q < |d.disk| :: |d.disk[q]| == 512)
  }

  /** The k-th byte of an access as the big-endian host sees it. */
  function HostByte(value: int, width: int, k: int): int {
    if width == 2 then (if k == 0 then value / 0x100 % 0x100 else value % 0x100)
    else if k == 0 then value / 0x100_0000 % 0x100
    else if k == 1 then value / 0x1_0000 % 0x100
    else if k == 2 then value / 0x100 % 0x100
    else value % 0x100
  }

  function HostBytes(value: int, width: int): (bs: seq<int>)
    requires width in {2, 4}
    ensures |bs| == width && forall k | 0 <= k < width :: bs[k] == HostByte(value, width, k)
  {
    seq(width, k => HostByte(value, width, k))
  }

  /** Where byte k of the host's stream sits in a sector: images that are not byte-swapped swap pairs. */
  function Seat(k: int, swap: bool): int {
    if swap then k else if k % 2 == 0 then k + 1 else k - 1
  }

  /** The buffer stores of a data-port write, case by case. */
  function Put(b: seq<int>, i: int, width: int, value: int, swap: bool): (r: seq<int>)
    requires 0 <= i && i + 4 <= |b|
    ensures |r| == |b|
  {
    if width == 4 then
      if swap then
        b[i := value / 0x100_0000 % 0x100][i + 1 := value / 0x1_0000 % 0x100]
         [i + 2 := value / 0x100 % 0x100][i + 3 := value % 0x100]
      else
        b[i + 1 := value / 0x100_0000 % 0x100][i := value / 0x1_0000 % 0x100]
         [i + 3 := value / 0x100 % 0x100][i + 2 := value % 0x100]
    else if width == 2 then
      if swap then b[i := value / 0x100 % 0x100][i + 1 := value % 0x100]
      else b[i + 1 := value / 0x100 % 0x100][i := value % 0x100]
    else b
  }

  /** The value of a data-port read, case by case. */
  function Get(b: seq<int>, i: int, width: int, swap: bool): int
    requires 0 <= i && i + 4 <= |b|
  {
    if width == 4 then
      if swap then b[i] * 0x100_0000 + b[i + 1] * 0x1_0000 + b[i + 2] * 0x100 + b[i + 3]
      else b[i + 1] * 0x100_0000 + b[i] * 0x1_0000 + b[i + 3] * 0x100 + b[i + 2]
    else if width == 2 then
      if swap then b[i] * 0x100 + b[i + 1] else b[i + 1] * 0x100 + b[i]
    else 0
  }

  lemma PutMeaning(b: seq<int>, i: int, width: int, value: int, swap: bool)
    requires 0 <= i && i + 4 <= |b| && width in {2, 4}
    ensures var r := Put(b, i, width, value, swap);
            && (forall k | 0 <= k < width :: r[i + k] == HostByte(value, width, Seat(k, swap)))
            && (forall k | 0 <= k < |b| && !(i <= k < i + width) :: r[k] == b[k])
  {
  }

  lemma GetMeaning(b: seq<int>, i: int, width: int, swap: bool, k: int)
    requires 0 <= i && i + 4 <= |b| && width in {2, 4} && 0 <= k < width
    requires forall j | i <= j < i + width :: 0 <= b[j] < 0x100
    ensures 0 <= Seat(k, swap) < width
    ensures HostByte(Get(b, i, width, swap), width, k) == b[i + Seat(k, swap)]
  {
    if width == 4 {
      FourBytes(b[i + Seat(0, swap)], b[i + Seat(1, swap)], b[i + Seat(2, swap)], b[i + Seat(3, swap)]);
    } else {
      TwoBytes(b[i + Seat(0, swap)], b[i + Seat(1, swap)]);
    }
  }

  /** In the image a word or long word is a big-endian number, or one of swapped pairs. */
  lemma PutNumber(b: seq<int>, i: int, width: int, value: int, swap: bool)
    requires 0 <= i && i + 4 <= |b| && width in {2, 4}
    ensures var r := Put(b, i, width, value, swap);
            && (width == 2 && swap ==> r[i] * 0x100 + r[i + 1] == value % 0x1_0000)
            && (width == 2 && !swap ==> r[i + 1] * 0x100 + r[i] == value % 0x1_0000)
            && (width == 4 && swap ==>
                  r[i] * 0x100_0000 + r[i + 1] * 0x1_0000 + r[i + 2] * 0x100 + r[i + 3] == value % 0x1_0000_0000)
            && (width == 4 && !swap ==>
                  r[i + 1] * 0x100_0000 + r[i] * 0x1_0000 + r[i + 3] * 0x100 + r[i + 2] == value % 0x1_0000_0000)
  {
    Digits(value);
  }

  /** Byte accesses move the index and no data. */
  lemma ByteAccess(b: seq<int>, i: int, value: int, swap: bool)
    requires 0 <= i && i + 4 <= |b|
    ensures Put(b, i, 1, value, swap) == b && Get(b, i, 1, swap) == 0
  {
  }

  lemma Digits(value: int)
    ensures value / 0x100 % 0x100 * 0x100 + value % 0x100 == value % 0x1_0000
    ensures value / 0x100_0000 % 0x100 * 0x100_0000 + value / 0x1_0000 % 0x100 * 0x1_0000 + value % 0x1_0000
            == value % 0x1_0000_0000
  {
    var q0 := value / 0x100;
    var q1, q2, q3 := q0 / 0x100, q0 / 0x100 / 0x100, q0 / 0x100 / 0x100 / 0x100;
    var d0, d1, d2, d3 := value % 0x100, q0 % 0x100, q1 % 0x100, q2 % 0x100;
    assert value == q0 * 0x100 + d0 && q0 == q1 * 0x100 + d1 && q1 == q2 * 0x100 + d2 && q2 == q3 * 0x100 + d3;
    Quotient(value, 0x1_0000, q1, d1 * 0x100 + d0);
    Quotient(value, 0x100_0000, q2, d2 * 0x1_0000 + d1 * 0x100 + d0);
    Quotient(value, 0x1_0000_0000, q3, d3 * 0x100_0000 + d2 * 0x1_0000 + d1 * 0x100 + d0);
  }

  lemma TwoBytes(x: int, y: int)
    requires 0 <= x < 0x100 && 0 <= y < 0x100
    ensures (x * 0x100 + y) / 0x100 == x && (x * 0x100 + y) % 0x100 == y
  {
  }

  lemma FourBytes(x: int, y: int, z: int, w: int)
    requires 0 <= x < 0x100 && 0 <= y < 0x100 && 0 <= z < 0x100 && 0 <= w < 0x100
    ensures var v := x * 0x100_0000 + y * 0x1_0000 + z * 0x100 + w;
            && v / 0x100_0000 % 0x100 == x && v / 0x1_0000 % 0x100 == y && v / 0x100 % 0x100 == z && v % 0x100 == w
  {
    var v := x * 0x100_0000 + y * 0x1_0000 + z * 0x100 + w;
    Quotient(v, 0x100_0000, x, y * 0x1_0000 + z * 0x100 + w);
    Quotient(v, 0x1_0000, x * 0x100 + y, z * 0x100 + w);
    Quotient(v, 0x100, x * 0x1_0000 + y * 0x100 + z, w);
  }

  /** command_aborted. */
  function Abort(d: Drive): Drive {
    d.(command := 0, err := true, drq := false, index := 0)
  }

  /** A write of the data port. */
  function WritePort(d: Drive, width: int, value: int): (r: Drive)
    requires DriveOk(d) && width in {1, 2, 4}
    ensures DriveOk(r) && r.geo == d.geo && r.swap == d.swap
  {
    if d.command != WRITE_SECTORS then d
    else
      var d1 := d.(buffer := Put(d.buffer, d.index, width, value, d.swap));
      if d.index + width < 512 then d1.(index := d.index + width)
      else if !InBounds(d.geo, d.regs) then Abort(d1)
      else
        var regs := Increment(d.geo, d.regs);
        d1.(index := 0, regs := regs, drq := regs.count != 0, err := false,
            disk := d.disk[Logical(d.geo, d.regs) := d1.buffer[..512]])
  }

  /** A read of the data port. */
  function ReadPort(d: Drive, width: int): (r: (Drive, int))
    requires DriveOk(d) && width in {1, 2, 4}
    ensures DriveOk(r.0) && r.0.geo == d.geo && r.0.swap == d.swap
  {
    if !d.drq || !(d.command == READ_SECTORS || d.command == READ_SECTORS_NO_RETRY) then (d, 0)
    else
      var value := Get(d.buffer, d.index, width, d.swap);
      if d.index + width < 512 then (d.(index := d.index + width), value)
      else
        var d1 := d.(index := 0, regs := Increment(d.geo, d.regs), err := false);
        if d1.regs.count == 0 then (d1.(drq := false), value)
        else if !InBounds(d1.geo, d1.regs) then (Abort(d1), value)
        else (d1.(buffer := d.disk[Logical(d1.geo, d1.regs)] + d.buffer[512..]), value)
  }

  function StartWrite(d: Drive): (r: Drive)
    requires DriveOk(d)
    ensures DriveOk(r) && r.geo == d.geo && r.swap == d.swap
  {
    d.(command := WRITE_SECTORS, drq := true, err := false, index := 0)
  }

  function StartRead(d: Drive, command: int): (r: Drive)
    requires DriveOk(d)
    ensures DriveOk(r) && r.geo == d.geo && r.swap == d.swap
  {
    var d1 := d.(command := command);
    if !d.regs.lbaMode && d.regs.head == 0 && d.regs.cylinder == 0 && d.regs.sector == 0 then Abort(d1)
    else if !InBounds(d.geo, d.regs) then Abort(d1)
    else d1.(buffer := d.disk[Logical(d.geo, d.regs)] + d.buffer[512..], drq := true, err := false, index := 0)
  }

  // ---- Writing ----

  datatype Access = Access(width: int, value: int)

  /** The bytes the host has sent. */
  function Stream(accesses: seq<Access>): seq<int>
    requires forall i | 0 <= i < |accesses| :: accesses[i].width in {2, 4}
  {
    if accesses == [] then []
    else
      var last := accesses[|accesses| - 1];
      Stream(accesses[..|accesses| - 1]) + HostBytes(last.value, last.width)
  }

  /** Every access is a word or a long word, and none straddles the end of a sector. */
  predicate Aligned(accesses: seq<Access>) {
    && (forall i | 0 <= i < |accesses| :: accesses[i].width in {2, 4})
    && (accesses == [] ||
        var init := accesses[..|accesses| - 1];
        Aligned(init) && |Stream(init)| % 512 + accesses[|accesses| - 1].width <= 512)
  }

  function WriteAll(d: Drive, accesses: seq<Access>): (r: Drive)
    requires DriveOk(d) && Aligned(accesses)
    ensures DriveOk(r) && r.geo == d.geo && r.swap == d.swap
  {
    if accesses == [] then d
    else
      var last := accesses[|accesses| - 1];
      WritePort(WriteAll(d, accesses[..|accesses| - 1]), last.width, last.value)
  }

  /** The first j bytes of a sector buffer hold part i of the stream, in their seats. */
  predicate Holds(b: seq<int>, j: int, s: seq<int>, i: int, swap: bool) {
    && 0 <= j <= |b| && j % 2 == 0 && 0 <= i && 512 * i + j <= |s|
    && forall k | 0 <= k < j :: b[k] == s[512 * i + Seat(k, swap)]
  }

  /** The disk is as before, but for the sectors from `start` on that the stream has filled. */
  predicate DiskHolds(before: seq<seq<int>>, disk: seq<seq<int>>, start: int, done: int, s: seq<int>, swap: bool) {
    && |disk| == |before| && 0 <= start && 0 <= done && start + done <= |disk|
    && (forall q | start <= q < start + done :: |disk[q]| == 512 && Holds(disk[q], 512, s, q - start, swap))
    && (forall q | 0 <= q < |disk| && !(start <= q < start + done) :: disk[q] == before[q])
  }

  /** The transfer of n sectors from `start` on has filled `i` sectors and j bytes of the next. */
  ghost predicate Writing(d0: Drive, start: int, n: int, s: seq<int>, i: int, j: int, d: Drive) {
    && DriveOk(d) && d.geo == d0.geo && d.swap == d0.swap
    && 1 <= n <= 256 && 0 <= i <= n && 0 <= j < 512 && (i == n ==> j == 0) && |s| == 512 * i + j
    && d.command == WRITE_SECTORS && !d.err && d.index == j && d.drq == (i < n)
    && (i < n ==> PointsTo(d.geo, d.regs, start + i) && d.regs.count == (n - i) % 0x100)
    && Holds(d.buffer, j, s, i, d.swap)
    && DiskHolds(d0.disk, d.disk, start, i, s, d.swap)
  }

  lemma HoldsMore(b: seq<int>, j: int, s: seq<int>, i: int, swap: bool, more: seq<int>)
    requires Holds(b, j, s, i, swap)
    ensures Holds(b, j, s + more, i, swap)
  {
  }

  lemma PutHolds(b: seq<int>, j: int, s: seq<int>, i: int, width: int, value: int, swap: bool)
    requires Holds(b, j, s, i, swap) && |s| == 512 * i + j && j + 4 <= |b| && width in {2, 4}
    ensures Holds(Put(b, j, width, value, swap), j + width, s + HostBytes(value, width), i, swap)
  {
    PutMeaning(b, j, width, value, swap);
    var r, t := Put(b, j, width, value, swap), s + HostBytes(value, width);
    forall k | 0 <= k < j + width ensures r[k] == t[512 * i + Seat(k, swap)] {
      if k >= j {
        assert r[j + (k - j)] == HostByte(value, width, Seat(k - j, swap));
        assert Seat(k, swap) == j + Seat(k - j, swap);
      }
    }
  }

  lemma DiskHoldsMore(before: seq<seq<int>>, disk: seq<seq<int>>, start: int, done: int, s: seq<int>, swap: bool,
                      more: seq<int>)
    requires DiskHolds(before, disk, start, done, s, swap)
    ensures DiskHolds(before, disk, start, done, s + more, swap)
  {
    forall q | start <= q < start + done ensures Holds(disk[q], 512, s + more, q - start, swap) {
      HoldsMore(disk[q], 512, s, q - start, swap, more);
    }
  }

  /** One data-port write moves the transfer on. */
  lemma WriteStep(d0: Drive, start: int, n: int, s: seq<int>, i: int, j: int, d: Drive, width: int, value: int)
    requires Writing(d0, start, n, s, i, j, d) && i < n && width in {2, 4} && j + width <= 512
    requires start + n <= Capacity(d.geo)
    ensures var full := j + width == 512;
            Writing(d0, start, n, s + HostBytes(value, width), if full then i + 1 else i, if full then 0 else j + width,
                    WritePort(d, width, value))
  {
    var t := s + HostBytes(value, width);
    PutHolds(d.buffer, j, s, i, width, value, d.swap);
    DiskHoldsMore(d0.disk, d.disk, start, i, s, d.swap, HostBytes(value, width));
    if j + width == 512 {
      SectorDone(d0, start, n, t, i, d, width, value);
    }
  }

  lemma SectorDone(d0: Drive, start: int, n: int, t: seq<int>, i: int, d: Drive, width: int, value: int)
    requires DriveOk(d) && d.geo == d0.geo && d.swap == d0.swap && start + n <= Capacity(d.geo)
    requires 1 <= n <= 256 && 0 <= i < n && d.command == WRITE_SECTORS && width in {2, 4} && d.index + width == 512
    requires PointsTo(d.geo, d.regs, start + i) && d.regs.count == (n - i) % 0x100
    requires |t| == 512 * i + 512 && Holds(Put(d.buffer, d.index, width, value, d.swap), 512, t, i, d.swap)
    requires DiskHolds(d0.disk, d.disk, start, i, t, d.swap)
    ensures Writing(d0, start, n, t, i + 1, 0, WritePort(d, width, value))
  {
    LogicalOfAddress(d.geo, d.regs, start + i);
    var b := Put(d.buffer, d.index, width, value, d.swap);
    var disk := d.disk[start + i := b[..512]];
    assert Holds(b[..512], 512, t, i, d.swap);
    assert DiskHolds(d0.disk, disk, start, i + 1, t, d.swap);
    NextSector(d.geo, d.regs, start, n, i);
  }

  /** The registers after a sector: the count has gone down, and unless it is the last, the address up. */
  lemma NextSector(g: Geometry, r: Regs, start: int, n: int, i: int)
    requires PointsTo(g, r, start + i) && r.count == (n - i) % 0x100 && 1 <= n <= 256 && 0 <= i < n
    requires start + n <= Capacity(g)
    ensures ValidRegs(Increment(g, r)) && Increment(g, r).count == (n - (i + 1)) % 0x100
    ensures Increment(g, r).count == 0 <==> i + 1 == n
    ensures i + 1 < n ==> PointsTo(g, Increment(g, r), start + (i + 1))
  {
    IncrementCounts(g, r);
    CountDown(n - i);
    if i + 1 < n {
      IncrementAddsOne(g, r, start + i);
    }
  }

  lemma IncrementCounts(g: Geometry, r: Regs)
    requires ValidGeometry(g) && ValidRegs(r)
    ensures ValidRegs(Increment(g, r)) && Increment(g, r).count == (r.count - 1) % 0x100
  {
  }

  lemma CountDown(left: int)
    requires 1 <= left <= 256
    ensures (left % 0x100 - 1) % 0x100 == (left - 1) % 0x100 && ((left - 1) % 0x100 == 0 <==> left == 1)
  {
  }

  /** Where in its sectors a transfer of t bytes is after w more. */
  lemma SplitTotal(t: int, w: int)
    requires 0 <= t && 0 < w && t % 512 + w <= 512
    ensures (t + w) / 512 == if t % 512 + w == 512 then t / 512 + 1 else t / 512
    ensures (t + w) % 512 == if t % 512 + w == 512 then 0 else t % 512 + w
  {
  }

  /** The transfer of n sectors from `start` on has taken the bytes s. */
  ghost predicate Written(d0: Drive, start: int, n: int, s: seq<int>, d: Drive) {
    Writing(d0, start, n, s, |s| / 512, |s| % 512, d)
  }

  lemma WrittenNothing(d0: Drive, start: int, n: int)
    requires DriveOk(d0) && PointsTo(d0.geo, d0.regs, start) && 1 <= n <= 256 && d0.regs.count == n % 0x100
    ensures Written(d0, start, n, [], StartWrite(d0))
  {
  }

  lemma WrittenMore(d0: Drive, start: int, n: int, s: seq<int>, d: Drive, width: int, value: int)
    requires Written(d0, start, n, s, d) && start + n <= Capacity(d.geo)
    requires width in {2, 4} && |s| % 512 + width <= 512 && |s| + width <= 512 * n
    ensures Written(d0, start, n, s + HostBytes(value, width), WritePort(d, width, value))
  {
    SplitTotal(|s|, width);
    WriteStep(d0, start, n, s, |s| / 512, |s| % 512, d, width, value);
  }

  /** The stream goes to the disk sector by sector, and DRQ falls with its last byte. */
  lemma {:induction false} WriteRun(d0: Drive, start: int, n: int, accesses: seq<Access>)
    requires DriveOk(d0) && PointsTo(d0.geo, d0.regs, start) && 1 <= n <= 256 && d0.regs.count == n % 0x100
    requires start + n <= Capacity(d0.geo) && Aligned(accesses) && |Stream(accesses)| <= 512 * n
    ensures Written(d0, start, n, Stream(accesses), WriteAll(StartWrite(d0), accesses))
  {
    if accesses == [] {
      WrittenNothing(d0, start, n);
    } else {
      var init, last := accesses[..|accesses| - 1], accesses[|accesses| - 1];
      WriteRun(d0, start, n, init);
      WrittenMore(d0, start, n, Stream(init), WriteAll(StartWrite(d0), init), last.width, last.value);
    }
  }

  /** The first accesses of a sequence. */
  lemma {:induction false} AlignedPrefix(accesses: seq<Access>, i: nat)
    requires Aligned(accesses) && i <= |accesses|
    ensures Aligned(accesses[..i]) && |Stream(accesses[..i])| <= |Stream(accesses)|
  {
    if i < |accesses| {
      var init := accesses[..|accesses| - 1];
      AlignedPrefix(init, i);
      assert init[..i] == accesses[..i];
    } else {
      assert accesses[..i] == accesses;
    }
  }

  lemma {:induction false} StreamOfBytes(accesses: seq<Access>)
    requires Aligned(accesses)
    ensures forall k | 0 <= k < |Stream(accesses)| :: 0 <= Stream(accesses)[k] < 0x100
  {
    if accesses != [] {
      StreamOfBytes(accesses[..|accesses| - 1]);
    }
  }

  // ---- Reading ----

  function Total(widths: seq<int>): int {
    if widths == [] then 0 else Total(widths[..|widths| - 1]) + widths[|widths| - 1]
  }

  /** Every read is a word or a long word, and none straddles the end of a sector. */
  predicate AlignedReads(widths: seq<int>) {
    widths == [] ||
    (var init, last := widths[..|widths| - 1], widths[|widths| - 1];
     AlignedReads(init) && last in {2, 4} && Total(init) % 512 + last <= 512)
  }

  /** The drive after a sequence of reads, and the bytes the host has got. */
  function ReadAll(d: Drive, widths: seq<int>): (r: (Drive, seq<int>))
    requires DriveOk(d) && AlignedReads(widths)
    ensures DriveOk(r.0) && r.0.geo == d.geo && r.0.swap == d.swap
  {
    if widths == [] then (d, []) else ReadMore(ReadAll(d, widths[..|widths| - 1]), widths[|widths| - 1])
  }

  function ReadMore(r: (Drive, seq<int>), width: int): (next: (Drive, seq<int>))
    requires DriveOk(r.0) && width in {2, 4}
    ensures DriveOk(next.0) && next.0.geo == r.0.geo && next.0.swap == r.0.swap
  {
    var (after, value) := ReadPort(r.0, width);
    (after, r.1 + HostBytes(value, width))
  }

  /** The transfer of n sectors from `start` on has delivered i sectors and j bytes of the next. */
  ghost predicate Reading(d0: Drive, start: int, n: int, i: int, j: int, d: Drive) {
    && DriveOk(d) && d.geo == d0.geo && d.swap == d0.swap && d.disk == d0.disk
    && 1 <= n <= 256 && 0 <= start && start + n <= |d.disk|
    && 0 <= i <= n && 0 <= j < 512 && (i == n ==> j == 0) && j % 2 == 0
    && (d.command == READ_SECTORS || d.command == READ_SECTORS_NO_RETRY) && !d.err && d.drq == (i < n) && d.index == j
    && (i < n ==> PointsTo(d.geo, d.regs, start + i) && d.regs.count == (n - i) % 0x100)
    && (i < n ==> d.buffer[..512] == d.disk[start + i])
  }

  lemma ReadStep(d0: Drive, start: int, n: int, i: int, j: int, d: Drive, width: int)
    requires Reading(d0, start, n, i, j, d) && i < n && width in {2, 4} && j + width <= 512
    ensures var full := j + width == 512;
            Reading(d0, start, n, if full then i + 1 else i, if full then 0 else j + width, ReadPort(d, width).0)
  {
    if j + width == 512 {
      NextSector(d.geo, d.regs, start, n, i);
      if i + 1 < n {
        LogicalOfAddress(d.geo, Increment(d.geo, d.regs), start + (i + 1));
      }
    }
  }

  /** What one read gives the host, when the sector holds part i of a stream. */
  lemma ReadValue(b: seq<int>, j: int, width: int, swap: bool, s: seq<int>, i: int)
    requires 512 <= |b| - 4 && Holds(b[..512], 512, s, i, swap) && forall k | 0 <= k < |s| :: 0 <= s[k] < 0x100
    requires width in {2, 4} && 0 <= j && j % 2 == 0 && j + width <= 512
    ensures HostBytes(Get(b, j, width, swap), width) == s[512 * i + j..512 * i + j + width]
  {
    forall k | 0 <= k < 512 ensures b[k] == s[512 * i + Seat(k, swap)] {
      assert b[..512][k] == b[k];
    }
    forall k | 0 <= k < width ensures HostByte(Get(b, j, width, swap), width, k) == s[512 * i + j + k] {
      GetMeaning(b, j, width, swap, k);
      assert Seat(j + Seat(k, swap), swap) == j + k;
    }
  }

  /** The transfer of n sectors from `start` on has delivered the first t bytes of the stream s. */
  ghost predicate Delivered(d0: Drive, start: int, n: int, s: seq<int>, t: int, d: Drive, bytes: seq<int>) {
    0 <= t <= |s| && Reading(d0, start, n, t / 512, t % 512, d) && bytes == s[..t]
  }

  lemma DeliveredNothing(d0: Drive, start: int, n: int, s: seq<int>, command: int)
    requires DriveOk(d0) && PointsTo(d0.geo, d0.regs, start) && 1 <= n <= 256 && d0.regs.count == n % 0x100
    requires start + n <= Capacity(d0.geo) && (command == READ_SECTORS || command == READ_SECTORS_NO_RETRY)
    ensures Delivered(d0, start, n, s, 0, StartRead(d0, command), [])
  {
    LogicalOfAddress(d0.geo, d0.regs, start);
  }

  /** What is read next is what the stream holds next. */
  lemma ReadGives(d0: Drive, start: int, n: int, before: seq<seq<int>>, s: seq<int>, i: int, j: int, d: Drive,
                  width: int)
    requires Reading(d0, start, n, i, j, d) && i < n && width in {2, 4} && j + width <= 512
    requires 512 * i + j + width <= |s|
    requires |s| == 512 * n && DiskHolds(before, d0.disk, start, n, s, d0.swap)
    requires forall k | 0 <= k < |s| :: 0 <= s[k] < 0x100
    ensures HostBytes(ReadPort(d, width).1, width) == s[512 * i + j..512 * i + j + width]
  {
    ReadValue(d.buffer, d.index, width, d.swap, s, i);
  }

  lemma PrefixGrows(s: seq<int>, t: int, width: int)
    requires 0 <= t && 0 <= width && t + width <= |s|
    ensures s[..t] + s[t..t + width] == s[..t + width]
  {
  }

  lemma DeliveredMore(d0: Drive, start: int, n: int, before: seq<seq<int>>, s: seq<int>, t: int, r: (Drive, seq<int>),
                      width: int)
    requires Delivered(d0, start, n, s, t, r.0, r.1) && width in {2, 4} && t % 512 + width <= 512
    requires t + width <= 512 * n
    requires |s| == 512 * n && DiskHolds(before, d0.disk, start, n, s, d0.swap)
    requires forall k | 0 <= k < |s| :: 0 <= s[k] < 0x100
    ensures Delivered(d0, start, n, s, t + width, ReadMore(r, width).0, ReadMore(r, width).1)
  {
    NextState(d0, start, n, t, r.0, width);
    ReadGives(d0, start, n, before, s, t / 512, t % 512, r.0, width);
    PrefixGrows(s, t, width);
    Append(r, width, s[t..t + width]);
  }

  lemma NextState(d0: Drive, start: int, n: int, t: int, d: Drive, width: int)
    requires 0 <= t && Reading(d0, start, n, t / 512, t % 512, d) && width in {2, 4} && t % 512 + width <= 512
    requires t + width <= 512 * n
    ensures t / 512 < n && Reading(d0, start, n, (t + width) / 512, (t + width) % 512, ReadPort(d, width).0)
  {
    SplitTotal(t, width);
    ReadStep(d0, start, n, t / 512, t % 512, d, width);
  }

  lemma Append(r: (Drive, seq<int>), width: int, more: seq<int>)
    requires DriveOk(r.0) && width in {2, 4} && HostBytes(ReadPort(r.0, width).1, width) == more
    ensures ReadMore(r, width) == (ReadPort(r.0, width).0, r.1 + more)
  {
  }

  lemma {:induction false} TotalNatural(widths: seq<int>)
    requires AlignedReads(widths)
    ensures 0 <= Total(widths)
  {
    if widths != [] {
      TotalNatural(widths[..|widths| - 1]);
    }
  }

  lemma {:induction false} AlignedReadsPrefix(widths: seq<int>, i: nat)
    requires AlignedReads(widths) && i <= |widths|
    ensures AlignedReads(widths[..i]) && Total(widths[..i]) <= Total(widths)
    ensures forall k | 0 <= k < |widths| :: widths[k] in {2, 4}
  {
    if widths != [] {
      var init := widths[..|widths| - 1];
      AlignedReadsPrefix(init, if i < |widths| then i else |init|);
      if i < |widths| {
        assert init[..i] == widths[..i];
      } else {
        assert widths[..i] == widths;
      }
      assert forall k | 0 <= k < |init| :: widths[k] == init[k];
    }
  }

  /** The bytes read are the bytes the sectors hold, in order, and DRQ falls with the last of them. */
  lemma {:induction false} ReadRun(d0: Drive, start: int, n: int, command: int, widths: seq<int>, before: seq<seq<int>>,
                                   s: seq<int>)
    requires DriveOk(d0) && PointsTo(d0.geo, d0.regs, start) && 1 <= n <= 256 && d0.regs.count == n % 0x100
    requires start + n <= Capacity(d0.geo) && (command == READ_SECTORS || command == READ_SECTORS_NO_RETRY)
    requires AlignedReads(widths) && Total(widths) <= 512 * n
    requires |s| == 512 * n && DiskHolds(before, d0.disk, start, n, s, d0.swap)
    requires forall k | 0 <= k < |s| :: 0 <= s[k] < 0x100
    ensures var (d, bytes) := ReadAll(StartRead(d0, command), widths);
            Delivered(d0, start, n, s, Total(widths), d, bytes)
  {
    if widths == [] {
      DeliveredNothing(d0, start, n, s, command);
    } else {
      var init, last := widths[..|widths| - 1], widths[|widths| - 1];
      TotalNatural(init);
      ReadRun(d0, start, n, command, init, before, s);
      DeliveredMore(d0, start, n, before, s, Total(init), ReadAll(StartRead(d0, command), init), last);
    }
  }

  /** A command or a transfer that leaves the disk ends with ERR up, DRQ down and the disk as it was. */
  lemma OffTheDisk(d: Drive, command: int, width: int, value: int)
    requires DriveOk(d) && !InBounds(d.geo, d.regs) && width in {1, 2, 4}
    ensures var r := StartRead(d, command); r.err && !r.drq && r.command == 0 && r.index == 0 && r.disk == d.disk
    ensures d.command == WRITE_SECTORS && d.index + width >= 512 ==>
              var r := WritePort(d, width, value); r.err && !r.drq && r.command == 0 && r.index == 0 && r.disk == d.disk
  {
  }

  /** So does a read that goes on behind the last sector. */
  lemma ReadsOffTheDisk(d: Drive, width: int)
    requires DriveOk(d) && d.drq && d.command in {READ_SECTORS, READ_SECTORS_NO_RETRY} && width in {1, 2, 4}
    requires d.index + width >= 512 && d.regs.count != 1 && !InBounds(d.geo, Increment(d.geo, d.regs))
    ensures var r := ReadPort(d, width).0; r.err && !r.drq && r.command == 0 && r.index == 0 && r.disk == d.disk
  {
    assert Increment(d.geo, d.regs).count == (d.regs.count - 1) % 0x100;
  }

  /** So does a read at cylinder, head and sector zero, which no CHS address has. */
  lemma NoSectorZero(d: Drive, command: int)
    requires DriveOk(d) && !d.regs.lbaMode && d.regs.head == 0 && d.regs.cylinder == 0 && d.regs.sector == 0
    ensures var r := StartRead(d, command); r.err && !r.drq && r.command == 0 && r.index == 0
  {
  }

  /** A read begins exactly when its address is on the disk, with that sector in the buffer. */
  lemma ReadStartsIff(d: Drive, command: int)
    requires DriveOk(d)
    ensures StartRead(d, command).drq <==> InBounds(d.geo, d.regs)
    ensures StartRead(d, command).err <==> !InBounds(d.geo, d.regs)
    ensures InBounds(d.geo, d.regs) ==> 0 <= Logical(d.geo, d.regs) < |d.disk|
    ensures InBounds(d.geo, d.regs) ==> StartRead(d, command).buffer[..512] == d.disk[Logical(d.geo, d.regs)]
  {
    if !d.regs.lbaMode && d.regs.head == 0 && d.regs.cylinder == 0 && d.regs.sector == 0 {
      LogicalOfZero(d.geo, d.regs);
    }
  }

  /** Without DRQ the data port gives nothing and nothing changes. */
  lemma QuietPort(d: Drive, width: int)
    requires DriveOk(d) && !d.drq && width in {1, 2, 4}
    ensures ReadPort(d, width) == (d, 0)
  {
  }

  // ---- The round trip ----

  /**
   * WRITE SECTORS followed by READ SECTORS at the same place gives the stream back, each in CHS or
   * LBA mode, with any mixture of word and long word accesses that respects the sectors, for 1 to 256
   * sectors (a count register of 0 standing for 256). No other sector changes, and DRQ falls exactly
   * with the last byte of each transfer.
   */
  lemma {:induction false} WriteThenRead(d0: Drive, start: int, n: int, accesses: seq<Access>, regs: Regs, command: int,
                                         widths: seq<int>)
    requires DriveOk(d0) && PointsTo(d0.geo, d0.regs, start) && PointsTo(d0.geo, regs, start)
    requires 1 <= n <= 256 && d0.regs.count == n % 0x100 && regs.count == n % 0x100 && start + n <= Capacity(d0.geo)
    requires command == READ_SECTORS || command == READ_SECTORS_NO_RETRY
    requires Aligned(accesses) && |Stream(accesses)| == 512 * n
    requires AlignedReads(widths) && Total(widths) == 512 * n
    ensures var d1 := WriteAll(StartWrite(d0), accesses);
            && !d1.drq && !d1.err
            && (forall q | 0 <= q < |d0.disk| && !(start <= q < start + n) :: d1.disk[q] == d0.disk[q])
            && var (d2, bytes) := ReadAll(StartRead(d1.(regs := regs), command), widths);
            bytes == Stream(accesses) && d2.disk == d1.disk && !d2.drq && !d2.err
  {
    WriteRun(d0, start, n, accesses);
    StreamOfBytes(accesses);
    var d1, s := WriteAll(StartWrite(d0), accesses), Stream(accesses);
    ReadRun(d1.(regs := regs), start, n, command, widths, d0.disk, s);
    assert s[..512 * n] == s;
  }

  /** Before its last byte a transfer keeps DRQ up: the strict half of "exactly with the last byte". */
  lemma {:induction false} DrqStaysUp(d0: Drive, start: int, n: int, accesses: seq<Access>)
    requires DriveOk(d0) && PointsTo(d0.geo, d0.regs, start) && 1 <= n <= 256 && d0.regs.count == n % 0x100
    requires start + n <= Capacity(d0.geo) && Aligned(accesses) && |Stream(accesses)| < 512 * n
    ensures WriteAll(StartWrite(d0), accesses).drq
  {
    WriteRun(d0, start, n, accesses);
  }
}
