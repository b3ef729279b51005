/** Sector addressing of the ATA controller in CHS and LBA mode (src/ata.cpp:2781-2840). */
module AtaAddress {
  import opened Division

  /** The shape of a disk. */
  datatype Geometry = Geometry(cylinders: int, heads: int, sectors: int)

  /** The task file registers that hold an address and a count. */
  datatype Regs = Regs(lbaMode: bool, head: int, cylinder: int, sector: int, count: int)

  predicate ValidGeometry(g: Geometry) {
    1 <= g.cylinders <= 0xffff && 1 <= g.heads <= 16 && 1 <= g.sectors <= 255
  }

  predicate ValidRegs(r: Regs) {
    0 <= r.head < 16 && 0 <= r.cylinder < 0x1_0000 && 0 <= r.sector < 0x100 && 0 <= r.count < 0x100
  }

  function Capacity(g: Geometry): int {
    g.cylinders * g.heads * g.sectors
  }

  /** calculate_logical_address, the 32-bit arithmetic of the CHS case included. */
  function Logical(g: Geometry, r: Regs): int {
    if r.lbaMode then r.head * 0x100_0000 + r.cylinder * 0x100 + r.sector
    else (r.cylinder * g.heads * g.sectors + r.head * g.sectors + (r.sector - 1)) % 0x1_0000_0000
  }

  predicate InBounds(g: Geometry, r: Regs) {
    Logical(g, r) < Capacity(g)
  }

  /** increment_address, with its 8-bit and 16-bit registers. */
  function Increment(g: Geometry, r: Regs): Regs {
    var r1 := r.(count := (r.count - 1) % 0x100);
    if r.lbaMode then
      var next := Logical(g, r) + 1;
      r1.(head := next / 0x100_0000 % 0x10, cylinder := next / 0x100 % 0x1_0000, sector := next % 0x100)
    else
      var sector := (r.sector + 1) % 0x100;
      if sector <= g.sectors && sector != 0 then r1.(sector := sector)
      else
        var head := (r.head + 1) % 0x100;
        if head < g.heads then r1.(sector := 1, head := head)
        else
          var cylinder := (r.cylinder + 1) % 0x1_0000;
          r1.(sector := 1, head := 0, cylinder := if cylinder >= g.cylinders then g.cylinders - 1 else cylinder)
  }

  /** The registers are a proper address of the given sector of the disk. */
  predicate PointsTo(g: Geometry, r: Regs, lba: int) {
    && ValidGeometry(g) && ValidRegs(r) && 0 <= lba < Capacity(g)
    && (if r.lbaMode then lba == r.head * 0x100_0000 + r.cylinder * 0x100 + r.sector
        else
          && r.head < g.heads && r.cylinder < g.cylinders && 1 <= r.sector <= g.sectors
          && lba == (r.cylinder * g.heads + r.head) * g.sectors + r.sector - 1)
  }

  /** The largest disk has far fewer than 2^28 sectors. */
  lemma CapacityBound(g: Geometry)
    requires ValidGeometry(g)
    ensures 1 <= Capacity(g) <= 0xffff * 16 * 255
  {
    var tracks := g.cylinders * g.heads;
    MulMonotonic(1, g.cylinders, g.heads);
    MulMonotonic(g.cylinders, 0xffff, g.heads);
    MulMonotonic(1, tracks, g.sectors);
    MulMonotonic(tracks, 0xffff * 16, g.sectors);
  }

  /** The arithmetic of the code computes the sector that the registers address. */
  lemma LogicalOfAddress(g: Geometry, r: Regs, lba: int)
    requires PointsTo(g, r, lba)
    ensures Logical(g, r) == lba && InBounds(g, r)
  {
    if !r.lbaMode {
      CapacityBound(g);
      var track := r.cylinder * g.heads;
      assert (track + r.head) * g.sectors == track * g.sectors + r.head * g.sectors;
      assert lba % 0x1_0000_0000 == lba;
    }
  }

  /** A proper CHS address that is not on the last track of its cylinder has a next track. */
  lemma NextTrack(g: Geometry, cylinder: int, head: int)
    requires ValidGeometry(g) && 0 <= head < g.heads && 0 <= cylinder < g.cylinders
    ensures (cylinder * g.heads + head + 1) * g.sectors == (cylinder * g.heads + head) * g.sectors + g.sectors
    ensures head + 1 == g.heads ==> cylinder * g.heads + head + 1 == (cylinder + 1) * g.heads
    ensures head + 1 == g.heads && cylinder + 1 == g.cylinders ==>
            (cylinder * g.heads + head + 1) * g.sectors == Capacity(g)
  {
    assert (cylinder + 1) * g.heads == cylinder * g.heads + g.heads;
  }

  /** Stepping to the next sector is adding one to its number, except behind the last sector. */
  lemma IncrementAddsOne(g: Geometry, r: Regs, lba: int)
    requires PointsTo(g, r, lba) && lba + 1 < Capacity(g)
    ensures PointsTo(g, Increment(g, r), lba + 1)
    ensures Increment(g, r).count == (r.count - 1) % 0x100 && Increment(g, r).lbaMode == r.lbaMode
  {
    if r.lbaMode {
      IncrementLba(g, r, lba);
    } else if r.sector == g.sectors {
      IncrementTrack(g, r, lba);
    } else {
      IncrementInTrack(g, r, lba);
    }
  }

  lemma IncrementTrack(g: Geometry, r: Regs, lba: int)
    requires PointsTo(g, r, lba) && lba + 1 < Capacity(g) && !r.lbaMode && r.sector == g.sectors
    ensures PointsTo(g, Increment(g, r), lba + 1)
  {
    NextTrack(g, r.cylinder, r.head);
    IncrementCarries(g, r);
  }

  /** Behind the last sector of a track the head moves on, behind the last head the cylinder does. */
  lemma IncrementCarries(g: Geometry, r: Regs)
    requires ValidGeometry(g) && ValidRegs(r) && !r.lbaMode && r.sector == g.sectors && r.head < g.heads
    requires r.cylinder < g.cylinders
    requires r.head + 1 < g.heads || r.cylinder + 1 < g.cylinders
    ensures Increment(g, r) == (if r.head + 1 < g.heads then r.(head := r.head + 1, sector := 1)
                                else r.(cylinder := r.cylinder + 1, head := 0, sector := 1)
                               ).(count := (r.count - 1) % 0x100)
  {
    Quotient(r.head + 1, 0x100, 0, r.head + 1);
    if r.sector == 0xff {
      Quotient(0x100, 0x100, 1, 0);
    } else {
      Quotient(r.sector + 1, 0x100, 0, r.sector + 1);
    }
    if r.cylinder + 1 < 0x1_0000 {
      Quotient(r.cylinder + 1, 0x1_0000, 0, r.cylinder + 1);
    }
  }

  lemma IncrementLba(g: Geometry, r: Regs, lba: int)
    requires PointsTo(g, r, lba) && lba + 1 < Capacity(g) && r.lbaMode
    ensures PointsTo(g, Increment(g, r), lba + 1)
  {
    CapacityBound(g);
    SplitAddress(lba + 1);
  }

  lemma IncrementInTrack(g: Geometry, r: Regs, lba: int)
    requires PointsTo(g, r, lba) && lba + 1 < Capacity(g) && !r.lbaMode && r.sector < g.sectors
    ensures PointsTo(g, Increment(g, r), lba + 1)
  {
    Quotient(r.sector + 1, 0x100, 0, r.sector + 1);
  }

  lemma SplitAddress(a: int)
    requires 0 <= a < 0x1000_0000
    ensures a / 0x100_0000 % 0x10 * 0x100_0000 + a / 0x100 % 0x1_0000 * 0x100 + a % 0x100 == a
  {
    var h, rest := a / 0x100_0000, a % 0x100_0000;
    Quotient(a, 0x100, h * 0x1_0000 + rest / 0x100, rest % 0x100);
    Quotient(h * 0x1_0000 + rest / 0x100, 0x1_0000, h, rest / 0x100);
    Quotient(h, 0x10, 0, h);
  }

  /** In CHS mode the step behind the last sector goes back to the start of the last cylinder. */
  lemma IncrementAtEnd(g: Geometry, r: Regs)
    requires PointsTo(g, r, Capacity(g) - 1) && !r.lbaMode
    ensures PointsTo(g, Increment(g, r), Capacity(g) - g.heads * g.sectors)
  {
    LastSector(g, r);
    LastCylinder(g);
  }

  lemma LastCylinder(g: Geometry)
    requires ValidGeometry(g)
    ensures (g.cylinders - 1) * g.heads * g.sectors == Capacity(g) - g.heads * g.sectors
    ensures 0 <= Capacity(g) - g.heads * g.sectors < Capacity(g)
  {
    BeforeLast(g.cylinders, g.heads, g.sectors);
    MulMonotonic(1, g.heads, g.sectors);
    MulMonotonic(1, g.cylinders, g.heads);
    MulMonotonic(g.heads, g.cylinders * g.heads, g.sectors);
  }

  lemma BeforeLast(c: int, h: int, s: int)
    ensures (c - 1) * h * s == c * h * s - h * s
  {
    assert (c - 1) * h == c * h - h;
    var tracks := c * h;
    assert (tracks - h) * s == tracks * s - h * s;
  }

  /** Only one proper CHS address is that of the last sector. */
  /** The last place of rows of equal length is the last of the last row. */
  lemma LastPlace(row: int, rows: int, place: int, places: int)
    requires 0 <= row < rows && 0 <= place < places && row * places + place == rows * places - 1
    ensures row == rows - 1 && place == places - 1
  {
    Multiples(rows, row, places);
    MulOrder(rows - row, 2, places);
  }

  lemma LastSector(g: Geometry, r: Regs)
    requires PointsTo(g, r, Capacity(g) - 1) && !r.lbaMode
    ensures r.cylinder == g.cylinders - 1 && r.head == g.heads - 1 && r.sector == g.sectors
  {
    var track, tracks := r.cylinder * g.heads + r.head, g.cylinders * g.heads;
    MulMonotonic(r.cylinder + 1, g.cylinders, g.heads);
    Multiples(r.cylinder, 1, g.heads);
    MulMonotonic(0, r.cylinder, g.heads);
    LastPlace(track, tracks, r.sector - 1, g.sectors);
    LastPlace(r.cylinder, g.cylinders, r.head, g.heads);
  }

  /** The address 0/0/0, which no sector has, wraps around to the end of 32 bits and lies off the disk. */
  lemma LogicalOfZero(g: Geometry, r: Regs)
    requires ValidGeometry(g) && !r.lbaMode && r.cylinder == 0 && r.head == 0 && r.sector == 0
    ensures Logical(g, r) == 0xffff_ffff && !InBounds(g, r)
  {
    assert 0 * g.heads * g.sectors + 0 * g.sectors == 0;
    CapacityBound(g);
  }

  /** A cylinder register that is full, which is no address of the disk, goes on with cylinder 0. */
  lemma CylinderWraps(g: Geometry, r: Regs)
    requires ValidGeometry(g) && ValidRegs(r) && !r.lbaMode
    requires r.cylinder == 0xffff && r.head == g.heads - 1 && r.sector == g.sectors
    ensures Increment(g, r) == r.(cylinder := 0, head := 0, sector := 1, count := (r.count - 1) % 0x100)
  {
  }
}
