/**
 * The ATA controller with its registers and buffer updated in place (src/ata.cpp:387-521, 1149-1273,
 * 2004-2091, 2781-2840 and 3422-3437). Each method does what its function in AtaDisk says.
 */
module AtaController {
  import opened AtaAddress
  import opened AtaDisk

  class Controller {
    const geo: Geometry
    const byteswap: bool
    var lbaMode: bool
    var headNo: int
    var cylinderNo: int
    var sectorNo: int
    var sectorCount: int
    const buffer: array<int>
    var bufferIndex: int
    var currentCommand: int
    var drq: bool
    var err: bool
    /** The disk image, sector by sector. */
    var image: seq<seq<int>>

    ghost predicate Valid()
      reads this, buffer
    {
      DriveOk(Abs())
    }

    constructor (geo: Geometry, byteswap: bool, image: seq<seq<int>>)
      requires ValidGeometry(geo) && |image| == Capacity(geo) && forall q | 0 <= q < |image| :: |image[q]| == 512
      ensures Valid() && Abs().geo == geo && Abs().swap == byteswap && Abs().disk == image && !drq
    {
      this.geo, this.byteswap, this.image := geo, byteswap, image;
      lbaMode, headNo, cylinderNo, sectorNo, sectorCount := false, 0, 0, 1, 1;
      buffer := new int[2048](_ => 0);
      bufferIndex, currentCommand, drq, err := 0, 0, false, false;
    }

    ghost function Abs(): Drive
      reads this, buffer
    {
      Drive(geo, byteswap, TaskFile(), buffer[..], bufferIndex, currentCommand, drq, err, image)
    }

    /** calculate_logical_address. */
    method CalculateLogicalAddress() returns (ok: bool, sector: int)
      requires Valid()
      ensures sector == Logical(geo, Abs().regs) && ok == InBounds(geo, Abs().regs)
      ensures 0 <= sector && (ok ==> sector < |image|)
    {
      if lbaMode {
        sector := headNo * 0x100_0000 + cylinderNo * 0x100 + sectorNo;
      } else {
        sector := (cylinderNo * geo.heads * geo.sectors + headNo * geo.sectors + (sectorNo - 1)) % 0x1_0000_0000;
      }
      ok := sector < geo.cylinders * geo.heads * geo.sectors;
    }

    function TaskFile(): Regs
      reads this
    {
      Regs(lbaMode, headNo, cylinderNo, sectorNo, sectorCount)
    }

    /** increment_address. */
    method IncrementAddress()
      requires Valid()
      modifies this`sectorCount, this`headNo, this`cylinderNo, this`sectorNo
      ensures Valid() && Abs() == old(Abs()).(regs := Increment(geo, old(Abs()).regs))
    {
      if lbaMode {
        StepLba();
      } else {
        StepChs();
      }
    }

    method StepLba()
      requires ValidGeometry(geo) && ValidRegs(TaskFile()) && lbaMode
      modifies this`sectorCount, this`headNo, this`cylinderNo, this`sectorNo
      ensures ValidRegs(TaskFile()) && TaskFile() == Increment(geo, old(TaskFile()))
    {
      sectorCount := (sectorCount - 1) % 0x100;
      var current := headNo * 0x100_0000 + cylinderNo * 0x100 + sectorNo;
      current := current + 1;
      headNo := current / 0x100_0000 % 0x10;
      cylinderNo := current / 0x100 % 0x1_0000;
      sectorNo := current % 0x100;
    }

    method StepChs()
      requires ValidGeometry(geo) && ValidRegs(TaskFile()) && !lbaMode
      modifies this`sectorCount, this`headNo, this`cylinderNo, this`sectorNo
      ensures ValidRegs(TaskFile()) && TaskFile() == Increment(geo, old(TaskFile()))
    {
      sectorCount := (sectorCount - 1) % 0x100;
      sectorNo := (sectorNo + 1) % 0x100;
      if sectorNo > geo.sectors || sectorNo == 0 {
        sectorNo := 1;
        headNo := (headNo + 1) % 0x100;
        if headNo >= geo.heads {
          headNo := 0;
          cylinderNo := (cylinderNo + 1) % 0x1_0000;
          if cylinderNo >= geo.cylinders {
            cylinderNo := geo.cylinders - 1;
          }
        }
      }
    }

    /** command_aborted. */
    method CommandAborted()
      requires Valid()
      modifies this`currentCommand, this`err, this`drq, this`bufferIndex
      ensures Valid() && Abs() == Abort(old(Abs()))
    {
      currentCommand := 0;
      err := true;
      drq := false;
      bufferIndex := 0;
    }

    /** Read one sector of the image into the buffer. */
    method LoadSector(sector: int)
      requires Valid() && 0 <= sector < |image|
      modifies buffer
      ensures Valid() && Abs() == old(Abs()).(buffer := image[sector] + old(buffer[512..]))
    {
      forall k | 0 <= k < 512 {
        buffer[k] := image[sector][k];
      }
      assert buffer[..] == image[sector] + old(buffer[512..]);
    }

    /** The stores of a data-port write. */
    method StoreAccess(value: int, ioLen: int)
      requires Valid() && ioLen in {1, 2, 4}
      modifies buffer
      ensures Valid() && Abs() == old(Abs()).(buffer := Put(old(buffer[..]), bufferIndex, ioLen, value, byteswap))
    {
      var i := bufferIndex;
      if ioLen == 4 {
        if byteswap {
          buffer[i] := value / 0x100_0000 % 0x100;
          buffer[i + 1] := value / 0x1_0000 % 0x100;
          buffer[i + 2] := value / 0x100 % 0x100;
          buffer[i + 3] := value % 0x100;
        } else {
          buffer[i + 1] := value / 0x100_0000 % 0x100;
          buffer[i] := value / 0x1_0000 % 0x100;
          buffer[i + 3] := value / 0x100 % 0x100;
          buffer[i + 2] := value % 0x100;
        }
      } else if ioLen == 2 {
        if byteswap {
          buffer[i] := value / 0x100 % 0x100;
          buffer[i + 1] := value % 0x100;
        } else {
          buffer[i + 1] := value / 0x100 % 0x100;
          buffer[i] := value % 0x100;
        }
      }
      assert buffer[..] == Put(old(buffer[..]), bufferIndex, ioLen, value, byteswap);
    }

    /** The WRITE SECTORS path of a write to the data port. */
    method WriteData(value: int, ioLen: int)
      requires Valid() && currentCommand == WRITE_SECTORS && ioLen in {1, 2, 4}
      modifies this, buffer
      ensures Valid() && Abs() == WritePort(old(Abs()), ioLen, value)
    {
      StoreAccess(value, ioLen);
      if bufferIndex + ioLen < 512 {
        bufferIndex := bufferIndex + ioLen;
        return;
      }
      var ok, sector := CalculateLogicalAddress();
      if !ok {
        CommandAborted();
        return;
      }
      StoreSector(sector);
      drq := sectorCount != 0;
      err := false;
    }

    /** Write the full buffer to the image and step to the next sector. */
    method StoreSector(sector: int)
      requires Valid() && 0 <= sector < |image|
      modifies this
      ensures Valid()
      ensures Abs() == old(Abs()).(disk := old(image)[sector := buffer[..512]], index := 0,
                                   regs := Increment(geo, old(TaskFile())))
    {
      image := image[sector := buffer[..512]];
      bufferIndex := 0;
      IncrementAddress();
    }

    /** The READ SECTORS path of a read from the data port. */
    method ReadData(ioLen: int) returns (value: int)
      requires Valid() && ioLen in {1, 2, 4}
      requires currentCommand == READ_SECTORS || currentCommand == READ_SECTORS_NO_RETRY
      modifies this, buffer
      ensures Valid() && (Abs(), value) == ReadPort(old(Abs()), ioLen)
    {
      if !drq {
        return 0;
      }
      value := Get(buffer[..], bufferIndex, ioLen, byteswap);
      if bufferIndex + ioLen < 512 {
        bufferIndex := bufferIndex + ioLen;
        return;
      }
      bufferIndex := 0;
      IncrementAddress();
      err := false;
      if sectorCount == 0 {
        drq := false;
        return;
      }
      var ok, sector := CalculateLogicalAddress();
      if !ok {
        CommandAborted();
        return;
      }
      LoadSector(sector);
    }

    /** The command register: WRITE SECTORS. */
    method WriteSectors()
      requires Valid()
      modifies this`currentCommand, this`drq, this`err, this`bufferIndex
      ensures Valid() && Abs() == StartWrite(old(Abs()))
    {
      currentCommand := WRITE_SECTORS;
      drq := true;
      err := false;
      bufferIndex := 0;
    }

    /** The command register: READ SECTORS, with or without retries. */
    method ReadSectors(command: int)
      requires Valid() && (command == READ_SECTORS || command == READ_SECTORS_NO_RETRY)
      modifies this, buffer
      ensures Valid() && Abs() == StartRead(old(Abs()), command)
      ensures !InBounds(geo, TaskFile()) ==> err && !drq && currentCommand == 0
    {
      currentCommand := command;
      if !lbaMode && headNo == 0 && cylinderNo == 0 && sectorNo == 0 {
        CommandAborted();
        return;
      }
      var ok, sector := CalculateLogicalAddress();
      if !ok {
        CommandAborted();
        return;
      }
      BeginRead(sector);
    }

    /** The first sector of a read. */
    method BeginRead(sector: int)
      requires Valid() && 0 <= sector < |image|
      modifies this`err, this`drq, this`bufferIndex, buffer
      ensures Valid()
      ensures Abs() == old(Abs()).(buffer := image[sector] + old(buffer[512..]), err := false, drq := true, index := 0)
    {
      LoadSector(sector);
      err := false;
      drq := true;
      bufferIndex := 0;
    }

    /** A transfer of n sectors to the disk: WRITE SECTORS and the host's accesses. */
    method SendStream(accesses: seq<Access>, ghost start: int, ghost n: int)
      requires Valid() && PointsTo(geo, TaskFile(), start) && 1 <= n <= 256 && sectorCount == n % 0x100
      requires start + n <= Capacity(geo)
      requires Aligned(accesses) && |Stream(accesses)| <= 512 * n
      modifies this, buffer
      ensures Valid() && Abs() == WriteAll(StartWrite(old(Abs())), accesses)
      ensures Written(old(Abs()), start, n, Stream(accesses), Abs())
    {
      ghost var d := Abs();
      WriteSectors();
      for i := 0 to |accesses|
        invariant Valid() && Aligned(accesses[..i]) && Abs() == WriteAll(StartWrite(d), accesses[..i])
      {
        AlignedPrefix(accesses, i + 1);
        assert accesses[..i + 1][..i] == accesses[..i];
        WriteRun(d, start, n, accesses[..i]);
        WriteData(accesses[i].value, accesses[i].width);
      }
      assert accesses[..|accesses|] == accesses;
      WriteRun(d, start, n, accesses);
    }

    /** A transfer of n sectors that hold the bytes s from the disk: READ SECTORS and the host's accesses. */
    method ReceiveStream(command: int, widths: seq<int>, ghost start: int, ghost n: int, ghost s: seq<int>,
                         ghost before: seq<seq<int>>)
      returns (bytes: seq<int>)
      requires Valid() && PointsTo(geo, TaskFile(), start) && 1 <= n <= 256 && sectorCount == n % 0x100
      requires start + n <= Capacity(geo)
      requires command == READ_SECTORS || command == READ_SECTORS_NO_RETRY
      requires AlignedReads(widths) && Total(widths) <= 512 * n
      requires |s| == 512 * n && DiskHolds(before, image, start, n, s, byteswap)
      requires forall k | 0 <= k < |s| :: 0 <= s[k] < 0x100
      modifies this, buffer
      ensures Valid() && Delivered(old(Abs()), start, n, s, Total(widths), Abs(), bytes)
    {
      ghost var d := Abs();
      ReadSectors(command);
      bytes := [];
      for i := 0 to |widths|
        invariant Valid() && AlignedReads(widths[..i]) && (Abs(), bytes) == ReadAll(StartRead(d, command), widths[..i])
      {
        AlignedReadsPrefix(widths, i);
        AlignedReadsPrefix(widths, i + 1);
        assert widths[..i + 1][..i] == widths[..i];
        ReadRun(d, start, n, command, widths[..i], before, s);
        var value := ReadData(widths[i]);
        bytes := bytes + HostBytes(value, widths[i]);
      }
      assert widths[..|widths|] == widths;
      ReadRun(d, start, n, command, widths, before, s);
    }

    /** The host writes the task file. */
    method SetTaskFile(regs: Regs)
      requires Valid() && ValidRegs(regs)
      modifies this`lbaMode, this`headNo, this`cylinderNo, this`sectorNo, this`sectorCount
      ensures Valid() && Abs() == old(Abs()).(regs := regs)
    {
      lbaMode, headNo, cylinderNo := regs.lbaMode, regs.head, regs.cylinder;
      sectorNo, sectorCount := regs.sector, regs.count;
    }

    /** What is written comes back: the bytes read are the stream sent, and no other sector changes. */
    method RoundTrip(accesses: seq<Access>, regs: Regs, command: int, widths: seq<int>, ghost start: int, ghost n: int)
      returns (bytes: seq<int>)
      requires Valid() && PointsTo(geo, TaskFile(), start) && PointsTo(geo, regs, start) && 1 <= n <= 256
      requires sectorCount == n % 0x100 && regs.count == n % 0x100 && start + n <= Capacity(geo)
      requires command == READ_SECTORS || command == READ_SECTORS_NO_RETRY
      requires Aligned(accesses) && |Stream(accesses)| == 512 * n && AlignedReads(widths) && Total(widths) == 512 * n
      modifies this, buffer
      ensures Valid() && bytes == Stream(accesses) && !drq && !err && |image| == |old(image)|
      ensures forall q | 0 <= q < |image| && !(start <= q < start + n) :: image[q] == old(image)[q]
    {
      ghost var before := image;
      SendStream(accesses, start, n);
      SetTaskFile(regs);
      StreamOfBytes(accesses);
      bytes := ReceiveStream(command, widths, start, n, Stream(accesses), before);
      assert Stream(accesses)[..512 * n] == Stream(accesses);
    }
  }
}
