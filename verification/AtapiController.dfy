/**
 * The packet device with its fields updated in place (src/ata.cpp:566-658, 1736-1788 and 3298-3350).
 * Each method does what its function in Atapi says.
 */
module AtapiController {
  import opened Atapi

  class PacketDevice {
    /** The medium, block by block. */
    const disc: seq<seq<int>>
    const buffer: array<int>
    var bufferIndex: nat
    var drq: bool
    var drqIndex: int
    var drqBytes: int
    var byteCount: int
    var totalBytesRemaining: int
    var nextLba: int
    var remainingBlocks: int

    ghost predicate Valid() {
      IsDisc(disc) && |disc| < 0x1_0000_0000 && buffer.Length == 2048
    }

    ghost function Abs(): Device
      reads this, buffer
    {
      Device(disc, buffer[..], bufferIndex, drq, drqIndex, drqBytes, byteCount, totalBytesRemaining, nextLba,
             remainingBlocks)
    }

    constructor (disc: seq<seq<int>>)
      requires IsDisc(disc) && |disc| < 0x1_0000_0000
      ensures Valid() && this.disc == disc && !drq
    {
      this.disc := disc;
      buffer := new int[2048](_ => 0);
      bufferIndex, drq, drqIndex, drqBytes, byteCount := 0, false, 0, 0, 0;
      totalBytesRemaining, nextLba, remainingBlocks := 0, 0, 0;
    }

    /** init_send_atapi_command, for a request and an allocation of the same length. */
    method InitSend(length: int)
      requires 0 <= byteCount <= 0xffff
      modifies this`bufferIndex, this`drq, this`drqIndex, this`drqBytes, this`byteCount, this`totalBytesRemaining
      ensures byteCount == drqBytes == Piece(old(byteCount), length)
      ensures length > 0 && length % 2 == 0 ==> IsLargestEven(byteCount, old(byteCount), length)
      ensures drq && bufferIndex == 2048 && drqIndex == 0 && totalBytesRemaining == length
    {
      if length > 0 && length % 2 == 0 {
        PieceIsLargestEven(byteCount, length);
      }
      var allocLength := length;
      if byteCount == 0xffff {
        byteCount := 0xfffe;
      }
      if byteCount % 2 == 1 && !(allocLength <= byteCount) {
        byteCount := byteCount - 1;
      }
      if allocLength == 0 {
        allocLength := byteCount;
      }
      drq := true;
      bufferIndex := 2048;
      drqIndex := 0;
      totalBytesRemaining := if length < allocLength then length else allocLength;
      if byteCount > length {
        byteCount := length % 0x1_0000;
      }
      if byteCount > allocLength {
        byteCount := allocLength % 0x1_0000;
      }
      drqBytes := byteCount;
    }

    /** READ(10) and READ(12): nothing to do at the end of the disc, else the hand-over is set up. */
    method Read(lba: int, length: int) returns (started: bool)
      requires Valid() && 0 <= byteCount <= 0xffff && 0 <= lba < 0x1_0000_0000 && 0 <= length < 0x1_0000_0000
      modifies this
      ensures started == (TransferLength(lba, length, |disc|) != 0)
      ensures Abs() == if started then Start(old(Abs()), lba, TransferLength(lba, length, |disc|))
              else old(Abs()).(drq := false)
    {
      var transferLength := length;
      if (lba + transferLength) % 0x1_0000_0000 > |disc| {
        transferLength := (|disc| - lba) % 0x1_0000_0000;
      }
      if transferLength <= 0 {
        drq := false;
        return false;
      }
      InitSend(Length(transferLength));
      remainingBlocks := transferLength;
      nextLba := lba;
      return true;
    }

    /** The block that comes next is read into the buffer, if the disc has it. */
    method LoadBlock()
      requires Valid() && 2048 <= bufferIndex
      modifies this`bufferIndex, this`nextLba, this`remainingBlocks, buffer
      ensures Abs() == Load(old(Abs()))
    {
      if 0 <= nextLba < |disc| {
        forall k | 0 <= k < 2048 {
          buffer[k] := disc[nextLba][k];
        }
        assert buffer[..] == disc[nextLba];
      }
      nextLba := nextLba + 1;
      remainingBlocks := remainingBlocks - 1;
      bufferIndex := 0;
    }

    /** The byte at an index that may lie behind the buffer, where other fields of the controller are. */
    function ByteAt(i: nat, beyond: seq<int>): int
      requires buffer.Length == 2048 && i < 2048 + |beyond|
      reads buffer
    {
      if i < 2048 then buffer[i] else beyond[i - 2048]
    }

    /** The bytes of one access, low byte first. */
    method Fetch(ioLen: int, beyond: seq<int>) returns (value: int)
      requires Valid() && ioLen in {1, 2, 4} && bufferIndex < 2048 && |beyond| == 3
      ensures var bytes := Bytes(buffer[..], bufferIndex, ioLen); value == Value(bytes + beyond[..ioLen - |bytes|])
    {
      var i := bufferIndex;
      value := ByteAt(i, beyond);
      if ioLen >= 2 {
        value := value + 0x100 * ByteAt(i + 1, beyond);
      }
      if ioLen == 4 {
        value := value + 0x1_0000 * ByteAt(i + 2, beyond) + 0x100_0000 * ByteAt(i + 3, beyond);
      }
      ghost var all, bytes := buffer[..] + beyond, Bytes(buffer[..], i, ioLen);
      ValueOfBytes(all, i, ioLen);
      assert all[i..i + ioLen] == bytes + beyond[..ioLen - |bytes|];
    }

    /** A read of the data port. What an access takes from behind the buffer comes as `beyond`. */
    method ReadData(ioLen: int, beyond: seq<int>) returns (value: int)
      requires Valid() && ioLen in {1, 2, 4} && |beyond| == 3
      modifies this, buffer
      ensures Abs() == ReadPort(old(Abs()), ioLen).0
      ensures var bytes := ReadPort(old(Abs()), ioLen).1;
              value == if old(drq) then Value(bytes + beyond[..ioLen - |bytes|]) else 0
    {
      if !drq {
        return 0;
      }
      if bufferIndex >= 2048 {
        LoadBlock();
      }
      value := Fetch(ioLen, beyond);
      AccountFor(ioLen);
    }

    /** The accounting after an access. */
    method AccountFor(ioLen: nat)
      modifies this`bufferIndex, this`drqIndex, this`drq, this`totalBytesRemaining, this`byteCount, this`drqBytes
      ensures Abs() == Account(old(Abs()), ioLen)
    {
      bufferIndex := bufferIndex + ioLen;
      drqIndex := drqIndex + ioLen;
      if drqIndex >= drqBytes {
        drq := false;
        drqIndex := 0;
        totalBytesRemaining := totalBytesRemaining - drqBytes;
        if totalBytesRemaining > 0 {
          drq := true;
          if totalBytesRemaining < byteCount {
            byteCount := totalBytesRemaining;
          }
          drqBytes := byteCount;
        }
      }
    }

    /** One access of the host, which keeps the bytes of the value. */
    method TakeNext(width: int, bytes: seq<int>, ghost lba: int, ghost n: nat, ghost piece: nat)
        returns (more: seq<int>)
      requires Valid() && width in {1, 2, 4} && |bytes| < 2048 * n
      requires Delivered(disc, lba, n, piece, |bytes|, (Abs(), bytes))
      requires |bytes| % piece + width <= piece && |bytes| % 2048 + width <= 2048
      modifies this, buffer
      ensures |more| == |bytes| + width && Delivered(disc, lba, n, piece, |more|, (Abs(), more))
    {
      NextAreBytes(disc, lba, n, piece, |bytes|, Abs(), width);
      DeliveredMore(disc, lba, n, piece, |bytes|, (Abs(), bytes), width);
      more := Take(width, bytes);
    }

    method Take(width: int, bytes: seq<int>) returns (more: seq<int>)
      requires Valid() && width in {1, 2, 4} && drq
      requires var next := ReadPort(Abs(), width).1;
               |next| == width && forall k | 0 <= k < width :: 0 <= next[k] < 0x100
      modifies this, buffer
      ensures (Abs(), more) == ReadMore((old(Abs()), bytes), width) && |more| == |bytes| + width
    {
      ghost var next := ReadPort(Abs(), width).1;
      var value := ReadData(width, [0, 0, 0]);
      assert next + [0, 0, 0][..0] == next;
      SplitOfValue(next);
      more := bytes + Split(value, width);
    }

    /** The host takes the bytes of a read with accesses of any widths. */
    method TakeAll(widths: seq<nat>, ghost lba: int, ghost n: nat, ghost piece: nat) returns (bytes: seq<int>)
      requires Valid() && Reading(disc, lba, n, piece, 0, Abs()) && Accesses(widths) && Total(widths) <= 2048 * n
      requires Within(widths, piece) && Within(widths, 2048)
      modifies this, buffer
      ensures Delivered(disc, lba, n, piece, Total(widths), (Abs(), bytes))
    {
      bytes := [];
      DeliveredNothing(disc, lba, n, piece, Abs());
      for i := 0 to |widths|
        invariant |bytes| == Total(widths[..i]) && Delivered(disc, lba, n, piece, |bytes|, (Abs(), bytes))
      {
        Prefix(widths, i + 1);
        assert widths[..i + 1][..i] == widths[..i];
        bytes := TakeNext(widths[i], bytes, lba, n, piece);
      }
      assert widths[..|widths|] == widths;
    }

    /** A READ command and the host that takes its bytes: the blocks asked for, as far as the disc has them. */
    method Transfer(lba: int, length: int, widths: seq<nat>) returns (bytes: seq<int>)
      requires Valid() && 0 <= byteCount <= 0xffff && Accesses(widths)
      requires 0 <= lba <= |disc| && 0 <= length < 0x1_0000_0000
      requires !(0x1_0000_0000 <= lba + length <= 0x1_0000_0000 + |disc|)
      requires var n := Available(lba, length, |disc|);
               n > 0 ==> && n < 0x10_0000 && 2 <= byteCount && Total(widths) == 2048 * n
                         && Within(widths, Piece(byteCount, 2048 * n)) && Within(widths, 2048)
      modifies this, buffer
      ensures bytes == Blocks(disc, lba, Available(lba, length, |disc|)) && !drq
    {
      ghost var n, d := Available(lba, length, |disc|), Abs();
      TransferLengthIff(lba, length, |disc|);
      var started := Read(lba, length);
      if started {
        StartReads(d, lba, n);
        bytes := TakeAll(widths, lba, n, Piece(d.byteCount, 2048 * n));
        DeliveredAll(disc, lba, n, Piece(d.byteCount, 2048 * n), (Abs(), bytes));
      } else {
        bytes := [];
      }
    }
  }
}
