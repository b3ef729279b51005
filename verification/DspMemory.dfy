/**
 * The data and program memory of the Falcon's DSP with its peripheral registers (src/dsp_cpu.c:1147-1271).
 */
module DspMemory {
  import opened Division
  import opened HostPort

  datatype Space = X | Y | P

  /**
   * Where an address lives: internal RAM, internal ROM, a peripheral register, or the external RAM
   * all spaces share.
   */
  datatype Cell =
    | Internal(space: Space, at: int)
    | Table(space: Space, at: int)
    | Periph(space: Space, at: int)
    | External(at: int)

  // Registers of the host port, from 0xffc0 on: control, status, and the data register of both directions.
  const HCR := 0x28
  const HSR := 0x29
  const HRX := 0x2b
  const HTX := 0x2b

  /** The memory map; `tables` is the DE bit of OMR, which shows the ROM tables at 0x100..0x1ff. */
  function CellOf(space: Space, address: int, tables: bool): Cell
    requires 0 <= address < 0x1_0000
  {
    if address < 0x100 then Internal(space, address)
    else if space == P then (if address < 0x200 then Internal(P, address) else External(address % 0x8000))
    else if tables && address < 0x200 then Table(space, address)
    else if address >= 0xffc0 then Periph(space, address - 0xffc0)
    else if space == X then External((address + 0x4000) % 0x1_0000 % 0x8000)
    else External(address % 0x8000)
  }

  predicate ReadOnly(c: Cell) {
    c.Table? || c == Periph(X, HSR)
  }

  /** X and Y of one address never share a cell. */
  lemma ImagesDisjoint(address: int, tables: bool)
    requires 0 <= address < 0x1_0000
    ensures CellOf(X, address, tables) != CellOf(Y, address, tables)
  {
    if !(address < 0x100 || (tables && address < 0x200)) {
      var low := address % 0x8000;
      if low < 0x4000 {
        Quotient(address + 0x4000, 0x8000, address / 0x8000, low + 0x4000);
      } else {
        Quotient(address + 0x4000, 0x8000, address / 0x8000 + 1, low - 0x4000);
      }
      ModuloTwice(address + 0x4000);
    }
  }

  /** Addresses of the RAM that all spaces share. */
  predicate InSharedRam(space: Space, address: int, tables: bool) {
    match space
    case P => 0x200 <= address < 0x1_0000
    case _ => (if tables then 0x200 else 0x100) <= address < 0xffc0
  }

  /** Where in the 32K of that RAM an address lies: X lies 16K above Y and P. */
  function RamOffset(space: Space, address: int): int {
    if space == X then address + 0x4000 else address
  }

  /** Two addresses name one cell if they are the same, or the same word of the shared RAM, and only then. */
  lemma SameCellIff(s1: Space, a1: int, s2: Space, a2: int, tables: bool)
    requires 0 <= a1 < 0x1_0000 && 0 <= a2 < 0x1_0000
    ensures CellOf(s1, a1, tables) == CellOf(s2, a2, tables) <==>
              || (s1 == s2 && a1 == a2)
              || (InSharedRam(s1, a1, tables) && InSharedRam(s2, a2, tables)
                  && (RamOffset(s1, a1) - RamOffset(s2, a2)) % 0x8000 == 0)
  {
    ModuloTwice(a1 + 0x4000);
    ModuloTwice(a2 + 0x4000);
    SameRemainder(RamOffset(s1, a1), RamOffset(s2, a2));
  }

  lemma SameRemainder(x: int, y: int)
    ensures x % 0x8000 == y % 0x8000 <==> (x - y) % 0x8000 == 0
  {
    var p, q := x / 0x8000, y / 0x8000;
    if x % 0x8000 == y % 0x8000 {
      Quotient(x - y, 0x8000, p - q, 0);
    } else if (x - y) % 0x8000 == 0 {
      Quotient(x, 0x8000, q + (x - y) / 0x8000, y % 0x8000);
    }
  }

  /** Cutting a value to 24 bits keeps its low bits. */
  lemma LowBits(value: int)
    ensures var v := value % 0x100_0000; v / 8 % 2 == value / 8 % 2 && v / 16 % 2 == value / 16 % 2
  {
    var q, v := value / 0x100_0000, value % 0x100_0000;
    Quotient(value, 8, q * 0x20_0000 + v / 8, v % 8);
    Quotient(value / 8, 2, q * 0x10_0000 + v / 8 / 2, v / 8 % 2);
    Quotient(value, 16, q * 0x10_0000 + v / 16, v % 16);
    Quotient(value / 16, 2, q * 0x8_0000 + v / 16 / 2, v / 16 % 2);
  }

  lemma ModuloTwice(x: int)
    ensures x % 0x1_0000 % 0x8000 == x % 0x8000
  {
  }

  class Memory {
    const ramint: array2<int>
    const rom: array2<int>
    const ram: array<int>
    const periph: array2<int>
    const host: HostInterface
    var tables: bool

    ghost predicate Valid()
      reads this, ramint, rom, ram, periph, host, host.hostport
    {
      && ramint.Length0 == 3 && ramint.Length1 == 512
      && rom.Length0 == 2 && rom.Length1 == 512
      && ram.Length == 0x8000 && periph.Length0 == 2 && periph.Length1 == 64
      && ramint != rom && ramint != periph && periph != rom
      && host.Valid() && host.hostport != ram
    }

    /** Zeroed memory with the given ROM tables hidden, as after a reset. */
    constructor (rom: array2<int>, host: HostInterface)
      requires rom.Length0 == 2 && rom.Length1 == 512 && host.Valid()
      ensures Valid() && this.rom == rom && this.host == host && !tables
    {
      this.rom, this.host := rom, host;
      ramint := new int[3, 512]((_, _) => 0);
      ram := new int[0x8000](_ => 0);
      periph := new int[2, 64]((_, _) => 0);
      tables := false;
    }

    static function Number(space: Space): (i: int)
      ensures 0 <= i < 3
    {
      match space case X => 0 case Y => 1 case P => 2
    }

    /** The host status register on the DSP's side. */
    function Status(): int
      reads host
    {
      (if host.hrdf then 1 else 0) + (if host.htde then 2 else 0) + (if host.hcp then 4 else 0)
      + (if host.hf0 then 8 else 0) + (if host.hf1 then 16 else 0)
    }

    /** The word a cell holds. */
    ghost function Held(c: Cell): int
      requires Valid()
      reads this, ramint, rom, ram, periph, host, host.hostport
    {
      match c
      case Internal(space, at) => if 0 <= at < 512 then ramint[Number(space), at] % 0x100_0000 else 0
      case Table(space, at) => if space != P && 0 <= at < 512 then rom[Number(space), at] % 0x100_0000 else 0
      case External(at) => if 0 <= at < 0x8000 then ram[at] % 0x100_0000 else 0
      case Periph(space, at) =>
        if space == X && at == HSR then Status()
        else if space == X && at == HRX then host.cell
        else if space != P && 0 <= at < 64 then periph[Number(space), at] % 0x100_0000 else 0
    }

    /** read_memory: the word of the cell; a read of HRX moves the handshake of the host port first. */
    method Read(space: Space, address: int) returns (value: int)
      requires Valid() && 0 <= address < 0x1_0000
      modifies host`cell, host`hrdf, host`txde, host`trdy
      ensures Valid() && value == Held(CellOf(space, address, tables))
      ensures tables && 0x100 <= address < 0x200 && space == X ==> value == rom[0, address] % 0x100_0000
      ensures tables && 0x100 <= address < 0x200 && space == Y ==> value == rom[1, address] % 0x100_0000
      ensures space == X && address == 0xffe9 ==>
                ShowsFlags(value, old(host.hrdf), old(host.htde), host.hcp, host.hf0, host.hf1)
      ensures space == X && address == 0xffeb ==> value == DspRead(old(host.Abs())).cell
      ensures host.Abs() == if space == X && address == 0xffeb then DspRead(old(host.Abs())) else old(host.Abs())
    {
      if address < 0x100 {
        return ramint[Number(space), address] % 0x100_0000;
      }
      if space == P {
        if address < 0x200 {
          return ramint[Number(P), address] % 0x100_0000;
        }
        return ram[address % 0x8000] % 0x100_0000;
      }
      if tables && address < 0x200 {
        return rom[Number(space), address] % 0x100_0000;
      }
      if address >= 0xffc0 {
        value := ReadPeriph(space, address - 0xffc0);
        return;
      }
      var a := address;
      if space == X {
        a := (a + 0x4000) % 0x1_0000;
      }
      return ram[a % 0x8000] % 0x100_0000;
    }

    method ReadPeriph(space: Space, at: int) returns (value: int)
      requires Valid() && space != P && 0 <= at < 64
      modifies host`cell, host`hrdf, host`txde, host`trdy
      ensures Valid() && value == Held(Periph(space, at))
      ensures host.Abs() == if space == X && at == HRX then DspRead(old(host.Abs())) else old(host.Abs())
    {
      if space == X && at == HRX {
        value := host.DspReads();
      } else if space == X && at == HSR {
        value := Status();
      } else {
        value := periph[Number(space), at] % 0x100_0000;
      }
    }

    /**
     * write_memory_raw: one cell changes, ROM tables and the host status register are not written. A
     * write of HTX moves the handshake of the host port, one of HCR shows its flags to the host.
     */
    method Write(space: Space, address: int, value: int)
      requires Valid() && 0 <= address < 0x1_0000
      modifies ramint, ram, periph, host`cell, host`htde, host`rxdf, host`hf2, host`hf3, host.hostport
      ensures Valid()
      ensures forall c: Cell | c != Periph(X, HSR) ::
                Held(c) == if c == CellOf(space, address, tables) && !ReadOnly(c) then value % 0x100_0000
                           else old(Held(c))
      ensures host.Abs() == if space == X && address == 0xffeb then DspWrite(old(host.Abs()), value % 0x100_0000)
              else old(host.Abs())
      ensures (host.hf2, host.hf3) == if space == X && address == 0xffe8 then (value / 8 % 2 == 1, value / 16 % 2 == 1)
              else (old(host.hf2), old(host.hf3))
    {
      var v := value % 0x100_0000;
      if address < 0x100 {
        ramint[Number(space), address] := v;
        return;
      }
      if space != P && tables && address < 0x200 {
        return;
      }
      if space != P && address >= 0xffc0 {
        LowBits(value);
        WritePeriph(space, address - 0xffc0, v);
        return;
      }
      if space == P && address < 0x200 {
        ramint[Number(P), address] := v;
        return;
      }
      var a := address;
      if space == X {
        a := (a + 0x4000) % 0x1_0000;
      }
      ram[a % 0x8000] := v;
    }

    /** The pair of words that a long move transfers. */
    method ReadLong(address: int) returns (high: int, low: int)
      requires Valid() && 0 <= address < 0x1_0000
      modifies host`cell, host`hrdf, host`txde, host`trdy
      ensures Valid() && high == Held(CellOf(X, address, tables)) && low == Held(CellOf(Y, address, tables))
      ensures 0 <= high < 0x100_0000 && 0 <= low < 0x100_0000
    {
      high := Read(X, address);
      low := Read(Y, address);
    }

    method WriteLong(address: int, high: int, low: int)
      requires Valid() && 0 <= address < 0x1_0000 && 0 <= high < 0x100_0000 && 0 <= low < 0x100_0000
      modifies ramint, ram, periph, host`cell, host`htde, host`rxdf, host`hf2, host`hf3, host.hostport
      ensures Valid()
      ensures forall c: Cell | !ReadOnly(c) ::
                Held(c) == if c == CellOf(Y, address, tables) then low
                           else if c == CellOf(X, address, tables) then high
                           else old(Held(c))
    {
      Write(X, address, high);
      Write(Y, address, low);
    }

    method WritePeriph(space: Space, at: int, value: int)
      requires Valid() && space != P && 0 <= at < 64 && 0 <= value < 0x100_0000
      modifies periph, host`cell, host`htde, host`rxdf, host`hf2, host`hf3, host.hostport
      ensures Valid()
      ensures forall c: Cell | c != Periph(X, HSR) :: Held(c) == if c == Periph(space, at) then value else old(Held(c))
      ensures host.Abs() == if space == X && at == HTX then DspWrite(old(host.Abs()), value) else old(host.Abs())
      ensures (host.hf2, host.hf3) == if space == X && at == HCR then (value / 8 % 2 == 1, value / 16 % 2 == 1)
              else (old(host.hf2), old(host.hf3))
    {
      if space == X && at == HTX {
        host.DspWrites(value);
      } else if space == X && at == HCR {
        periph[0, HCR] := value;
        host.hf2, host.hf3 := value / 8 % 2 == 1, value / 16 % 2 == 1;
      } else if space == Y || at != HSR {
        periph[Number(space), at] := value;
      }
    }

    /** What is written to one RAM address is read at every address that shares its cell, and at no other. */
    method WriteThenRead(s1: Space, a1: int, value: int, s2: Space, a2: int) returns (got: int)
      requires Valid() && 0 <= a1 < 0x1_0000 && 0 <= a2 < 0x1_0000
      requires InSharedRam(s1, a1, tables) && InSharedRam(s2, a2, tables)
      modifies ramint, ram, periph, host, host.hostport
      ensures Valid()
      ensures got == if (RamOffset(s1, a1) - RamOffset(s2, a2)) % 0x8000 == 0 then value % 0x100_0000
                     else old(Held(CellOf(s2, a2, tables)))
    {
      SameCellIff(s1, a1, s2, a2, tables);
      Write(s1, a1, value);
      got := Read(s2, a2);
    }

    /** P and Y are one RAM, and X is the same RAM 16K higher. */
    method ProgramInY(address: int, value: int) returns (y: int, x: int)
      requires Valid() && 0x200 <= address < 0xbfc0
      modifies ramint, ram, periph, host, host.hostport
      ensures y == value % 0x100_0000
      ensures x == value % 0x100_0000
    {
      y := WriteThenRead(P, address, value, Y, address);
      x := WriteThenRead(X, address, value, Y, address + 0x4000);
    }
  }
}
