/**
 * The flash primitive layer: the device's flash as a byte store with sector
 * erase, program and protection operations that report a hardware status.
 *
 * The driver underneath (erase, program, protection, sector size) is foreign code.
 * Its outcome is modelled by an oracle `hw`: the status the hardware reports for
 * the k-th status-returning operation issued since power-up. The flash follows
 * NOR rules: erasing sets every byte of a sector to 0xFF, programming can only
 * clear bits (the stored byte becomes the bitwise AND of old and new).
 */
module Flash {
  import opened ByteCodec

  /** The device's flash: 128 KB, addresses 0 .. FLASH_SIZE - 1. */
  const FLASH_SIZE: nat := 0x20000

  const FAPI_STATUS_SUCCESS: u32 := 0

  /** Status this model reports for an erase or program that leaves the device. */
  const OUT_OF_RANGE: u32 := 0xFFFF_FFFF

  /** The value of an erased byte. */
  const ERASED: byte := 0xFF

  /** The status reported for the k-th operation: hw[k], and success past its end. */
  function Reported(hw: seq<u32>, k: nat): u32
  {
    if k < |hw| then hw[k] else FAPI_STATUS_SUCCESS
  }

  datatype ProtectMode = NoProtect | WriteProtect

  /** One command issued to the flash controller, with the status it reported. */
  datatype FlashOp =
    | Protected(addr: nat, mode: ProtectMode)
    | Erased(addr: nat, status: u32)
    | Programmed(addr: nat, data: seq<byte>, status: u32)

  /** Everything the flash and its controller hold: contents, protection, operations issued, commands. */
  datatype FlashState = FlashState(mem: seq<byte>, protection: map<nat, ProtectMode>, issued: nat, trace: seq<FlashOp>)

  /** A program request: bytes and the absolute address they go to. */
  datatype Write = Write(addr: nat, data: seq<byte>)

  /**
   * The index of the sector that holds address a, for sectors of ss bytes
   * (`a / ss`, see SectorOfIsDiv), counted by whole sectors so that proofs about
   * sector loops stay in linear arithmetic.
   */
  function SectorOf(a: nat, ss: nat): nat
    requires ss > 0
    decreases a
  {
    if a < ss then 0 else 1 + SectorOf(a - ss, ss)
  }

  /** The address of sector i, for sectors of ss bytes (`i * ss`, see SectorAddrIsMul). */
  function SectorAddr(i: nat, ss: nat): nat
  {
    if i == 0 then 0 else SectorAddr(i - 1, ss) + ss
  }

  /** An address lies in the sector SectorOf names. */
  lemma {:induction false} SectorBounds(a: nat, ss: nat)
    requires ss > 0
    ensures SectorAddr(SectorOf(a, ss), ss) <= a < SectorAddr(SectorOf(a, ss), ss) + ss
    decreases a
  {
    if a >= ss {
      SectorBounds(a - ss, ss);
    }
  }

  lemma {:induction false} SectorAddrIsMul(i: nat, ss: nat)
    ensures SectorAddr(i, ss) == i * ss
  {
    if i > 0 {
      SectorAddrIsMul(i - 1, ss);
      assert (i - 1) * ss + ss == i * ss;
    }
  }

  /** Later sectors start no earlier. */
  lemma {:induction false} SectorAddrMono(i: nat, j: nat, ss: nat)
    requires i <= j
    ensures SectorAddr(i, ss) <= SectorAddr(j, ss)
    decreases j
  {
    if i < j {
      SectorAddrMono(i, j - 1, ss);
    }
  }

  /** A sector index rounds its address down. */
  lemma {:induction false} SectorRoundsDown(a: nat, ss: nat)
    requires ss > 0
    ensures SectorAddr(SectorOf(a, ss), ss) <= a
  {
    SectorBounds(a, ss);
  }

  /** Sector addresses add up. */
  lemma {:induction false} SectorAddrAdd(x: nat, y: nat, ss: nat)
    ensures SectorAddr(x + y, ss) == SectorAddr(x, ss) + SectorAddr(y, ss)
    decreases y
  {
    if y > 0 {
      SectorAddrAdd(x, y - 1, ss);
    }
  }

  lemma {:induction false} SectorOfIsDiv(a: nat, ss: nat)
    requires ss > 0
    ensures SectorOf(a, ss) == a / ss
    ensures SectorAddr(SectorOf(a, ss), ss) == a <==> a % ss == 0
  {
    var n := SectorOf(a, ss);
    SectorBounds(a, ss);
    SectorAddrIsMul(n, ss);
    DivUnique(a, ss, n);
  }

  /** NOR programming: a bit already cleared stays cleared. */
  function AndByte(a: byte, b: byte): byte
  {
    ((a as bv8) & (b as bv8)) as int
  }

  /** Programming over an erased byte stores exactly the new byte. */
  lemma {:induction false} ProgramErasedByte(b: byte)
    ensures AndByte(ERASED, b) == b
  {
  }

  /** Flash contents after erasing the addresses lo .. hi - 1. */
  function EraseRange(mem: seq<byte>, lo: nat, hi: nat): (r: seq<byte>)
    ensures |r| == |mem|
  {
    seq(|mem|, a requires 0 <= a < |mem| => if lo <= a < hi then ERASED else mem[a])
  }

  /** Flash contents after programming data at addr (bytes beyond the flash are dropped). */
  function ProgramRange(mem: seq<byte>, addr: nat, data: seq<byte>): (r: seq<byte>)
    ensures |r| == |mem|
  {
    seq(|mem|, a requires 0 <= a < |mem| =>
      if addr <= a < addr + |data| then AndByte(mem[a], data[a - addr]) else mem[a])
  }

  predicate InRange(size: nat, w: Write)
  {
    w.addr + |w.data| <= size
  }

  /** Flash contents after the first n writes of ws all succeeded, in order. */
  function ApplyWrites(mem: seq<byte>, ws: seq<Write>, n: nat): (r: seq<byte>)
    requires n <= |ws|
    ensures |r| == |mem|
  {
    if n == 0 then mem
    else ProgramRange(ApplyWrites(mem, ws, n - 1), ws[n - 1].addr, ws[n - 1].data)
  }

  /** Flash contents after every write of ws succeeded, in order. */
  function AfterWrites(mem: seq<byte>, ws: seq<Write>): (r: seq<byte>)
    ensures |r| == |mem|
  {
    ApplyWrites(mem, ws, |ws|)
  }

  /** A byte that none of the first n writes covers keeps its value. */
  lemma {:induction false} ApplyWritesOutside(mem: seq<byte>, ws: seq<Write>, n: nat, a: nat)
    requires n <= |ws|
    requires a < |mem|
    requires forall k :: 0 <= k < n ==> !(ws[k].addr <= a < ws[k].addr + |ws[k].data|)
    ensures ApplyWrites(mem, ws, n)[a] == mem[a]
  {
    if n > 0 {
      ApplyWritesOutside(mem, ws, n - 1, a);
    }
  }

  /**
   * A byte that was erased and that exactly one of the first n writes covers ends
   * up holding that write's byte.
   */
  lemma {:induction false} ApplyWritesCovered(mem: seq<byte>, ws: seq<Write>, n: nat, i: nat, a: nat)
    requires n <= |ws|
    requires i < n && ws[i].addr <= a < ws[i].addr + |ws[i].data|
    requires forall k :: 0 <= k < n && k != i ==> !(ws[k].addr <= a < ws[k].addr + |ws[k].data|)
    requires a < |mem| && mem[a] == ERASED
    ensures ApplyWrites(mem, ws, n)[a] == ws[i].data[a - ws[i].addr]
  {
    var prev := ApplyWrites(mem, ws, n - 1);
    assert ApplyWrites(mem, ws, n) == ProgramRange(prev, ws[n - 1].addr, ws[n - 1].data);
    if n - 1 == i {
      ApplyWritesOutside(mem, ws, i, a);
      ProgramErasedByte(ws[i].data[a - ws[i].addr]);
      assert prev[a] == ERASED;
    } else {
      ApplyWritesCovered(mem, ws, n - 1, i, a);
      assert !(ws[n - 1].addr <= a < ws[n - 1].addr + |ws[n - 1].data|);
    }
  }

  /**
   * The status an erase or program of the bytes below hi reports when it is the
   * operation numbered s.issued: the hardware's answer, or OUT_OF_RANGE when the
   * bytes leave the flash.
   */
  function Outcome(s: FlashState, hi: nat, hw: seq<u32>): u32
  {
    if hi <= FLASH_SIZE then Reported(hw, s.issued) else OUT_OF_RANGE
  }

  /** `ota_FlashSectorErase` of the ss-byte sector at addr: only a successful erase changes the contents. */
  function AfterErase(s: FlashState, addr: nat, ss: nat, hw: seq<u32>): FlashState
  {
    var rc := Outcome(s, addr + ss, hw);
    FlashState(
      if rc == FAPI_STATUS_SUCCESS then EraseRange(s.mem, addr, addr + ss) else s.mem,
      s.protection,
      s.issued + 1,
      s.trace + [Erased(addr, rc)])
  }

  /** `ota_FlashProgram` of w: only a successful program changes the contents. */
  function AfterProgram(s: FlashState, w: Write, hw: seq<u32>): FlashState
  {
    var rc := Outcome(s, w.addr + |w.data|, hw);
    FlashState(
      if rc == FAPI_STATUS_SUCCESS then ProgramRange(s.mem, w.addr, w.data) else s.mem,
      s.protection,
      s.issued + 1,
      s.trace + [Programmed(w.addr, w.data, rc)])
  }

  /** `ota_FlashProtectionSet` of the sector at addr: records mode for it and nothing else. */
  function AfterProtect(s: FlashState, addr: nat, mode: ProtectMode): FlashState
  {
    FlashState(s.mem, s.protection[addr := mode], s.issued, s.trace + [Protected(addr, mode)])
  }

  class FlashDevice {
    /** Contents, indexed by absolute address. */
    var mem: seq<byte>
    /** Protection mode last set for each sector, by sector address. */
    var protection: map<nat, ProtectMode>
    /** Number of status-returning operations issued so far. */
    var issued: nat
    /** Every command issued, in order. */
    ghost var trace: seq<FlashOp>

    /** `FlashSectorSizeGet()`. */
    const sectorSize: nat
    /** Statuses the hardware reports for the erases and programs, in issue order (see Reported). */
    const hw: seq<u32>

    ghost predicate Valid()
      reads this
    {
      |mem| == FLASH_SIZE && sectorSize > 0
    }

    ghost function State(): FlashState
      reads this
    {
      FlashState(mem, protection, issued, trace)
    }

    constructor (contents: seq<byte>, sectorSize: nat, hw: seq<u32>)
      requires |contents| == FLASH_SIZE && sectorSize > 0
      ensures Valid()
      ensures mem == contents && this.sectorSize == sectorSize && this.hw == hw
      ensures protection == map[] && issued == 0 && trace == []
    {
      mem := contents;
      this.sectorSize := sectorSize;
      this.hw := hw;
      protection := map[];
      issued := 0;
      trace := [];
    }

    /**
     * `ota_FlashSectorErase`: erases the sector that starts at addr and returns the
     * hardware status. A failed erase leaves the flash as it was.
     */
    method SectorErase(addr: nat) returns (rc: u32)
      requires Valid()
      modifies this
      ensures Valid()
      ensures rc == Outcome(old(State()), addr + sectorSize, hw)
      ensures State() == AfterErase(old(State()), addr, sectorSize, hw)
    {
      rc := if addr + sectorSize <= FLASH_SIZE then Reported(hw, issued) else OUT_OF_RANGE;
      if rc == FAPI_STATUS_SUCCESS {
        mem := EraseRange(mem, addr, addr + sectorSize);
      }
      issued := issued + 1;
      trace := trace + [Erased(addr, rc)];
    }

    /**
     * `ota_FlashProgram`: programs data at addr and returns the hardware status.
     * A failed program leaves the flash as it was.
     */
    method Program(data: seq<byte>, addr: nat) returns (rc: u32)
      requires Valid()
      modifies this
      ensures Valid()
      ensures rc == Outcome(old(State()), addr + |data|, hw)
      ensures State() == AfterProgram(old(State()), Write(addr, data), hw)
    {
      rc := if addr + |data| <= FLASH_SIZE then Reported(hw, issued) else OUT_OF_RANGE;
      if rc == FAPI_STATUS_SUCCESS {
        mem := ProgramRange(mem, addr, data);
      }
      issued := issued + 1;
      trace := trace + [Programmed(addr, data, rc)];
    }

    /** `ota_FlashProtectionSet`: sets the protection mode of the sector at addr. */
    method ProtectionSet(addr: nat, mode: ProtectMode)
      requires Valid()
      modifies this
      ensures Valid()
      ensures State() == AfterProtect(old(State()), addr, mode)
    {
      protection := protection[addr := mode];
      trace := trace + [Protected(addr, mode)];
    }
  }
}
