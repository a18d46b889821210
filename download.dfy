/**
 * The download session (`struct ota_dl_state` and `ota_dl_init`, `ota_dl_begin`,
 * `ota_dl_process`, `ota_dl_finish`): choose the target zone and generation, erase
 * the target's sectors, program the payload at a running offset, and commit the
 * metadata with the done word last.
 *
 * The effect of each series of flash commands is described on FlashState values:
 * one function per command (AfterErase, AfterProgram, AfterProtect), one per series (AfterBegin,
 * AfterPrograms, ProtectAll), and a lemma that one more command extends a series.
 */
module Download {
  import opened ByteCodec
  import opened OtaLayout
  import opened Flash
  import opened ZoneStore

  /**
   * The zone and generation a new download targets: zone 0 and gen 0 when no zone
   * is valid, otherwise the zone after the authoritative one and its gen plus one
   * (in `unsigned long` arithmetic).
   */
  function NextTarget(metas: seq<Metadata>): (r: (ZoneIndex, u32))
    requires |metas| == NR_OTA_ZONES
    ensures SelectZone(metas) == -1 ==> r == (0, 0)
    ensures SelectZone(metas) >= 0 ==>
      r.0 != SelectZone(metas) && r.1 == metas[SelectZone(metas)].gen + 1
  {
    var cur := SelectZone(metas);
    if cur < 0 then (0, 0)
    else ((cur + 1) % NR_OTA_ZONES, (metas[cur].gen + 1) % U32_LIMIT)
  }

  /** The n operations issued from the start-th on all reported success. */
  predicate Succeeded(hw: seq<u32>, start: nat, n: nat)
  {
    n == 0 || (Succeeded(hw, start, n - 1) && Reported(hw, start + n - 1) == FAPI_STATUS_SUCCESS)
  }

  /**
   * Where a series of n operations issued from the start-th stops when it stops at
   * its first failure: the index of the first one that reported a failure, n when
   * none did.
   */
  function FirstFailure(hw: seq<u32>, start: nat, n: nat): (k: nat)
    ensures k <= n && Succeeded(hw, start, k)
    ensures k < n ==> Reported(hw, start + k) != FAPI_STATUS_SUCCESS
  {
    if n == 0 then 0
    else
      var k := FirstFailure(hw, start, n - 1);
      if k < n - 1 || Reported(hw, start + n - 1) != FAPI_STATUS_SUCCESS then k else n
  }

  /** Every operation of a series that all succeeded reported success. */
  lemma {:induction false} SucceededAt(hw: seq<u32>, start: nat, j: nat, k: nat)
    requires j < k && Succeeded(hw, start, k)
    ensures Reported(hw, start + j) == FAPI_STATUS_SUCCESS
    decreases k
  {
    if j < k - 1 {
      SucceededAt(hw, start, j, k - 1);
    }
  }

  /**
   * A series that stops at its first failure stops in exactly one place: k
   * operations that all succeeded followed by a failure (or the end) is
   * FirstFailure.
   */
  lemma {:induction false} FirstFailureUnique(hw: seq<u32>, start: nat, n: nat, k: nat)
    requires k <= n && Succeeded(hw, start, k)
    requires k < n ==> Reported(hw, start + k) != FAPI_STATUS_SUCCESS
    ensures k == FirstFailure(hw, start, n)
  {
    var f := FirstFailure(hw, start, n);
    if k < f {
      SucceededAt(hw, start, k, f);
    } else if f < k {
      SucceededAt(hw, start, f, k);
    }
  }

  /** The status a series that stops at its first failure returns: that failure's, or success. */
  function SeriesStatus(hw: seq<u32>, start: nat, n: nat): u32
  {
    var k := FirstFailure(hw, start, n);
    if k < n then Reported(hw, start + k) else FAPI_STATUS_SUCCESS
  }

  /** A series that stops at its first failure returns success exactly when every operation succeeded. */
  lemma {:induction false} SeriesStatusSuccess(hw: seq<u32>, start: nat, n: nat)
    ensures SeriesStatus(hw, start, n) == FAPI_STATUS_SUCCESS <==> Succeeded(hw, start, n)
  {
    var k := FirstFailure(hw, start, n);
    if k < n && Succeeded(hw, start, n) {
      SucceededAt(hw, start, k, n);
    }
  }

  /** The protection map after setting mode on the n sectors from sector first. */
  function SetProtection(prot: map<nat, ProtectMode>, first: nat, ss: nat, n: nat, mode: ProtectMode): map<nat, ProtectMode>
  {
    if n == 0 then prot
    else SetProtection(prot, first, ss, n - 1, mode)[SectorAddr(first + n - 1, ss) := mode]
  }

  /**
   * The commands of `ota_dl_begin` for the first n sectors from sector first, when
   * the erases reported the statuses Reported(hw, start), Reported(hw, start + 1), ...
   */
  ghost function UnprotectErase(first: nat, ss: nat, hw: seq<u32>, start: nat, n: nat): seq<FlashOp>
  {
    if n == 0 then []
    else
      var a := SectorAddr(first + n - 1, ss);
      UnprotectErase(first, ss, hw, start, n - 1) + [Protected(a, NoProtect), Erased(a, Reported(hw, start + n - 1))]
  }

  /** Setting mode on n sectors from sector first, one command per sector in ascending order. */
  ghost function ProtectOps(first: nat, ss: nat, n: nat, mode: ProtectMode): seq<FlashOp>
  {
    if n == 0 then [] else ProtectOps(first, ss, n - 1, mode) + [Protected(SectorAddr(first + n - 1, ss), mode)]
  }

  /** Program commands for the first n writes of ws, when they reported the statuses Reported(hw, start), Reported(hw, start + 1), ... */
  ghost function ProgramOps(ws: seq<Write>, hw: seq<u32>, start: nat, n: nat): seq<FlashOp>
    requires n <= |ws|
  {
    if n == 0 then []
    else ProgramOps(ws, hw, start, n - 1) + [Programmed(ws[n - 1].addr, ws[n - 1].data, Reported(hw, start + n - 1))]
  }

  /** The three writes of `ota_dl_finish`, in the order they are issued. */
  function CommitWrites(t: ZoneIndex, gen: u32, entrypoint: u32): (ws: seq<Write>)
    ensures |ws| == 3
    ensures ws[0].addr == EntrypointAddr(t) && ws[1].addr == GenAddr(t) && ws[2].addr == DoneAddr(t)
    ensures forall k :: 0 <= k < 3 ==> |ws[k].data| == WORD_SIZE && InRange(FLASH_SIZE, ws[k])
  {
    RegionLayout();
    WidthLimits();
    [Write(EntrypointAddr(t), U32Bytes(entrypoint)),
     Write(GenAddr(t), U32Bytes(gen)),
     Write(DoneAddr(t), U32Bytes(OTA_DONE_MAGIC))]
  }

  /**
   * As written: the byte count `ota_FlashProgram` hands the driver for a program
   * of data at addr. The address argument is passed where the count belongs.
   */
  function ProgramCountAsWritten(data: seq<byte>, addr: nat): nat
  {
    addr
  }

  /**
   * Every program of `ota_dl_process` and `ota_dl_finish` targets the update
   * region, so as written each asks the driver for at least OTA_FLASH_BASE bytes:
   * more than a payload buffer that fits a zone holds, and more than the 4-byte
   * trailer words.
   */
  lemma {:induction false} ProgramCountOverruns(t: ZoneIndex, offset: nat, data: seq<byte>, gen: u32, entrypoint: u32)
    requires |data| <= OTA_ZONE_SIZE
    ensures ProgramCountAsWritten(data, ZoneAddr(t) + offset) > |data|
    ensures forall k :: 0 <= k < 3 ==>
      ProgramCountAsWritten(CommitWrites(t, gen, entrypoint)[k].data, CommitWrites(t, gen, entrypoint)[k].addr) > WORD_SIZE
  {
    RegionLayout();
  }

  /** Flash contents after the first k programs of `ota_dl_finish` took effect. */
  function CommitPrefix(mem: seq<byte>, t: ZoneIndex, gen: u32, entrypoint: u32, k: nat): (r: seq<byte>)
    requires k <= 3
    ensures |r| == |mem|
  {
    ApplyWrites(mem, CommitWrites(t, gen, entrypoint), k)
  }

  /** The sectors `ota_dl_init` selects end no later than the target zone. */
  lemma {:induction false} SectorsInsideZone(t: ZoneIndex, ss: nat)
    requires ss > 0
    ensures SectorAddr(SectorOf(ZoneAddr(t), ss) + SectorOf(OTA_ZONE_SIZE, ss), ss) <= ZoneAddr(t) + OTA_ZONE_SIZE
  {
    SectorRoundsDown(ZoneAddr(t), ss);
    SectorRoundsDown(OTA_ZONE_SIZE, ss);
    SectorAddrAdd(SectorOf(ZoneAddr(t), ss), SectorOf(OTA_ZONE_SIZE, ss), ss);
  }

  /** Each sector `ota_dl_begin` erases ends inside the target zone. */
  lemma {:induction false} SectorInZone(t: ZoneIndex, ss: nat, i: nat, a: nat)
    requires ss > 0 && a == SectorAddr(i, ss)
    requires SectorOf(ZoneAddr(t), ss) <= i < SectorOf(ZoneAddr(t), ss) + SectorOf(OTA_ZONE_SIZE, ss)
    ensures a + ss <= ZoneAddr(t) + OTA_ZONE_SIZE
  {
    SectorsInsideZone(t, ss);
    SectorAddrMono(i + 1, SectorOf(ZoneAddr(t), ss) + SectorOf(OTA_ZONE_SIZE, ss), ss);
  }

  /** Flash contents after erasing the e sectors from sector first. */
  function EraseSectors(mem: seq<byte>, first: nat, ss: nat, e: nat): (r: seq<byte>)
    ensures |r| == |mem|
  {
    EraseRange(mem, SectorAddr(first, ss), SectorAddr(first + e, ss))
  }

  /** Erasing two adjacent ranges erases their union. */
  lemma {:induction false} EraseRangeExtend(mem: seq<byte>, lo: nat, mid: nat, hi: nat)
    requires lo <= mid <= hi
    ensures EraseRange(EraseRange(mem, lo, mid), mid, hi) == EraseRange(mem, lo, hi)
  {
  }

  /**
   * The state after `ota_dl_begin` has unprotected n sectors from sector first and
   * erased the first e of them.
   */
  ghost function AfterBegin(s0: FlashState, first: nat, ss: nat, hw: seq<u32>, n: nat, e: nat): FlashState
  {
    FlashState(
      EraseSectors(s0.mem, first, ss, e),
      SetProtection(s0.protection, first, ss, n, NoProtect),
      s0.issued + n,
      s0.trace + UnprotectErase(first, ss, hw, s0.issued, n))
  }

  /**
   * One more iteration extends the erase loop: after i sectors all erased, the next
   * one is unprotected and, when its erase succeeds, erased too.
   */
  lemma {:induction false} BeginStep(s0: FlashState, first: nat, ss: nat, hw: seq<u32>, i: nat, a: nat)
    requires a == SectorAddr(first + i, ss) && a + ss <= FLASH_SIZE
    ensures
      var s := AfterErase(AfterProtect(AfterBegin(s0, first, ss, hw, i, i), a, NoProtect), a, ss, hw);
      && (Reported(hw, s0.issued + i) == FAPI_STATUS_SUCCESS ==> s == AfterBegin(s0, first, ss, hw, i + 1, i + 1))
      && (Reported(hw, s0.issued + i) != FAPI_STATUS_SUCCESS ==> s == AfterBegin(s0, first, ss, hw, i + 1, i))
  {
    assert SectorAddr(first + i + 1, ss) == a + ss;
    SectorAddrMono(first, first + i, ss);
    EraseRangeExtend(s0.mem, SectorAddr(first, ss), a, a + ss);
    var u := UnprotectErase(first, ss, hw, s0.issued, i);
    var c := [Protected(a, NoProtect), Erased(a, Reported(hw, s0.issued + i))];
    assert UnprotectErase(first, ss, hw, s0.issued, i + 1) == u + c;
    assert (s0.trace + u) + [Protected(a, NoProtect)] + [Erased(a, Reported(hw, s0.issued + i))] == s0.trace + (u + c);
  }

  /** The state after issuing the first n programs of ws, of which the first e took effect. */
  ghost function AfterPrograms(s0: FlashState, ws: seq<Write>, hw: seq<u32>, n: nat, e: nat): FlashState
    requires e <= n <= |ws|
  {
    FlashState(
      ApplyWrites(s0.mem, ws, e),
      s0.protection,
      s0.issued + n,
      s0.trace + ProgramOps(ws, hw, s0.issued, n))
  }

  /** One more program extends a series of programs that all took effect. */
  lemma {:induction false} ProgramsStep(s0: FlashState, ws: seq<Write>, hw: seq<u32>, i: nat)
    requires i < |ws| && InRange(FLASH_SIZE, ws[i])
    ensures Reported(hw, s0.issued + i) == FAPI_STATUS_SUCCESS ==>
      AfterProgram(AfterPrograms(s0, ws, hw, i, i), ws[i], hw) == AfterPrograms(s0, ws, hw, i + 1, i + 1)
    ensures Reported(hw, s0.issued + i) != FAPI_STATUS_SUCCESS ==>
      AfterProgram(AfterPrograms(s0, ws, hw, i, i), ws[i], hw) == AfterPrograms(s0, ws, hw, i + 1, i)
  {
    var p := ProgramOps(ws, hw, s0.issued, i);
    var c := Programmed(ws[i].addr, ws[i].data, Reported(hw, s0.issued + i));
    assert ProgramOps(ws, hw, s0.issued, i + 1) == p + [c];
    assert (s0.trace + p) + [c] == s0.trace + (p + [c]);
  }

  /** One iteration of the erase loop of `ota_dl_begin`: unprotect sector first + n, then erase it. */
  method ClearSector(dev: FlashDevice, ghost s0: FlashState, ghost first: nat, ghost n: nat, addr: nat) returns (rc: u32)
    requires dev.Valid() && addr == SectorAddr(first + n, dev.sectorSize) && addr + dev.sectorSize <= FLASH_SIZE
    requires dev.State() == AfterBegin(s0, first, dev.sectorSize, dev.hw, n, n)
    modifies dev
    ensures dev.Valid()
    ensures rc == Reported(dev.hw, s0.issued + n)
    ensures rc == FAPI_STATUS_SUCCESS ==> dev.State() == AfterBegin(s0, first, dev.sectorSize, dev.hw, n + 1, n + 1)
    ensures rc != FAPI_STATUS_SUCCESS ==> dev.State() == AfterBegin(s0, first, dev.sectorSize, dev.hw, n + 1, n)
  {
    BeginStep(s0, first, dev.sectorSize, dev.hw, n, addr);
    dev.ProtectionSet(addr, NoProtect);
    rc := dev.SectorErase(addr);
  }

  /** One program of a series: ws[j], issued after the first j all took effect. */
  method CommitStep(dev: FlashDevice, ghost s0: FlashState, ws: seq<Write>, j: nat) returns (rc: u32)
    requires dev.Valid() && j < |ws| && InRange(FLASH_SIZE, ws[j])
    requires dev.State() == AfterPrograms(s0, ws, dev.hw, j, j)
    modifies dev
    ensures dev.Valid()
    ensures rc == Reported(dev.hw, s0.issued + j)
    ensures rc == FAPI_STATUS_SUCCESS ==> dev.State() == AfterPrograms(s0, ws, dev.hw, j + 1, j + 1)
    ensures rc != FAPI_STATUS_SUCCESS ==> dev.State() == AfterPrograms(s0, ws, dev.hw, j + 1, j)
  {
    ProgramsStep(s0, ws, dev.hw, j);
    rc := dev.Program(ws[j].data, ws[j].addr);
  }

  /** Setting mode on n sectors from sector first, as the last loop of `ota_dl_finish` does. */
  ghost function ProtectAll(s: FlashState, first: nat, ss: nat, n: nat, mode: ProtectMode): FlashState
  {
    FlashState(s.mem, SetProtection(s.protection, first, ss, n, mode), s.issued, s.trace + ProtectOps(first, ss, n, mode))
  }

  /**
   * The state `ota_dl_begin` leaves over n sectors from sector first: every sector
   * up to and including the first whose erase failed is unprotected, those before
   * it are erased, the rest are untouched.
   */
  ghost function BeginState(s0: FlashState, first: nat, ss: nat, hw: seq<u32>, n: nat): FlashState
  {
    var k := FirstFailure(hw, s0.issued, n);
    if k < n then AfterBegin(s0, first, ss, hw, k + 1, k) else AfterBegin(s0, first, ss, hw, n, n)
  }

  /**
   * The state `ota_dl_finish` leaves: the commit programs of ws up to and including
   * the first failing one issued, those before it in effect; when all took effect,
   * the n sectors from sector first write-protected as well.
   */
  ghost function FinishState(s0: FlashState, ws: seq<Write>, first: nat, ss: nat, n: nat, hw: seq<u32>): FlashState
  {
    var k := FirstFailure(hw, s0.issued, |ws|);
    if k < |ws| then AfterPrograms(s0, ws, hw, k + 1, k)
    else ProtectAll(AfterPrograms(s0, ws, hw, |ws|, |ws|), first, ss, n, WriteProtect)
  }

  class DlState {
    var targetZone: ZoneIndex
    var targetGen: u32
    var dlSize: nat
    var dlDone: nat
    var entrypoint: u32
    var sectorSize: nat
    var firstSector: nat
    var nrSectors: nat

    /** The sector geometry `ota_dl_init` computes for the target zone. */
    ghost predicate Valid()
      reads this
    {
      && sectorSize > 0
      && nrSectors == SectorOf(OTA_ZONE_SIZE, sectorSize)
      && firstSector == SectorOf(ZoneAddr(targetZone), sectorSize)
    }

    /** A zero-initialised session record. */
    constructor ()
      ensures targetZone == 0 && targetGen == 0 && dlSize == 0 && dlDone == 0
      ensures entrypoint == 0 && sectorSize == 0 && firstSector == 0 && nrSectors == 0
    {
      targetZone, targetGen, dlSize, dlDone := 0, 0, 0, 0;
      entrypoint, sectorSize, firstSector, nrSectors := 0, 0, 0, 0;
    }

    /**
     * `ota_dl_init`: targets the zone after the authoritative one with the next
     * generation (zone 0, gen 0 on a blank region), resets the progress counter,
     * copies size and entrypoint and computes the sector geometry.
     */
    method Init(dev: FlashDevice, params: DlParams)
      requires dev.Valid()
      modifies this
      ensures Valid()
      ensures (targetZone, targetGen) == NextTarget(Region(dev.mem))
      ensures dlDone == 0 && dlSize == params.dlSize && entrypoint == params.entrypoint
      ensures sectorSize == dev.sectorSize
    {
      var cur := GetValidOtaZone(dev);
      ghost var metas := Region(dev.mem);
      if cur < 0 {
        targetZone, targetGen := 0, 0;
      } else {
        assert metas[cur] == MetaAt(dev.mem, cur);
        targetZone := (cur + 1) % NR_OTA_ZONES;
        targetGen := (MetaAt(dev.mem, cur).gen + 1) % U32_LIMIT;
      }
      assert (targetZone, targetGen) == NextTarget(metas);
      dlDone := 0;
      dlSize := params.dlSize;
      entrypoint := params.entrypoint;
      sectorSize := dev.sectorSize;
      nrSectors := SectorOf(OTA_ZONE_SIZE, sectorSize);
      firstSector := SectorOf(ZoneAddr(targetZone), sectorSize);
    }


    /**
     * `ota_dl_begin`: for each target sector in ascending order, removes write
     * protection and then erases it; the first failing erase ends the loop and its
     * status is returned, later sectors are not touched. k is the number of
     * sectors erased.
     */
    method Begin(dev: FlashDevice) returns (rc: u32, ghost k: nat)
      requires Valid() && dev.Valid() && dev.sectorSize == sectorSize
      modifies dev
      ensures dev.Valid() && k <= nrSectors
      ensures Succeeded(dev.hw, old(dev.issued), k)
      ensures k < nrSectors ==> rc == Reported(dev.hw, old(dev.issued) + k) && rc != FAPI_STATUS_SUCCESS
      ensures k < nrSectors ==> dev.State() == AfterBegin(old(dev.State()), firstSector, sectorSize, dev.hw, k + 1, k)
      ensures k == nrSectors ==> rc == FAPI_STATUS_SUCCESS
      ensures k == nrSectors ==> dev.State() == AfterBegin(old(dev.State()), firstSector, sectorSize, dev.hw, k, k)
      ensures k == FirstFailure(dev.hw, old(dev.issued), nrSectors)
      ensures rc == SeriesStatus(dev.hw, old(dev.issued), nrSectors)
      ensures dev.State() == BeginState(old(dev.State()), firstSector, sectorSize, dev.hw, nrSectors)
    {
      ghost var s0 := dev.State();
      var i := firstSector;
      while i < firstSector + nrSectors
        invariant firstSector <= i <= firstSector + nrSectors && dev.Valid()
        invariant Succeeded(dev.hw, s0.issued, i - firstSector)
        invariant dev.State() == AfterBegin(s0, firstSector, sectorSize, dev.hw, i - firstSector, i - firstSector)
      {
        ghost var n := i - firstSector;
        var addr := SectorAddr(i, sectorSize);
        SectorInZone(targetZone, sectorSize, i, addr);
        rc := ClearSector(dev, s0, firstSector, n, addr);
        if rc != FAPI_STATUS_SUCCESS {
          k := n;
          FirstFailureUnique(dev.hw, s0.issued, nrSectors, k);
          return;
        }
        i := i + 1;
      }
      k := nrSectors;
      FirstFailureUnique(dev.hw, s0.issued, nrSectors, k);
      rc := FAPI_STATUS_SUCCESS;
    }

    /**
     * `ota_dl_process`: programs buf at payload offset dlDone of the target zone;
     * on success dlDone advances by the length of buf, on failure nothing changes
     * and the status is returned.
     */
    method Process(dev: FlashDevice, buf: seq<byte>) returns (rc: u32)
      requires Valid() && dev.Valid()
      modifies this`dlDone, dev
      ensures dev.Valid()
      ensures rc == Outcome(old(dev.State()), ZoneAddr(targetZone) + old(dlDone) + |buf|, dev.hw)
      ensures dev.State() == AfterProgram(old(dev.State()), Write(ZoneAddr(targetZone) + old(dlDone), buf), dev.hw)
      ensures dlDone == if rc == FAPI_STATUS_SUCCESS then old(dlDone) + |buf| else old(dlDone)
    {
      rc := dev.Program(buf, ZoneAddr(targetZone) + dlDone);
      if rc != FAPI_STATUS_SUCCESS {
        return rc;
      }
      dlDone := dlDone + |buf|;
      return FAPI_STATUS_SUCCESS;
    }


    /**
     * `ota_dl_finish`: programs the entrypoint, then the gen, then the done magic
     * into the target's trailer, returning at the first failure; only after all
     * three succeed does it write-protect every target sector. k is the number of
     * programs that took effect.
     */
    method Finish(dev: FlashDevice) returns (rc: u32, ghost k: nat)
      requires Valid() && dev.Valid() && dev.sectorSize == sectorSize
      modifies dev
      ensures dev.Valid() && k <= 3
      ensures Succeeded(dev.hw, old(dev.issued), k)
      ensures k < 3 ==> rc == Reported(dev.hw, old(dev.issued) + k) && rc != FAPI_STATUS_SUCCESS
      ensures k == 3 ==> rc == FAPI_STATUS_SUCCESS
      ensures k < 3 ==> dev.State() == AfterPrograms(old(dev.State()), CommitWrites(targetZone, targetGen, entrypoint), dev.hw, k + 1, k)
      ensures k == 3 ==> dev.State() == ProtectAll(AfterPrograms(old(dev.State()), CommitWrites(targetZone, targetGen, entrypoint), dev.hw, k, k),
        firstSector, sectorSize, nrSectors, WriteProtect)
      ensures k == FirstFailure(dev.hw, old(dev.issued), 3)
      ensures rc == SeriesStatus(dev.hw, old(dev.issued), 3)
      ensures dev.State() == FinishState(old(dev.State()), CommitWrites(targetZone, targetGen, entrypoint), firstSector, sectorSize, nrSectors, dev.hw)
    {
      var ws := CommitWrites(targetZone, targetGen, entrypoint);
      ghost var s0 := dev.State();
      assert dev.State() == AfterPrograms(s0, ws, dev.hw, 0, 0);
      rc := CommitStep(dev, s0, ws, 0);
      if rc != FAPI_STATUS_SUCCESS {
        k := 0;
        FirstFailureUnique(dev.hw, s0.issued, 3, k);
        return;
      }
      rc := CommitStep(dev, s0, ws, 1);
      if rc != FAPI_STATUS_SUCCESS {
        k := 1;
        FirstFailureUnique(dev.hw, s0.issued, 3, k);
        return;
      }
      assert Succeeded(dev.hw, s0.issued, 2);
      rc := CommitStep(dev, s0, ws, 2);
      if rc != FAPI_STATUS_SUCCESS {
        k := 2;
        FirstFailureUnique(dev.hw, s0.issued, 3, k);
        return;
      }
      assert Succeeded(dev.hw, s0.issued, 3);
      ProtectTarget(dev);
      k := 3;
      FirstFailureUnique(dev.hw, s0.issued, 3, k);
      rc := FAPI_STATUS_SUCCESS;
    }

    /** The closing loop of `ota_dl_finish`: write-protects each target sector in ascending order. */
    method ProtectTarget(dev: FlashDevice)
      requires Valid() && dev.Valid()
      modifies dev
      ensures dev.Valid()
      ensures dev.State() == ProtectAll(old(dev.State()), firstSector, sectorSize, nrSectors, WriteProtect)
    {
      ghost var s0 := dev.State();
      var i := firstSector;
      while i < firstSector + nrSectors
        invariant firstSector <= i <= firstSector + nrSectors && dev.Valid()
        invariant dev.State() == ProtectAll(s0, firstSector, sectorSize, i - firstSector, WriteProtect)
      {
        dev.ProtectionSet(SectorAddr(i, sectorSize), WriteProtect);
        i := i + 1;
      }
    }
  }
}
