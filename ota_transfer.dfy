/**
 * The update service of the GATT profile: `ota_transaction` with its globals
 * (`_ota_state`, `g_previous_chunk`, `g_num_bytes_rcvd`, `ota_params`,
 * `ota_state`) and the CHAR3 case of `simpleProfile_WriteAttrCB`.
 *
 * Each accepted chunk feeds the download session: the first one carries the image
 * header that starts it (init, then begin), every one hands its remaining bytes
 * to process, and finish runs once the session has all its bytes. The statuses
 * of begin, process and finish are not looked at. A failed check stops the
 * firmware (Halt); whether `SysCtrlSystemReset` is called is WriteChar3's reset result.
 */
module OtaTransfer {
  import opened ByteCodec
  import opened Wrappers
  import opened OtaLayout
  import opened Flash
  import opened ZoneStore
  import opened Download
  import opened ChunkProtocol

  /** `_OTA_STATE_NEW` (no session yet) and `_OTA_STATE_DATA`. */
  datatype Phase = New | Data

  datatype Outcome = Continue | Halt(reason: HaltReason)

  /** A call the service makes into the download session, in the order made. */
  datatype EngineCall = CallInit(params: DlParams) | CallBegin | CallProcess(data: seq<byte>) | CallFinish

  /** An accepted chunk: its envelope and the bytes it hands to the session. */
  datatype Chunk = Chunk(envelope: Envelope, data: seq<byte>)

  /**
   * As written: the byte count `ota_transaction` passes on to `ota_dl_process`
   * for a buffer of len bytes, in 32-bit `size_t` arithmetic. On the first chunk
   * the header is subtracted whether or not the buffer holds one.
   */
  function DataLenAsWritten(len: nat, first: bool): (r: u32)
    requires ENVELOPE_SIZE <= len < U32_LIMIT
    ensures !first ==> r == len - ENVELOPE_SIZE
    ensures first && len >= ENVELOPE_SIZE + HEADER_SIZE ==> r == len - ENVELOPE_SIZE - HEADER_SIZE
  {
    var rest := len - ENVELOPE_SIZE;
    if first then (rest - HEADER_SIZE) % U32_LIMIT else rest
  }

  /** A first chunk of 20 bytes that `check_blob` accepts: 8 bytes after the envelope. */
  function ShortFirstChunk(): seq<byte>
  {
    EnvelopeBytes(Envelope(OTA_BLOB_MAGIC, 8, 0, 1, 0, 8)) + [0, 0, 0, 0, 0, 0, 0, 0]
  }

  /**
   * A first chunk shorter than envelope plus header passes `check_blob`, and the
   * count handed to `ota_dl_process` then wraps around to far more bytes than the
   * chunk holds.
   */
  lemma {:induction false} ShortFirstChunkOverruns()
    ensures CheckBlob(ShortFirstChunk(), -1, 0).Ok?
    ensures DataLenAsWritten(|ShortFirstChunk()|, true) == 0xFFFF_FFEC
    ensures DataLenAsWritten(|ShortFirstChunk()|, true) > |ShortFirstChunk()|
  {
    var e := Envelope(OTA_BLOB_MAGIC, 8, 0, 1, 0, 8);
    ParseEnvelopeBytes(e, [0, 0, 0, 0, 0, 0, 0, 0]);
  }

  /** Every first chunk between the envelope and the end of the header overruns the same way. */
  lemma {:induction false} ShortFirstChunksOverrun(len: nat)
    requires ENVELOPE_SIZE <= len < ENVELOPE_SIZE + HEADER_SIZE
    ensures DataLenAsWritten(len, true) == U32_LIMIT + len - ENVELOPE_SIZE - HEADER_SIZE
    ensures DataLenAsWritten(len, true) > len
  {
  }

  /**
   * Corrected: the bytes an accepted chunk hands to `ota_dl_process`, everything
   * after the envelope and, on the first chunk, after the image header. A first
   * chunk too short to hold the header halts like any other malformed chunk.
   * Wherever the source does not wrap around, the count agrees with it.
   */
  function ChunkData(buf: seq<byte>, first: bool): (r: Result<seq<byte>, HaltReason>)
    requires |buf| >= ENVELOPE_SIZE
    ensures r.Err? <==> first && |buf| < ENVELOPE_SIZE + HEADER_SIZE
    ensures r.Err? ==> r.error == HeaderTruncated
    ensures r.Ok? ==> |r.value| <= |buf| && buf[|buf| - |r.value|..] == r.value
    ensures r.Ok? && |buf| < U32_LIMIT ==> |r.value| == DataLenAsWritten(|buf|, first)
  {
    if !first then Ok(buf[ENVELOPE_SIZE..])
    else if |buf| < ENVELOPE_SIZE + HEADER_SIZE then Err(HeaderTruncated)
    else Ok(buf[ENVELOPE_SIZE + HEADER_SIZE..])
  }

  /** The checks an incoming chunk goes through: `check_blob`, then the header length on a first chunk. */
  function Admit(buf: seq<byte>, first: bool, previousChunk: int, bytesReceived: u32): (r: Result<Chunk, HaltReason>)
    ensures r.Ok? ==> |buf| >= ENVELOPE_SIZE && r.value.envelope == ParseEnvelope(buf)
    ensures r.Ok? ==> (first ==> |buf| >= ENVELOPE_SIZE + HEADER_SIZE)
    ensures bytesReceived <= OTA_MAX_BLOB_SIZE ==> (r.Ok? <==>
      && |buf| >= ENVELOPE_SIZE
      && Admissible(ParseEnvelope(buf), |buf|, previousChunk, bytesReceived)
      && (first ==> |buf| >= ENVELOPE_SIZE + HEADER_SIZE))
  {
    match CheckBlob(buf, previousChunk, bytesReceived)
    case Err(h) => Err(h)
    case Ok(e) =>
      match ChunkData(buf, first)
      case Err(h) => Err(h)
      case Ok(data) => Ok(Chunk(e, data))
  }

  /** The download parameters the first chunk's header sets up. */
  function HeaderParams(h: ImageHeader): DlParams
  {
    DlParams(h.size, h.entrypoint, h.loads)
  }

  /**
   * The counters after an accepted chunk: one more chunk and chunk_len more bytes,
   * or, after the last chunk of the transfer, back to no chunk and no bytes.
   */
  function NextCounters(e: Envelope, previousChunk: int, bytesReceived: nat): (r: (int, nat))
    ensures e.curChunk == previousChunk + 1 ==> (r.0 == -1 <==> e.curChunk + 1 == e.numChunks)
    ensures r.0 != -1 ==> r == (previousChunk + 1, bytesReceived + e.chunkLen)
    ensures e.curChunk + 1 == e.numChunks ==> r == (-1, 0)
  {
    if e.curChunk + 1 == e.numChunks then (-1, 0)
    else (previousChunk + 1, bytesReceived + e.chunkLen)
  }

  /**
   * The calls one accepted chunk makes into the session: init and begin on the
   * first chunk, process when there are bytes, finish when the session is complete.
   */
  function EngineCalls(first: bool, params: DlParams, data: seq<byte>, complete: bool): seq<EngineCall>
  {
    (if first then [CallInit(params), CallBegin] else []) + FeedCalls(data, complete)
  }

  /** The calls of the DATA case: process when there are bytes, finish when the session is complete. */
  function FeedCalls(data: seq<byte>, complete: bool): seq<EngineCall>
  {
    (if |data| > 0 then [CallProcess(data)] else []) + (if complete then [CallFinish] else [])
  }

  /** The calls logged for a first chunk: init and begin, then those of the DATA case. */
  lemma {:induction false} FirstChunkCalls(c0: seq<EngineCall>, c1: seq<EngineCall>, c2: seq<EngineCall>,
                                           params: DlParams, data: seq<byte>, complete: bool)
    requires c1 == c0 + [CallInit(params), CallBegin] && c2 == c1 + FeedCalls(data, complete)
    ensures c2 == c0 + EngineCalls(true, params, data, complete)
  {
    assert c2 == c0 + ([CallInit(params), CallBegin] + FeedCalls(data, complete));
  }

  /** The running counters of an accepted chunk never pass the transfer limit. */
  lemma {:induction false} CountersBounded(buf: seq<byte>, first: bool, previousChunk: int, bytesReceived: u32)
    requires bytesReceived <= OTA_MAX_BLOB_SIZE && previousChunk >= -1
    requires Admit(buf, first, previousChunk, bytesReceived).Ok?
    ensures var c := NextCounters(ParseEnvelope(buf), previousChunk, bytesReceived);
      -1 <= c.0 < 256 && c.1 <= OTA_MAX_BLOB_SIZE
  {
  }

  class OtaService {
    /** `_ota_state`. */
    var phase: Phase
    /** `g_previous_chunk`: the index of the last accepted chunk, -1 before the first. */
    var previousChunk: int
    /** `g_num_bytes_rcvd`: the chunk_len of every chunk accepted so far. */
    var bytesReceived: u32
    /** `ota_params`. */
    var params: DlParams
    /** `ota_state`, the download session. */
    const session: DlState
    /** The flash the session writes. */
    const dev: FlashDevice
    /** `SIMPLEPROFILE_CHAR3_LEN`, the size of the characteristic value. */
    const char3Len: nat
    /** The firmware stopped in a `while (1)`. */
    var halted: bool
    /** Every call made into the session. */
    ghost var engine: seq<EngineCall>

    ghost predicate Valid()
      reads this, session, dev
    {
      && dev.Valid()
      && (phase == Data ==> session.Valid() && session.sectorSize == dev.sectorSize)
      && -1 <= previousChunk < 256
      && bytesReceived <= OTA_MAX_BLOB_SIZE
    }

    /**
     * The flash state and dl_done after process was handed data from flash state
     * s0 and progress d0 (nothing happens for no data): data is programmed at payload
     * offset d0 of the target zone, and the progress advances only when that
     * program succeeds.
     */
    ghost function Processed(s0: FlashState, d0: nat, data: seq<byte>): (r: (FlashState, nat))
      reads session`targetZone
    {
      var at := ZoneAddr(session.targetZone) + d0;
      if |data| == 0 then (s0, d0)
      else
        var s1 := AfterProgram(s0, Write(at, data), dev.hw);
        (s1, if Flash.Outcome(s0, at + |data|, dev.hw) == FAPI_STATUS_SUCCESS then d0 + |data| else d0)
    }

    /** The flash state after finish, from flash state s0: the commit of the target zone. */
    ghost function Finished(s0: FlashState): FlashState
      reads session`targetZone, session`targetGen, session`entrypoint
      reads session`firstSector, session`sectorSize, session`nrSectors
    {
      var commit := CommitWrites(session.targetZone, session.targetGen, session.entrypoint);
      FinishState(s0, commit, session.firstSector, session.sectorSize, session.nrSectors, dev.hw)
    }

    /**
     * The flash state and dl_done after the DATA case of `ota_transaction` from
     * flash state s0 and progress d0: data processed, then finish once the progress
     * equals dl_size.
     */
    ghost function Fed(s0: FlashState, d0: nat, data: seq<byte>): (r: (FlashState, nat))
      reads session`targetZone, session`targetGen, session`entrypoint, session`dlSize
      reads session`firstSector, session`sectorSize, session`nrSectors
    {
      var (s1, d1) := Processed(s0, d0, data);
      if d1 == session.dlSize then (Finished(s1), d1) else (s1, d1)
    }

    /** The flash state after the session's begin, from flash state s0. */
    ghost function Begun(s0: FlashState): FlashState
      reads session`firstSector, session`sectorSize, session`nrSectors
    {
      BeginState(s0, session.firstSector, session.sectorSize, dev.hw, session.nrSectors)
    }

    /** The globals at power-up: no session, no chunk, no bytes. */
    constructor (dev: FlashDevice, char3Len: nat)
      requires dev.Valid()
      ensures Valid() && fresh(session) && this.dev == dev && this.char3Len == char3Len
      ensures phase == New && previousChunk == -1 && bytesReceived == 0
      ensures !halted && engine == []
    {
      this.dev := dev;
      this.char3Len := char3Len;
      session := new DlState();
      phase := New;
      previousChunk := -1;
      bytesReceived := 0;
      params := DlParams(0, 0, []);
      halted := false;
      engine := [];
    }

    /**
     * What `ota_transaction` did with a chunk buf that passed its checks: the
     * phase is DATA; the counters advanced, or reset after the last chunk; on the
     * first chunk the parameters come from its header and the session targets the
     * zone after the authoritative one, while later chunks keep the session's
     * target; the calls into the session are logged; and the flash and dl_done are
     * as begin (first chunk only), process and finish leave them.
     */
    twostate predicate Accepted(buf: seq<byte>)
      requires old(dev.Valid())
      reads this`phase, this`previousChunk, this`bytesReceived, this`params, this`halted, this`engine, session, dev
    {
      var a := Admit(buf, old(phase) == New, old(previousChunk), old(bytesReceived));
      && a.Ok?
      && !halted && phase == Data
      && (previousChunk, bytesReceived as nat) == NextCounters(ParseEnvelope(buf), old(previousChunk), old(bytesReceived))
      && (old(phase) == New ==>
        && params == HeaderParams(ParseHeader(buf[ENVELOPE_SIZE..]))
        && (session.targetZone, session.targetGen) == NextTarget(Region(old(dev.mem)))
        && session.dlSize == params.dlSize && session.entrypoint == params.entrypoint)
      && (old(phase) == Data ==>
        && session.targetZone == old(session.targetZone) && session.targetGen == old(session.targetGen)
        && session.dlSize == old(session.dlSize) && session.entrypoint == old(session.entrypoint))
      && var data := a.value.data;
      var s := if old(phase) == New then Begun(old(dev.State())) else old(dev.State());
      var base := if old(phase) == New then 0 else old(session.dlDone);
      && engine == old(engine) + EngineCalls(old(phase) == New, params, data, session.dlDone == session.dlSize)
      && (session.dlDone == base || session.dlDone == base + |data|)
      && (|data| == 0 ==> session.dlDone == base)
      && (dev.State(), session.dlDone) == Fed(s, base, data)
    }

    /**
     * `ota_transaction`: checks the chunk; on the first chunk starts the session
     * from its header (init, begin) and moves to DATA for good; hands the remaining
     * bytes to process when there are any; runs finish once dl_done reaches
     * dl_size; then counts the chunk, resetting the counters after the last one.
     * A chunk that fails a check halts before any flash command.
     */
    method Transaction(buf: seq<byte>) returns (outcome: Outcome)
      requires Valid() && !halted
      modifies this, session, dev
      ensures Valid()
      ensures var a := Admit(buf, old(phase) == New, old(previousChunk), old(bytesReceived));
        outcome == if a.Ok? then Continue else Halt(a.error)
      ensures outcome.Halt? ==> halted && unchanged(dev) && unchanged(session)
      ensures outcome.Halt? ==> phase == old(phase) && previousChunk == old(previousChunk)
      ensures outcome.Halt? ==> bytesReceived == old(bytesReceived) && engine == old(engine)
      ensures outcome.Continue? ==> Accepted(buf)
    {
      var a := Admit(buf, phase == New, previousChunk, bytesReceived);
      if a.Err? {
        halted := true;
        return Halt(a.error);
      }
      AcceptChunk(a.value.envelope, if phase == New then ParseHeader(buf[ENVELOPE_SIZE..]) else ImageHeader(0, 0, []), a.value.data);
      return Continue;
    }

    /**
     * The body of `ota_transaction` after the checks passed: starts the session on
     * the first chunk, feeds it the bytes, then counts the chunk.
     */
    method AcceptChunk(e: Envelope, header: ImageHeader, data: seq<byte>)
      requires Valid() && !halted
      requires e.curChunk == previousChunk + 1 && bytesReceived + e.chunkLen <= OTA_MAX_BLOB_SIZE
      modifies this`params, this`phase, this`engine, this`previousChunk, this`bytesReceived, session, dev
      ensures Valid() && phase == Data
      ensures (previousChunk, bytesReceived as nat) == NextCounters(e, old(previousChunk), old(bytesReceived))
      ensures old(phase) == New ==>
        && params == HeaderParams(header)
        && (session.targetZone, session.targetGen) == NextTarget(Region(old(dev.mem)))
        && session.dlSize == params.dlSize && session.entrypoint == params.entrypoint
      ensures
        var base := if old(phase) == New then 0 else old(session.dlDone);
        && engine == old(engine) + EngineCalls(old(phase) == New, params, data, session.dlDone == session.dlSize)
        && (session.dlDone == base || session.dlDone == base + |data|)
        && (|data| == 0 ==> session.dlDone == base)
      ensures old(phase) == Data ==>
        && session.targetZone == old(session.targetZone) && session.targetGen == old(session.targetGen)
        && session.dlSize == old(session.dlSize) && session.entrypoint == old(session.entrypoint)
      ensures
        var s := if old(phase) == New then Begun(old(dev.State())) else old(dev.State());
        var base := if old(phase) == New then 0 else old(session.dlDone);
        (dev.State(), session.dlDone) == Fed(s, base, data)
    {
      Deliver(header, data);
      CountChunk(e);
    }

    /** The session calls of `ota_transaction`: start the session on the first chunk, then feed it. */
    method Deliver(header: ImageHeader, data: seq<byte>)
      requires Valid()
      modifies this`params, this`phase, this`engine, session, dev
      ensures Valid() && phase == Data
      ensures old(phase) == New ==>
        && params == HeaderParams(header)
        && (session.targetZone, session.targetGen) == NextTarget(Region(old(dev.mem)))
        && session.dlSize == params.dlSize && session.entrypoint == params.entrypoint
      ensures engine == old(engine) + EngineCalls(old(phase) == New, params, data, session.dlDone == session.dlSize)
      ensures old(phase) == Data ==>
        && session.targetZone == old(session.targetZone) && session.targetGen == old(session.targetGen)
        && session.dlSize == old(session.dlSize) && session.entrypoint == old(session.entrypoint)
      ensures
        var s := if old(phase) == New then Begun(old(dev.State())) else old(dev.State());
        var base := if old(phase) == New then 0 else old(session.dlDone);
        (dev.State(), session.dlDone) == Fed(s, base, data)
    {
      if phase == New {
        Open(header, data);
      } else {
        FeedSession(data);
        assert EngineCalls(false, params, data, session.dlDone == session.dlSize) == FeedCalls(data, session.dlDone == session.dlSize);
      }
    }

    /** The first chunk: the `_OTA_STATE_NEW` case, then the DATA case it falls into. */
    method Open(header: ImageHeader, data: seq<byte>)
      requires Valid() && phase == New
      modifies this`params, this`phase, this`engine, session, dev
      ensures Valid() && phase == Data
      ensures params == HeaderParams(header)
      ensures (session.targetZone, session.targetGen) == NextTarget(Region(old(dev.mem)))
      ensures session.dlSize == params.dlSize && session.entrypoint == params.entrypoint
      ensures engine == old(engine) + EngineCalls(true, params, data, session.dlDone == session.dlSize)
      ensures (dev.State(), session.dlDone) == Fed(Begun(old(dev.State())), 0, data)
    {
      ghost var calls0, s0 := engine, dev.State();
      StartSession(header);
      ghost var calls1, s1 := engine, dev.State();
      FeedSession(data);
      assert Begun(s0) == s1;
      FirstChunkCalls(calls0, calls1, engine, params, data, session.dlDone == session.dlSize);
    }

    /** The bookkeeping at the end of `ota_transaction`: count the chunk, or reset after the last one. */
    method CountChunk(e: Envelope)
      requires -1 <= previousChunk && e.curChunk == previousChunk + 1 && bytesReceived + e.chunkLen <= OTA_MAX_BLOB_SIZE
      modifies this`previousChunk, this`bytesReceived
      ensures -1 <= previousChunk < 256 && bytesReceived <= OTA_MAX_BLOB_SIZE
      ensures (previousChunk, bytesReceived as nat) == NextCounters(e, old(previousChunk), old(bytesReceived))
    {
      previousChunk := previousChunk + 1;
      bytesReceived := bytesReceived + e.chunkLen;
      if e.curChunk + 1 == e.numChunks {
        previousChunk := -1;
        bytesReceived := 0;
      }
    }

    /**
     * The `_OTA_STATE_NEW` case of `ota_transaction`: sets up the parameters from
     * the image header, then init and begin (whose status is dropped), then DATA.
     */
    method StartSession(header: ImageHeader)
      requires Valid() && phase == New
      modifies this`params, this`phase, this`engine, session, dev
      ensures Valid() && phase == Data && params == HeaderParams(header)
      ensures (session.targetZone, session.targetGen) == NextTarget(Region(old(dev.mem)))
      ensures session.dlSize == params.dlSize && session.entrypoint == params.entrypoint && session.dlDone == 0
      ensures engine == old(engine) + [CallInit(params), CallBegin]
      ensures dev.State() == Begun(old(dev.State()))
    {
      params := HeaderParams(header);
      session.Init(dev, params);
      var rc;
      ghost var k;
      rc, k := session.Begin(dev);
      engine := engine + [CallInit(params), CallBegin];
      phase := Data;
    }

    /**
     * The `_OTA_STATE_DATA` case of `ota_transaction`: process the bytes when
     * there are any, then finish when dl_done has reached dl_size (statuses dropped).
     */
    method FeedSession(data: seq<byte>)
      requires Valid() && phase == Data
      modifies this`engine, session`dlDone, dev
      ensures Valid()
      ensures session.dlDone == old(session.dlDone) || session.dlDone == old(session.dlDone) + |data|
      ensures |data| == 0 ==> session.dlDone == old(session.dlDone)
      ensures engine == old(engine) + FeedCalls(data, session.dlDone == session.dlSize)
      ensures (dev.State(), session.dlDone) == Fed(old(dev.State()), old(session.dlDone), data)
    {
      ghost var calls: seq<EngineCall> := [];
      if |data| > 0 {
        calls := [CallProcess(data)];
      }
      Hand(data);
      if session.dlDone == session.dlSize {
        Complete();
        calls := calls + [CallFinish];
      }
      assert calls == FeedCalls(data, session.dlDone == session.dlSize);
      engine := engine + calls;
    }

    /** The process call of the DATA case, made only when there are bytes; its status dropped. */
    method Hand(data: seq<byte>)
      requires Valid() && phase == Data
      modifies session`dlDone, dev
      ensures Valid()
      ensures (dev.State(), session.dlDone) == Processed(old(dev.State()), old(session.dlDone), data)
    {
      if |data| > 0 {
        var rc := session.Process(dev, data);
      }
    }

    /** The finish call of the DATA case, its status dropped. */
    method Complete()
      requires Valid() && phase == Data
      modifies dev
      ensures Valid()
      ensures dev.State() == Finished(old(dev.State()))
    {
      var rc;
      ghost var k;
      rc, k := session.Finish(dev);
    }

    /**
     * The CHAR3 case of `simpleProfile_WriteAttrCB`: a write at a nonzero offset or
     * longer than the characteristic halts, otherwise the value goes through
     * `ota_transaction`; reset tells whether `SysCtrlSystemReset` is then called,
     * which a write that completes the transfer does.
     */
    method WriteChar3(offset: nat, buf: seq<byte>) returns (outcome: Outcome, reset: bool)
      requires Valid() && !halted
      modifies this, session, dev
      ensures Valid()
      ensures offset != 0 ==> outcome == Halt(BadOffset)
      ensures offset == 0 && |buf| > char3Len ==> outcome == Halt(TooLong)
      ensures offset == 0 && |buf| <= char3Len ==>
        var a := Admit(buf, old(phase) == New, old(previousChunk), old(bytesReceived));
        outcome == if a.Ok? then Continue else Halt(a.error)
      ensures outcome.Halt? ==> halted && !reset && unchanged(dev) && unchanged(session)
      ensures outcome.Halt? ==> phase == old(phase) && previousChunk == old(previousChunk) && bytesReceived == old(bytesReceived)
      ensures outcome.Continue? ==>
        var e := ParseEnvelope(buf);
        reset <==> e.curChunk + 1 == e.numChunks
      ensures outcome.Continue? ==> Accepted(buf)
    {
      if offset != 0 {
        halted := true;
        return Halt(BadOffset), false;
      }
      if |buf| > char3Len {
        halted := true;
        return Halt(TooLong), false;
      }
      ghost var prev := previousChunk;
      outcome := Transaction(buf);
      if outcome.Halt? {
        return outcome, false;
      }
      assert ParseEnvelope(buf).curChunk == prev + 1;
      reset := previousChunk == -1;
    }
  }
}
