/**
 * The wire format of an update transfer as the firmware reads it: the packed
 * 12-byte chunk envelope (`struct OTABlob`), the 28-byte image header the first
 * chunk carries after it (`struct OTAHeader`), and the envelope checks of
 * `check_blob`.
 *
 * Every field is little-endian, as the Cortex-M3 target reads a packed struct.
 * The `while (1)` of a failed check is the outcome Err(reason): the firmware
 * stops there for good.
 */
module ChunkProtocol {
  import opened ByteCodec
  import opened Wrappers
  import opened OtaLayout

  const OTA_BLOB_MAGIC: u32 := 0xdabad000
  const OTA_MAX_BLOB_SIZE: nat := 400
  const OTA_CHUNK_MTU: nat := 80

  /** `sizeof(struct OTABlob)` under `#pragma pack(1)`: 4 + 2 + 1 + 1 + 2 + 2. */
  const ENVELOPE_SIZE: nat := 12
  /**
   * One load descriptor as the host packer writes it (`'<LHH'`): dest (4 bytes),
   * offset (2), len (2). The firmware's `struct ota_load` is used without a
   * definition in its sources, so this layout is taken from the packer.
   */
  const LOAD_SIZE: nat := 8
  /** `sizeof(struct OTAHeader)`: entrypoint (2), size (2), then OTA_MAX_LOADS loads. */
  const HEADER_SIZE: nat := 4 + OTA_MAX_LOADS * LOAD_SIZE

  /** `struct OTABlob`, the envelope in front of every chunk's bytes. */
  datatype Envelope = Envelope(magic: u32, totalSize: u16, curChunk: byte, numChunks: byte, checksum: u16, chunkLen: u16)

  /** `struct OTAHeader`, the image description at the start of the first chunk's bytes. */
  datatype ImageHeader = ImageHeader(entrypoint: u16, size: u16, loads: seq<Load>)

  /** Why the firmware stopped: a failed check of `check_blob` or of the attribute write. */
  datatype HaltReason =
    | TooShort        // shorter than the envelope
    | BadMagic        // magic is not OTA_BLOB_MAGIC
    | BadTotalSize    // total_size is 0 or above OTA_MAX_BLOB_SIZE
    | BadChunkLen     // chunk_len is 0 or above OTA_CHUNK_MTU
    | Truncated       // fewer bytes than the envelope plus chunk_len
    | OutOfSequence   // cur_chunk is not one past the previous chunk
    | OverCapacity    // the transfer would exceed OTA_MAX_BLOB_SIZE
    | HeaderTruncated // a first chunk too short to hold the image header
    | BadOffset       // an attribute write at a nonzero offset
    | TooLong         // an attribute write longer than the characteristic

  /** The envelope at the start of buf. */
  function ParseEnvelope(buf: seq<byte>): Envelope
    requires |buf| >= ENVELOPE_SIZE
  {
    Envelope(U32At(buf, 0), U16At(buf, 4), buf[6], buf[7], U16At(buf, 8), U16At(buf, 10))
  }

  /** The packed bytes of an envelope. */
  function EnvelopeBytes(e: Envelope): (r: seq<byte>)
    ensures |r| == ENVELOPE_SIZE
  {
    U32Bytes(e.magic) + U16Bytes(e.totalSize) + [e.curChunk, e.numChunks] + U16Bytes(e.checksum) + U16Bytes(e.chunkLen)
  }

  /** Reading the envelope of a packed envelope, whatever follows it, gives the envelope back. */
  lemma {:induction false} ParseEnvelopeBytes(e: Envelope, rest: seq<byte>)
    ensures ParseEnvelope(EnvelopeBytes(e) + rest) == e
  {
    var b := EnvelopeBytes(e) + rest;
    var m, t, c, l := U32Bytes(e.magic), U16Bytes(e.totalSize), U16Bytes(e.checksum), U16Bytes(e.chunkLen);
    assert b[0..4] == m && b[4..6] == t && b[6] == e.curChunk && b[7] == e.numChunks && b[8..10] == c && b[10..12] == l;
    assert U32At(b, 0) == U32At(m, 0);
    assert U16At(b, 4) == U16At(t, 0);
    assert U16At(b, 8) == U16At(c, 0);
    assert U16At(b, 10) == U16At(l, 0);
  }

  /** The load descriptor at offset at. */
  function ParseLoad(data: seq<byte>, at: nat): Load
    requires at + LOAD_SIZE <= |data|
  {
    Load(U32At(data, at), U16At(data, at + 4), U16At(data, at + 6))
  }

  /** The image header at the start of data. */
  function ParseHeader(data: seq<byte>): (h: ImageHeader)
    requires |data| >= HEADER_SIZE
    ensures |h.loads| == OTA_MAX_LOADS
  {
    ImageHeader(U16At(data, 0), U16At(data, 2),
      [ParseLoad(data, 4), ParseLoad(data, 4 + LOAD_SIZE), ParseLoad(data, 4 + 2 * LOAD_SIZE)])
  }

  /** The packed bytes of a load descriptor. */
  function LoadBytes(l: Load): (r: seq<byte>)
    ensures |r| == LOAD_SIZE
  {
    U32Bytes(l.dest) + U16Bytes(l.offset) + U16Bytes(l.len)
  }

  /** Reading a packed load descriptor, wherever it sits, gives it back. */
  lemma {:induction false} ParseLoadBytes(l: Load, before: seq<byte>, after: seq<byte>)
    ensures ParseLoad(before + LoadBytes(l) + after, |before|) == l
  {
    var b := before + LoadBytes(l) + after;
    var at := |before|;
    var d, o, n := U32Bytes(l.dest), U16Bytes(l.offset), U16Bytes(l.len);
    assert b[at..at + 4] == d && b[at + 4..at + 6] == o && b[at + 6..at + 8] == n;
    assert U32At(b, at) == U32At(d, 0);
    assert U16At(b, at + 4) == U16At(o, 0);
    assert U16At(b, at + 6) == U16At(n, 0);
  }

  /** The packed bytes of an image header with exactly OTA_MAX_LOADS loads. */
  function HeaderBytes(h: ImageHeader): (r: seq<byte>)
    requires |h.loads| == OTA_MAX_LOADS
    ensures |r| == HEADER_SIZE
  {
    U16Bytes(h.entrypoint) + U16Bytes(h.size) + LoadBytes(h.loads[0]) + LoadBytes(h.loads[1]) + LoadBytes(h.loads[2])
  }

  /** Reading the header of a packed header, whatever follows it, gives the header back. */
  lemma {:induction false} ParseHeaderBytes(h: ImageHeader, rest: seq<byte>)
    requires |h.loads| == OTA_MAX_LOADS
    ensures ParseHeader(HeaderBytes(h) + rest) == h
  {
    var e, s := U16Bytes(h.entrypoint), U16Bytes(h.size);
    var l0, l1, l2 := LoadBytes(h.loads[0]), LoadBytes(h.loads[1]), LoadBytes(h.loads[2]);
    var b := HeaderBytes(h) + rest;
    assert b == (e + s) + l0 + (l1 + l2 + rest);
    ParseLoadBytes(h.loads[0], e + s, l1 + l2 + rest);
    assert b == (e + s + l0) + l1 + (l2 + rest);
    ParseLoadBytes(h.loads[1], e + s + l0, l2 + rest);
    assert b == (e + s + l0 + l1) + l2 + rest;
    ParseLoadBytes(h.loads[2], e + s + l0 + l1, rest);
    assert b[0..2] == e && b[2..4] == s;
    assert U16At(b, 0) == U16At(e, 0);
    assert U16At(b, 2) == U16At(s, 0);
    assert ParseHeader(b).loads == h.loads;
  }

  /**
   * What `check_blob` demands of an envelope read from a buffer of len bytes,
   * after previousChunk chunks (counting from -1) and bytesReceived bytes.
   */
  predicate Admissible(e: Envelope, len: nat, previousChunk: int, bytesReceived: nat)
  {
    && e.magic == OTA_BLOB_MAGIC
    && 1 <= e.totalSize <= OTA_MAX_BLOB_SIZE
    && 1 <= e.chunkLen <= OTA_CHUNK_MTU
    && ENVELOPE_SIZE + e.chunkLen <= len
    && e.curChunk == previousChunk + 1
    && bytesReceived + e.chunkLen <= OTA_MAX_BLOB_SIZE
  }

  /**
   * `check_blob`: the checks in source order, the first failing one naming the
   * halt. The running total is an `unsigned`, so the capacity test adds in
   * 32-bit arithmetic.
   */
  function CheckBlob(buf: seq<byte>, previousChunk: int, bytesReceived: u32): (r: Result<Envelope, HaltReason>)
    ensures |buf| < ENVELOPE_SIZE <==> r == Err(TooShort)
    ensures r.Ok? ==> |buf| >= ENVELOPE_SIZE && r.value == ParseEnvelope(buf)
    ensures bytesReceived <= OTA_MAX_BLOB_SIZE ==>
      (r.Ok? <==> |buf| >= ENVELOPE_SIZE && Admissible(ParseEnvelope(buf), |buf|, previousChunk, bytesReceived))
  {
    if |buf| < ENVELOPE_SIZE then Err(TooShort)
    else
      var e := ParseEnvelope(buf);
      if e.magic != OTA_BLOB_MAGIC then Err(BadMagic)
      else if e.totalSize == 0 || e.totalSize > OTA_MAX_BLOB_SIZE then Err(BadTotalSize)
      else if e.chunkLen == 0 || e.chunkLen > OTA_CHUNK_MTU then Err(BadChunkLen)
      else if |buf| < ENVELOPE_SIZE + e.chunkLen then Err(Truncated)
      else if e.curChunk != previousChunk + 1 then Err(OutOfSequence)
      else if (bytesReceived + e.chunkLen) % U32_LIMIT > OTA_MAX_BLOB_SIZE then Err(OverCapacity)
      else Ok(e)
  }
}
