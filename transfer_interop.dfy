/**
 * The host scripts and the firmware together: the chunk files `prepare_blobs.py`
 * writes for an image, decoded back to bytes and written to CHAR3 in order, pass
 * every check of `check_blob`, carry the image header the first chunk must hold,
 * and hand the session exactly the image bytes.
 */
module TransferInterop {
  import opened ByteCodec
  import opened Wrappers
  import opened OtaLayout
  import opened ChunkProtocol
  import opened OtaTransfer
  import opened PrepareBlobs

  /** An image no bigger than the firmware accepts makes at most six 68-byte pieces. */
  lemma {:induction false} PiecesBounded(bytes: seq<byte>)
    requires |bytes| <= OTA_MAX_BLOB_SIZE
    ensures |Chunks(bytes, CHUNK_PAYLOAD_SIZE)| <= 6
  {
    ChunksCount(bytes, CHUNK_PAYLOAD_SIZE);
  }

  /** The bytes of piece i the session receives: the first piece without its image header. */
  function FedData(bytes: seq<byte>, i: nat): (r: seq<byte>)
    requires HEADER_SIZE <= |bytes| && i < |Chunks(bytes, CHUNK_PAYLOAD_SIZE)|
  {
    ChunkAt(bytes, CHUNK_PAYLOAD_SIZE, 0);
    var piece := Chunks(bytes, CHUNK_PAYLOAD_SIZE)[i];
    if i == 0 then piece[HEADER_SIZE..] else piece
  }

  /** The envelope the host puts in front of piece i. */
  function PieceEnvelope(bytes: seq<byte>, i: nat): Envelope
    requires |bytes| <= OTA_MAX_BLOB_SIZE && i < |Chunks(bytes, CHUNK_PAYLOAD_SIZE)|
  {
    PiecesBounded(bytes);
    ChunkSizes(bytes, CHUNK_PAYLOAD_SIZE, i);
    var pieces := Chunks(bytes, CHUNK_PAYLOAD_SIZE);
    Envelope(OTA_BLOB_MAGIC, |bytes|, i, |pieces|, 0, |pieces[i]|)
  }

  /**
   * Piece i with its envelope, written after pieces 0 to i - 1, passes the checks
   * and yields the bytes the session is fed; the counters then stand at piece i
   * and 68 * (i + 1) bytes, or back at their start after the last piece.
   */
  lemma {:induction false} PieceAccepted(bytes: seq<byte>, i: nat)
    requires HEADER_SIZE <= |bytes| <= OTA_MAX_BLOB_SIZE && i < |Chunks(bytes, CHUNK_PAYLOAD_SIZE)|
    ensures var e := PieceEnvelope(bytes, i);
      var buf := EnvelopeBytes(e) + Chunks(bytes, CHUNK_PAYLOAD_SIZE)[i];
      && Admit(buf, i == 0, i - 1, CHUNK_PAYLOAD_SIZE * i) == Ok(Chunk(e, FedData(bytes, i)))
      && var c := NextCounters(e, i - 1, CHUNK_PAYLOAD_SIZE * i);
      && (i + 1 == |Chunks(bytes, CHUNK_PAYLOAD_SIZE)| ==> c == (-1, 0))
      && (i + 1 < |Chunks(bytes, CHUNK_PAYLOAD_SIZE)| ==> c == (i, CHUNK_PAYLOAD_SIZE * (i + 1)))
  {
    var pieces := Chunks(bytes, CHUNK_PAYLOAD_SIZE);
    var e := PieceEnvelope(bytes, i);
    var buf := EnvelopeBytes(e) + pieces[i];
    PiecesBounded(bytes);
    ChunkAt(bytes, CHUNK_PAYLOAD_SIZE, i);
    ChunkAt(bytes, CHUNK_PAYLOAD_SIZE, 0);
    ChunkSizes(bytes, CHUNK_PAYLOAD_SIZE, i);
    ParseEnvelopeBytes(e, pieces[i]);
    assert Admissible(e, |buf|, i - 1, CHUNK_PAYLOAD_SIZE * i);
    assert buf[ENVELOPE_SIZE..] == pieces[i];
    if i == 0 {
      assert buf[ENVELOPE_SIZE + HEADER_SIZE..] == pieces[0][HEADER_SIZE..];
    }
  }

  /** The first piece's bytes after the envelope start with the image header. */
  lemma {:induction false} FirstPieceHeader(bytes: seq<byte>)
    requires HEADER_SIZE <= |bytes| <= OTA_MAX_BLOB_SIZE
    ensures 0 < |Chunks(bytes, CHUNK_PAYLOAD_SIZE)|
    ensures var buf := EnvelopeBytes(PieceEnvelope(bytes, 0)) + Chunks(bytes, CHUNK_PAYLOAD_SIZE)[0];
      |buf| >= ENVELOPE_SIZE + HEADER_SIZE && ParseHeader(buf[ENVELOPE_SIZE..]) == ParseHeader(bytes)
  {
    ChunksCount(bytes, CHUNK_PAYLOAD_SIZE);
    ChunkAt(bytes, CHUNK_PAYLOAD_SIZE, 0);
    var p := Chunks(bytes, CHUNK_PAYLOAD_SIZE)[0];
    var buf := EnvelopeBytes(PieceEnvelope(bytes, 0)) + p;
    assert buf[ENVELOPE_SIZE..] == p;
    assert p[..HEADER_SIZE] == bytes[..HEADER_SIZE];
    HeaderPrefix(p, bytes);
  }

  /** The header read from two byte strings is the same when their first 28 bytes are. */
  lemma {:induction false} HeaderPrefix(a: seq<byte>, b: seq<byte>)
    requires |a| >= HEADER_SIZE && |b| >= HEADER_SIZE && a[..HEADER_SIZE] == b[..HEADER_SIZE]
    ensures ParseHeader(a) == ParseHeader(b)
  {
    assert forall k :: 0 <= k < HEADER_SIZE ==> a[k] == a[..HEADER_SIZE][k] == b[..HEADER_SIZE][k] == b[k];
  }

  /** The bytes fed to the session, piece after piece, are everything after the image header. */
  lemma {:induction false} FedDataIsImage(bytes: seq<byte>)
    requires HEADER_SIZE <= |bytes|
    ensures var n := |Chunks(bytes, CHUNK_PAYLOAD_SIZE)|;
      Flatten(seq(n, i requires 0 <= i < n => FedData(bytes, i))) == bytes[HEADER_SIZE..]
  {
    var pieces := Chunks(bytes, CHUNK_PAYLOAD_SIZE);
    var n := |pieces|;
    ChunksCount(bytes, CHUNK_PAYLOAD_SIZE);
    ChunkAt(bytes, CHUNK_PAYLOAD_SIZE, 0);
    ChunksFlatten(bytes, CHUNK_PAYLOAD_SIZE);
    var fed := seq(n, i requires 0 <= i < n => FedData(bytes, i));
    assert fed == [pieces[0][HEADER_SIZE..]] + pieces[1..];
    assert Flatten(fed) == pieces[0][HEADER_SIZE..] + Flatten(pieces[1..]) by {
      assert fed[1..] == pieces[1..];
    }
    assert bytes == pieces[0] + Flatten(pieces[1..]);
  }

  /**
   * End to end: for an image whose header and bytes fit the firmware's limit,
   * `main` writes its chunk files without error, and chunk file i, decoded and
   * written as chunk i, is accepted with the envelope the host packed; it feeds
   * the session piece i of the image; the first one carries the header the host
   * dumped, announcing the image's size.
   */
  lemma {:induction false} PreparedChunkAccepted(ota: OtaJson, image: seq<byte>, i: nat)
    requires ota.data == ToHex(image) && MetadataHex(ota).Ok?
    requires HEADER_SIZE + |image| <= OTA_MAX_BLOB_SIZE
    ensures Blobs(ota).Ok?
    ensures var bytes := HeaderBytes(MetadataHeader(ota)) + image;
      var files := Blobs(ota).value;
      && |files| == |Chunks(bytes, CHUNK_PAYLOAD_SIZE)|
      && (i < |files| ==>
        && FromHex(files[i]) == Some(EnvelopeBytes(PieceEnvelope(bytes, i)) + Chunks(bytes, CHUNK_PAYLOAD_SIZE)[i])
        && Admit(FromHex(files[i]).value, i == 0, i - 1, CHUNK_PAYLOAD_SIZE * i) ==
           Ok(Chunk(PieceEnvelope(bytes, i), FedData(bytes, i))))
    ensures var bytes := HeaderBytes(MetadataHeader(ota)) + image;
      ParseHeader(bytes) == MetadataHeader(ota) && MetadataHeader(ota).size == |image|
  {
    var meta := MetadataHex(ota).value;
    var bytes := HeaderBytes(MetadataHeader(ota)) + image;
    var pieces := Chunks(bytes, CHUNK_PAYLOAD_SIZE);
    PayloadIsHex(ota, image);
    HexChunksCount(bytes, CHUNK_PAYLOAD_SIZE);
    PiecesBounded(bytes);
    ChunksCount(bytes, CHUNK_PAYLOAD_SIZE);
    assert !PackFails(meta, ota);
    if i < |pieces| {
      BlobBytes(ota, image, i);
      PieceAccepted(bytes, i);
    }
    ParseHeaderBytes(MetadataHeader(ota), image);
  }
}
