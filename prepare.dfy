/**
 * The host packaging script (`prepare_blobs.py`): it turns the extracted image
 * into the chunk files a client sends to the CHAR3 characteristic.
 *
 * The image travels as a lowercase hex string. The 28-byte image header (entrypoint,
 * image size, three load descriptors) goes in front of the image bytes, and the result
 * is cut into pieces of 68 bytes (136 hex characters). Each piece gets the 12-byte
 * little-endian chunk envelope. A value that `struct.pack` cannot pack raises,
 * modelled as Err(StructError).
 */
module PrepareBlobs {
  import opened ByteCodec
  import opened Wrappers
  import opened OtaLayout
  import opened ChunkProtocol

  const CHUNK_SIZE: nat := 80
  const CHUNK_OVERHEAD: nat := 12
  /** `_CHUNK_SIZE - _CHUNK_OVERHEAD`, written out so that products with it stay linear. */
  const CHUNK_PAYLOAD_SIZE: nat := 68
  const OTA_MAGIC: u32 := 0xdabad000

  /** Hex characters per chunk: two per payload byte. */
  const CHUNK_HEX_SIZE: nat := 136

  /** The exception `struct.pack` raises for a value out of its field's range. */
  datatype PackError = StructError

  /** One entry of the image's load list: the `dest`, `offset` and `len` keys. */
  datatype LoadRecord = LoadRecord(dest: int, offset: int, len: int)

  /** The extracted image as the script reads it: entrypoint, load list, image bytes as hex. */
  datatype OtaJson = OtaJson(entrypoint: int, loads: seq<LoadRecord>, data: seq<char>)

  // ---------------------------------------------------------------------------
  // Hex text

  /** The lowercase hex digit of d, as `'{0:02x}'` writes it. */
  function HexDigit(d: nat): (c: char)
    requires d < 16
    ensures '0' <= c <= '9' || 'a' <= c <= 'f'
  {
    if d < 10 then ('0' as int + d) as char else ('a' as int + d - 10) as char
  }

  /** The value of a lowercase hex digit. */
  function HexValue(c: char): (r: Option<nat>)
    ensures r.Some? <==> '0' <= c <= '9' || 'a' <= c <= 'f'
    ensures r.Some? ==> r.value < 16 && HexDigit(r.value) == c
  {
    if '0' <= c <= '9' then Some(c as int - '0' as int)
    else if 'a' <= c <= 'f' then Some(c as int - 'a' as int + 10)
    else None
  }

  lemma {:induction false} HexValueOfDigit(d: nat)
    requires d < 16
    ensures HexValue(HexDigit(d)) == Some(d)
  {
  }

  /** `to_hex`: two lowercase hex digits per byte, high nibble first, in order. */
  function ToHex(x: seq<byte>): (r: seq<char>)
    ensures |r| == 2 * |x|
  {
    if x == [] then [] else [HexDigit(x[0] / 16), HexDigit(x[0] % 16)] + ToHex(x[1..])
  }

  /** Characters 2i and 2i + 1 of the hex text are the high and low digit of byte i. */
  lemma {:induction false} ToHexDigits(x: seq<byte>, i: nat)
    requires i < |x|
    ensures ToHex(x)[2 * i] == HexDigit(x[i] / 16) && ToHex(x)[2 * i + 1] == HexDigit(x[i] % 16)
    decreases i
  {
    if i > 0 {
      ToHexDigits(x[1..], i - 1);
      assert ToHex(x)[2 * i] == ToHex(x[1..])[2 * (i - 1)];
      assert ToHex(x)[2 * i + 1] == ToHex(x[1..])[2 * (i - 1) + 1];
    }
  }

  /** The bytes a hex string denotes: pairs of lowercase digits, None for anything else. */
  function FromHex(s: seq<char>): (r: Option<seq<byte>>)
    ensures r.Some? ==> 2 * |r.value| == |s|
    decreases |s|
  {
    if |s| == 0 then Some([])
    else if |s| == 1 then None
    else
      match (HexValue(s[0]), HexValue(s[1]), FromHex(s[2..]))
      case (Some(hi), Some(lo), Some(rest)) => Some([16 * hi + lo] + rest)
      case _ => None
  }

  /** Decoding the hex text of bytes gives the bytes back. */
  lemma {:induction false} FromHexToHex(x: seq<byte>)
    ensures FromHex(ToHex(x)) == Some(x)
    decreases |x|
  {
    if x != [] {
      var s := ToHex(x);
      assert s[2..] == ToHex(x[1..]);
      FromHexToHex(x[1..]);
      HexValueOfDigit(x[0] / 16);
      HexValueOfDigit(x[0] % 16);
      assert [x[0]] + x[1..] == x;
    }
  }

  /** The hex text of a concatenation is the concatenation of the hex texts. */
  lemma {:induction false} ToHexAppend(x: seq<byte>, y: seq<byte>)
    ensures ToHex(x + y) == ToHex(x) + ToHex(y)
    decreases |x|
  {
    if x == [] {
      assert x + y == y;
    } else {
      ToHexAppend(x[1..], y);
      assert (x + y)[1..] == x[1..] + y;
      var d := [HexDigit(x[0] / 16), HexDigit(x[0] % 16)];
      calc {
        ToHex(x + y);
        d + ToHex(x[1..] + y);
        d + (ToHex(x[1..]) + ToHex(y));
        (d + ToHex(x[1..])) + ToHex(y);
      }
    }
  }

  /** The hex text of a slice is the matching slice of the hex text. */
  lemma {:induction false} ToHexSlice(x: seq<byte>, a: nat, b: nat)
    requires a <= b <= |x|
    ensures ToHex(x)[2 * a..2 * b] == ToHex(x[a..b])
  {
    assert x == x[..a] + x[a..b] + x[b..];
    ToHexAppend(x[..a] + x[a..b], x[b..]);
    ToHexAppend(x[..a], x[a..b]);
  }

  // ---------------------------------------------------------------------------
  // Chunking

  /** The pieces `iter_chunks` yields: w items each, the last one possibly shorter. */
  function Chunks<T>(s: seq<T>, w: nat): seq<seq<T>>
    requires w > 0
    decreases |s|
  {
    if |s| == 0 then []
    else if |s| <= w then [s]
    else [s[..w]] + Chunks(s[w..], w)
  }

  /** Concatenation of a list of pieces. */
  function Flatten<T>(ss: seq<seq<T>>): seq<T>
  {
    if ss == [] then [] else ss[0] + Flatten(ss[1..])
  }

  /** Integer `ceil(n / w)`. */
  function CeilDiv(n: nat, w: nat): nat
    requires w > 0
  {
    (n + w - 1) / w
  }

  /** The pieces put back together give the input. */
  lemma {:induction false} ChunksFlatten<T>(s: seq<T>, w: nat)
    requires w > 0
    ensures Flatten(Chunks(s, w)) == s
    decreases |s|
  {
    if |s| > w {
      ChunksFlatten(s[w..], w);
      assert Chunks(s, w)[1..] == Chunks(s[w..], w);
      assert s[..w] + s[w..] == s;
    }
  }

  /** `(n + w) / w` is one more than `n / w`. */
  lemma {:induction false} DivPlusOne(n: nat, w: nat)
    requires w > 0
    ensures (n + w) / w == n / w + 1
  {
    var q := n / w;
    assert n == q * w + n % w;
    assert (q + 1) * w == q * w + w;
    DivUnique(n + w, w, q + 1);
  }

  /** Up to w items make one piece. */
  lemma {:induction false} CeilDivOne(n: nat, w: nat)
    requires 0 < n <= w
    ensures CeilDiv(n, w) == 1
  {
    DivUnique(n + w - 1, w, 1);
  }

  /** More than w items make one piece more than the items after the first w. */
  lemma {:induction false} CeilDivStep(n: nat, w: nat)
    requires 0 < w < n
    ensures CeilDiv(n, w) == CeilDiv(n - w, w) + 1
  {
    DivPlusOne(n - 1, w);
  }

  /** Doubling both the count and the width keeps the number of pieces. */
  lemma {:induction false} CeilDivDouble(n: nat, w: nat)
    requires w > 0
    ensures CeilDiv(2 * n, 2 * w) == CeilDiv(n, w)
  {
    var m := n + w - 1;
    var q := m / w;
    assert m == q * w + m % w;
    assert q * (2 * w) == 2 * (q * w);
    DivUnique(2 * n + 2 * w - 1, 2 * w, q);
  }

  /** There are `ceil(|s| / w)` pieces. */
  lemma {:induction false} ChunksCount<T>(s: seq<T>, w: nat)
    requires w > 0
    ensures |Chunks(s, w)| == CeilDiv(|s|, w)
    decreases |s|
  {
    if |s| == 0 {
    } else if |s| <= w {
      CeilDivOne(|s|, w);
    } else {
      ChunksCount(s[w..], w);
      CeilDivStep(|s|, w);
    }
  }

  /** Piece i is the slice from i * w, w items long or up to the end. */
  lemma {:induction false} ChunkAt<T>(s: seq<T>, w: nat, i: nat)
    requires w > 0 && i < |Chunks(s, w)|
    ensures w * i < |s|
    ensures Chunks(s, w)[i] == s[w * i..if w * i + w <= |s| then w * i + w else |s|]
    decreases |s|
  {
    if i > 0 {
      assert |s| > w;
      assert Chunks(s, w)[i] == Chunks(s[w..], w)[i - 1];
      ChunkAt(s[w..], w, i - 1);
      assert w * i == w * (i - 1) + w;
    }
  }

  /** Every piece is nonempty and at most w long, and all but the last are exactly w long. */
  lemma {:induction false} ChunkSizes<T>(s: seq<T>, w: nat, i: nat)
    requires w > 0 && i < |Chunks(s, w)|
    ensures 0 < |Chunks(s, w)[i]| <= w
    ensures i + 1 < |Chunks(s, w)| ==> |Chunks(s, w)[i]| == w
  {
    ChunkAt(s, w, i);
    if i + 1 < |Chunks(s, w)| {
      ChunkAt(s, w, i + 1);
    }
  }

  lemma {:induction false} DoubleMul(w: nat, i: nat)
    ensures (2 * w) * i == 2 * (w * i)
  {
  }

  /** Hex text cut at twice the width has as many pieces as the bytes it denotes. */
  lemma {:induction false} HexChunksCount(x: seq<byte>, w: nat)
    requires w > 0
    ensures |Chunks(ToHex(x), 2 * w)| == |Chunks(x, w)|
  {
    ChunksCount(x, w);
    ChunksCount(ToHex(x), 2 * w);
    CeilDivDouble(|x|, w);
  }

  /** Cutting hex text at even widths cuts the bytes it denotes at half the width. */
  lemma {:induction false} HexChunks(x: seq<byte>, w: nat, i: nat)
    requires w > 0 && i < |Chunks(x, w)|
    ensures |Chunks(ToHex(x), 2 * w)| == |Chunks(x, w)|
    ensures Chunks(ToHex(x), 2 * w)[i] == ToHex(Chunks(x, w)[i])
  {
    HexChunksCount(x, w);
    ChunkAt(x, w, i);
    ChunkAt(ToHex(x), 2 * w, i);
    var a := w * i;
    var b := if a + w <= |x| then a + w else |x|;
    DoubleMul(w, i);
    assert Chunks(ToHex(x), 2 * w)[i] == ToHex(x)[2 * a..2 * b];
    ToHexSlice(x, a, b);
  }

  /** `iter_chunks`: slices the hex text into pieces of 2 * 68 characters. */
  method IterChunks(data: seq<char>) returns (chunks: seq<seq<char>>)
    ensures chunks == Chunks(data, CHUNK_HEX_SIZE)
  {
    var rest := data;
    chunks := [];
    while rest != []
      invariant chunks + Chunks(rest, CHUNK_HEX_SIZE) == Chunks(data, CHUNK_HEX_SIZE)
      decreases |rest|
    {
      var chunk := if |rest| <= CHUNK_HEX_SIZE then rest else rest[..CHUNK_HEX_SIZE];
      rest := if |rest| <= CHUNK_HEX_SIZE then [] else rest[CHUNK_HEX_SIZE..];
      chunks := chunks + [chunk];
    }
  }

  // ---------------------------------------------------------------------------
  // Packing

  predicate FitsU32(x: int) { 0 <= x < 0x1_0000_0000 }
  predicate FitsU16(x: int) { 0 <= x < 0x1_0000 }
  predicate FitsU8(x: int) { 0 <= x < 0x100 }

  /**
   * `create_chunk`: the hex text of `struct.pack('<LHBBHH', OTA_MAGIC, ...)` followed by
   * the payload text.
   */
  function CreateChunk(totalSize: int, curChunk: int, numChunks: int, csum: int, chunkLen: int, payload: seq<char>)
    : (r: Result<seq<char>, PackError>)
    ensures r.Ok? <==> FitsU16(totalSize) && FitsU8(curChunk) && FitsU8(numChunks) && FitsU16(csum) && FitsU16(chunkLen)
    ensures r.Ok? ==> |r.value| == 2 * CHUNK_OVERHEAD + |payload| && r.value[2 * CHUNK_OVERHEAD..] == payload
    ensures r.Ok? ==>
      FromHex(r.value[..2 * CHUNK_OVERHEAD]) == Some(EnvelopeBytes(Envelope(OTA_MAGIC, totalSize, curChunk, numChunks, csum, chunkLen)))
  {
    if FitsU16(totalSize) && FitsU8(curChunk) && FitsU8(numChunks) && FitsU16(csum) && FitsU16(chunkLen) then
      var e := EnvelopeBytes(Envelope(OTA_MAGIC, totalSize, curChunk, numChunks, csum, chunkLen));
      FromHexToHex(e);
      var r := ToHex(e) + payload;
      assert r[..2 * CHUNK_OVERHEAD] == ToHex(e);
      Ok(r)
    else Err(StructError)
  }

  /** The firmware reads back every envelope field a chunk was packed with, and then its payload. */
  lemma {:induction false} CreateChunkRoundTrip(e: Envelope, payload: seq<byte>)
    requires e.magic == OTA_MAGIC && e.chunkLen == |payload|
    ensures CreateChunk(e.totalSize, e.curChunk, e.numChunks, e.checksum, e.chunkLen, ToHex(payload)).Ok?
    ensures var b := FromHex(CreateChunk(e.totalSize, e.curChunk, e.numChunks, e.checksum, e.chunkLen, ToHex(payload)).value);
      && b == Some(EnvelopeBytes(e) + payload)
      && ParseEnvelope(b.value) == e && b.value[ENVELOPE_SIZE..] == payload
  {
    var eb := EnvelopeBytes(e);
    var r := CreateChunk(e.totalSize, e.curChunk, e.numChunks, e.checksum, e.chunkLen, ToHex(payload));
    assert r.value == ToHex(eb) + ToHex(payload);
    ToHexAppend(eb, payload);
    FromHexToHex(eb + payload);
    ParseEnvelopeBytes(e, payload);
  }

  /** `chunk_csum`: no checksum yet. */
  function ChunkCsum(chunk: seq<char>): (r: int)
    ensures r == 0
  {
    0
  }

  /** `dump_load`: `struct.pack('<LHH', dest, off, size)`, the firmware's `struct ota_load`. */
  function DumpLoad(dest: int, off: int, size: int): (r: Result<seq<byte>, PackError>)
    ensures r.Ok? <==> FitsU32(dest) && FitsU16(off) && FitsU16(size)
    ensures r.Ok? ==> |r.value| == LOAD_SIZE
    ensures r.Ok? ==> ParseLoad(r.value, 0) == Load(dest, off, size)
  {
    if FitsU32(dest) && FitsU16(off) && FitsU16(size) then
      var b := LoadBytes(Load(dest, off, size));
      ParseLoadBytes(Load(dest, off, size), [], []);
      assert [] + b + [] == b;
      Ok(b)
    else Err(StructError)
  }

  /** Load i of the header: the i-th record when there is one, all zero otherwise. */
  function LoadSlot(loads: seq<LoadRecord>, i: nat): LoadRecord
  {
    if i < |loads| then loads[i] else LoadRecord(0, 0, 0)
  }

  predicate LoadFits(l: LoadRecord)
  {
    FitsU32(l.dest) && FitsU16(l.offset) && FitsU16(l.len)
  }

  /** The three load slots of the header can be packed. */
  predicate SlotsFit(loads: seq<LoadRecord>)
  {
    forall i :: 0 <= i < OTA_MAX_LOADS ==> LoadFits(LoadSlot(loads, i))
  }

  /** Load slot i as the firmware's load descriptor. */
  function SlotLoad(loads: seq<LoadRecord>, i: nat): Load
    requires i < OTA_MAX_LOADS && SlotsFit(loads)
  {
    var l := LoadSlot(loads, i);
    Load(l.dest, l.offset, l.len)
  }

  /** The packed bytes of the first n load slots. */
  function SlotsBytes(loads: seq<LoadRecord>, n: nat): (r: seq<byte>)
    requires n <= OTA_MAX_LOADS && SlotsFit(loads)
    ensures |r| == LOAD_SIZE * n
  {
    if n == 0 then [] else SlotsBytes(loads, n - 1) + LoadBytes(SlotLoad(loads, n - 1))
  }

  /** The image size the header announces: the number of bytes the hex text denotes. */
  function ImageSize(ota: OtaJson): nat
  {
    |ota.data| / 2
  }

  /** The header `dump_metadata` describes, when every field fits. */
  function MetadataHeader(ota: OtaJson): (h: ImageHeader)
    requires FitsU16(ota.entrypoint) && FitsU16(ImageSize(ota)) && SlotsFit(ota.loads)
    ensures |h.loads| == OTA_MAX_LOADS
  {
    ImageHeader(ota.entrypoint, ImageSize(ota), [SlotLoad(ota.loads, 0), SlotLoad(ota.loads, 1), SlotLoad(ota.loads, 2)])
  }

  /**
   * What `dump_metadata` produces: the hex text of the image header with the
   * first three loads (missing ones zero), or the packing error.
   */
  function MetadataHex(ota: OtaJson): (r: Result<seq<char>, PackError>)
    ensures r.Ok? <==> FitsU16(ota.entrypoint) && FitsU16(ImageSize(ota)) && SlotsFit(ota.loads)
    ensures r.Ok? ==> |r.value| == 2 * HEADER_SIZE
  {
    if FitsU16(ota.entrypoint) && FitsU16(ImageSize(ota)) && SlotsFit(ota.loads)
    then Ok(ToHex(HeaderBytes(MetadataHeader(ota))))
    else Err(StructError)
  }

  /**
   * The firmware reads back from the metadata text the entrypoint, the image size
   * and the first three loads, zero-filled, whatever the length of the load list.
   */
  lemma {:induction false} MetadataRoundTrip(ota: OtaJson, rest: seq<byte>)
    requires MetadataHex(ota).Ok?
    ensures FromHex(MetadataHex(ota).value).Some?
    ensures var h := ParseHeader(FromHex(MetadataHex(ota).value).value + rest);
      && h.entrypoint == ota.entrypoint && h.size == ImageSize(ota)
      && (forall i :: 0 <= i < OTA_MAX_LOADS ==> h.loads[i] == SlotLoad(ota.loads, i))
  {
    var h := MetadataHeader(ota);
    FromHexToHex(HeaderBytes(h));
    ParseHeaderBytes(h, rest);
  }

  /** The header bytes are entrypoint, image size and the three load slots, in that order. */
  lemma {:induction false} HeaderIsSlots(ota: OtaJson)
    requires FitsU16(ota.entrypoint) && FitsU16(ImageSize(ota)) && SlotsFit(ota.loads)
    ensures HeaderBytes(MetadataHeader(ota)) == U16Bytes(ota.entrypoint) + U16Bytes(ImageSize(ota)) + SlotsBytes(ota.loads, 3)
  {
    var h := MetadataHeader(ota);
    var l0, l1, l2 := LoadBytes(h.loads[0]), LoadBytes(h.loads[1]), LoadBytes(h.loads[2]);
    assert SlotsBytes(ota.loads, 1) == l0 by {
      assert SlotsBytes(ota.loads, 1) == [] + l0;
    }
    assert SlotsBytes(ota.loads, 3) == l0 + l1 + l2;
  }

  /**
   * `dump_metadata`: packs entrypoint and image size, then three loads (missing
   * ones as zeros, extra ones dropped), and returns the hex text.
   */
  method DumpMetadata(ota: OtaJson) returns (r: Result<seq<char>, PackError>)
    ensures r == MetadataHex(ota)
  {
    if !FitsU16(ota.entrypoint) || !FitsU16(ImageSize(ota)) {
      return Err(StructError);
    }
    var res := U16Bytes(ota.entrypoint) + U16Bytes(ImageSize(ota));
    for i := 0 to OTA_MAX_LOADS
      invariant forall k :: 0 <= k < i ==> LoadFits(LoadSlot(ota.loads, k))
      invariant SlotsFit(ota.loads) ==> res == U16Bytes(ota.entrypoint) + U16Bytes(ImageSize(ota)) + SlotsBytes(ota.loads, i)
    {
      var l := LoadSlot(ota.loads, i);
      var b := DumpLoad(l.dest, l.offset, l.len);
      if b.Err? {
        return Err(StructError);
      }
      res := res + b.value;
    }
    assert SlotsFit(ota.loads);
    HeaderIsSlots(ota);
    return Ok(ToHex(res));
  }

  // ---------------------------------------------------------------------------
  // The chunk files

  /** The text the script sends: metadata followed by the image. */
  function Payload(meta: seq<char>, ota: OtaJson): seq<char>
  {
    meta + ota.data
  }

  /** `total_size`: the bytes of metadata and image together. */
  function TotalSize(meta: seq<char>, ota: OtaJson): nat
  {
    |Payload(meta, ota)| / 2
  }

  /** `num_chunks`: `ceil(total_size / 68)`. */
  function NumChunks(meta: seq<char>, ota: OtaJson): nat
  {
    CeilDiv(TotalSize(meta, ota), CHUNK_PAYLOAD_SIZE)
  }

  /**
   * Chunk file i as the loop of `main` packs it: the envelope with index i of
   * num_chunks, checksum 0 and the piece's byte count, then the piece.
   */
  function ChunkFile(meta: seq<char>, ota: OtaJson, i: nat): (r: Result<seq<char>, PackError>)
    requires i < |Chunks(Payload(meta, ota), CHUNK_HEX_SIZE)|
    ensures r.Ok? <==> FitsU16(TotalSize(meta, ota)) && FitsU8(i) && FitsU8(NumChunks(meta, ota))
  {
    var chunk := Chunks(Payload(meta, ota), CHUNK_HEX_SIZE)[i];
    ChunkSizes(Payload(meta, ota), CHUNK_HEX_SIZE, i);
    CreateChunk(TotalSize(meta, ota), i, NumChunks(meta, ota), ChunkCsum(chunk), |chunk| / 2, chunk)
  }

  /** Some chunk's envelope cannot be packed. */
  predicate PackFails(meta: seq<char>, ota: OtaJson)
  {
    var n := |Chunks(Payload(meta, ota), CHUNK_HEX_SIZE)|;
    n > 0 && (!FitsU16(TotalSize(meta, ota)) || !FitsU8(NumChunks(meta, ota)) || !FitsU8(n - 1))
  }

  /** The files `main` writes, `ota.chunk.0` first, or the error it stops with. */
  function Blobs(ota: OtaJson): (r: Result<seq<seq<char>>, PackError>)
  {
    match MetadataHex(ota)
    case Err(e) => Err(e)
    case Ok(meta) =>
      if PackFails(meta, ota) then Err(StructError)
      else
        var n := |Chunks(Payload(meta, ota), CHUNK_HEX_SIZE)|;
        Ok(seq(n, i requires 0 <= i < n => ChunkFile(meta, ota, i).value))
  }

  /**
   * The chunk loop of `main`: metadata plus image, cut into pieces, each piece
   * wrapped in its envelope; file writes become the returned list.
   */
  method PrepareChunks(ota: OtaJson) returns (r: Result<seq<seq<char>>, PackError>)
    ensures r == Blobs(ota)
  {
    var meta := DumpMetadata(ota);
    if meta.Err? {
      return Err(meta.error);
    }
    var data := meta.value + ota.data;
    var totalSize := |data| / 2;
    var numChunks := CeilDiv(totalSize, CHUNK_PAYLOAD_SIZE);
    var chunks := IterChunks(data);
    assert data == Payload(meta.value, ota);
    assert totalSize == TotalSize(meta.value, ota) && numChunks == NumChunks(meta.value, ota);
    var files: seq<seq<char>> := [];
    for i := 0 to |chunks|
      invariant |files| == i
      invariant 0 < i ==> FitsU16(totalSize) && FitsU8(numChunks) && FitsU8(i - 1)
      invariant forall k :: 0 <= k < i ==> ChunkFile(meta.value, ota, k) == Ok(files[k])
    {
      var chunk := chunks[i];
      var res := CreateChunk(totalSize, i, numChunks, ChunkCsum(chunk), |chunk| / 2, chunk);
      assert res == ChunkFile(meta.value, ota, i);
      if res.Err? {
        return Err(res.error);
      }
      files := files + [res.value];
    }
    assert !PackFails(meta.value, ota);
    assert files == seq(|chunks|, k requires 0 <= k < |chunks| => ChunkFile(meta.value, ota, k).value);
    return Ok(files);
  }

  /** The text `main` cuts is the hex text of the header bytes followed by the image. */
  lemma {:induction false} PayloadIsHex(ota: OtaJson, image: seq<byte>)
    requires ota.data == ToHex(image) && MetadataHex(ota).Ok?
    ensures Payload(MetadataHex(ota).value, ota) == ToHex(HeaderBytes(MetadataHeader(ota)) + image)
    ensures TotalSize(MetadataHex(ota).value, ota) == HEADER_SIZE + |image|
  {
    ToHexAppend(HeaderBytes(MetadataHeader(ota)), image);
  }

  /** Chunk file i packs piece i of the bytes the text denotes, with its envelope. */
  lemma {:induction false} ChunkFileBytes(meta: seq<char>, ota: OtaJson, bytes: seq<byte>, i: nat)
    requires Payload(meta, ota) == ToHex(bytes) && i < |Chunks(Payload(meta, ota), CHUNK_HEX_SIZE)|
    requires ChunkFile(meta, ota, i).Ok?
    ensures var pieces := Chunks(bytes, CHUNK_PAYLOAD_SIZE);
      && i < |Chunks(Payload(meta, ota), CHUNK_HEX_SIZE)| == |pieces| == NumChunks(meta, ota)
      && |bytes| < 0x1_0000 && |pieces| < 0x100 && i < 0x100 && |pieces[i]| <= CHUNK_PAYLOAD_SIZE
      && FromHex(ChunkFile(meta, ota, i).value) ==
         Some(EnvelopeBytes(Envelope(OTA_MAGIC, |bytes|, i, |pieces|, 0, |pieces[i]|)) + pieces[i])
  {
    var pieces := Chunks(bytes, CHUNK_PAYLOAD_SIZE);
    HexChunksCount(bytes, CHUNK_PAYLOAD_SIZE);
    HexChunks(bytes, CHUNK_PAYLOAD_SIZE, i);
    ChunksCount(bytes, CHUNK_PAYLOAD_SIZE);
    ChunkSizes(bytes, CHUNK_PAYLOAD_SIZE, i);
    var chunk := Chunks(Payload(meta, ota), CHUNK_HEX_SIZE)[i];
    assert chunk == ToHex(pieces[i]);
    assert TotalSize(meta, ota) == |bytes|;
    assert NumChunks(meta, ota) == |pieces|;
    assert |chunk| / 2 == |pieces[i]|;
    var e := Envelope(OTA_MAGIC, |bytes|, i, |pieces|, 0, |pieces[i]|);
    assert ChunkFile(meta, ota, i) == CreateChunk(e.totalSize, e.curChunk, e.numChunks, e.checksum, e.chunkLen, chunk);
    CreateChunkRoundTrip(e, pieces[i]);
  }

  /**
   * What the firmware receives: decoding chunk file i gives the envelope (index i
   * of as many chunks as there are files, total size counting header and image,
   * checksum 0, the piece's length) followed by piece i of header-plus-image, cut
   * every 68 bytes.
   */
  lemma {:induction false} BlobBytes(ota: OtaJson, image: seq<byte>, i: nat)
    requires ota.data == ToHex(image) && MetadataHex(ota).Ok?
    requires Blobs(ota).Ok? && i < |Blobs(ota).value|
    ensures var bytes := HeaderBytes(MetadataHeader(ota)) + image;
      var pieces := Chunks(bytes, CHUNK_PAYLOAD_SIZE);
      && |Blobs(ota).value| == |pieces| == NumChunks(MetadataHex(ota).value, ota)
      && |bytes| < 0x1_0000 && |pieces| < 0x100 && i < |pieces| && |pieces[i]| <= CHUNK_PAYLOAD_SIZE
      && FromHex(Blobs(ota).value[i]) ==
         Some(EnvelopeBytes(Envelope(OTA_MAGIC, |bytes|, i, |pieces|, 0, |pieces[i]|)) + pieces[i])
  {
    var meta := MetadataHex(ota).value;
    var bytes := HeaderBytes(MetadataHeader(ota)) + image;
    PayloadIsHex(ota, image);
    HexChunksCount(bytes, CHUNK_PAYLOAD_SIZE);
    assert !PackFails(meta, ota);
    assert Blobs(ota).value[i] == ChunkFile(meta, ota, i).value;
    ChunkFileBytes(meta, ota, bytes, i);
  }
}
