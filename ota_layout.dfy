/**
 * The on-flash layout of the update region: constants, zone addresses and the
 * records that describe a zone and a download.
 *
 * The region holds NR_OTA_ZONES zones back to back from OTA_FLASH_BASE; a zone is
 * OTA_PAYLOAD_SIZE payload bytes followed by a metadata trailer of three 32-bit
 * words: gen, entrypoint, done (in that order, no padding).
 */
module OtaLayout {
  import opened ByteCodec

  const OTA_FLASH_BASE: nat := 0x18000
  const OTA_FLASH_SIZE: nat := 0x8000
  const NR_OTA_ZONES: nat := 2
  const OTA_ZONE_SIZE: nat := OTA_FLASH_SIZE / NR_OTA_ZONES
  const OTA_DONE_MAGIC: u32 := 0x23513dce

  /** `(unsigned long) -1`: the generation that marks a zone as never committed. */
  const INVALID_GEN: u32 := 0xFFFF_FFFF

  /** `unsigned long` and function pointers are four bytes wide on the target. */
  const WORD_SIZE: nat := 4
  const METADATA_SIZE: nat := 3 * WORD_SIZE
  const OTA_PAYLOAD_SIZE: nat := OTA_ZONE_SIZE - METADATA_SIZE

  /** Offsets of the metadata fields within the trailer. */
  const GEN_OFFSET: nat := 0
  const ENTRYPOINT_OFFSET: nat := 4
  const DONE_OFFSET: nat := 8

  type ZoneIndex = i: nat | i < NR_OTA_ZONES

  /** `struct ota_metadata`. */
  datatype Metadata = Metadata(gen: u32, entrypoint: u32, done: u32)

  /** A zone counts only when its done word is the magic and its gen is not the sentinel. */
  predicate IsValid(m: Metadata)
  {
    m.done == OTA_DONE_MAGIC && m.gen != INVALID_GEN
  }

  /** `struct ota_zone`: the payload area and its trailer. */
  datatype Zone = Zone(payload: seq<byte>, metadata: Metadata)

  /**
   * One load descriptor of the image header (`struct ota_load`). Its fields and
   * widths follow the host packer's `dump_load`; the firmware sources use the
   * struct without defining it.
   */
  datatype Load = Load(dest: u32, offset: u16, len: u16)

  /**
   * Number of load descriptors in the image header (`OTA_MAX_LOADS`): the three
   * slots `dump_metadata` writes, since the firmware sources do not define it.
   */
  const OTA_MAX_LOADS: nat := 3

  /** `struct ota_dl_params`, with the load table the transfer protocol fills in. */
  datatype DlParams = DlParams(dlSize: nat, entrypoint: u32, loads: seq<Load>)

  /** The zone that is not t. */
  function Other(t: ZoneIndex): (o: ZoneIndex)
    ensures o != t && (t + 1) % NR_OTA_ZONES == o
  {
    (t + 1) % NR_OTA_ZONES
  }

  /** Absolute address of zone i (`&OTA_REGION->zones[i]`). */
  function ZoneAddr(i: ZoneIndex): (a: nat)
    ensures OTA_FLASH_BASE <= a && a + OTA_ZONE_SIZE <= OTA_FLASH_BASE + OTA_FLASH_SIZE
  {
    OTA_FLASH_BASE + i * OTA_ZONE_SIZE
  }

  /** Absolute address of the metadata trailer of zone i. */
  function MetadataAddr(i: ZoneIndex): (a: nat)
    ensures a + METADATA_SIZE == ZoneAddr(i) + OTA_ZONE_SIZE
  {
    ZoneAddr(i) + OTA_PAYLOAD_SIZE
  }

  function GenAddr(i: ZoneIndex): nat { MetadataAddr(i) + GEN_OFFSET }
  function EntrypointAddr(i: ZoneIndex): nat { MetadataAddr(i) + ENTRYPOINT_OFFSET }
  function DoneAddr(i: ZoneIndex): nat { MetadataAddr(i) + DONE_OFFSET }

  /** The zone whose bytes include address a, if any. */
  function ZoneOf(a: nat): (r: int)
    ensures -1 <= r < NR_OTA_ZONES as int
    ensures r >= 0 <==> OTA_FLASH_BASE <= a < OTA_FLASH_BASE + OTA_FLASH_SIZE
    ensures r >= 0 ==> ZoneAddr(r) <= a < ZoneAddr(r) + OTA_ZONE_SIZE
  {
    if a < OTA_FLASH_BASE || a >= OTA_FLASH_BASE + OTA_FLASH_SIZE then -1
    else if a < OTA_FLASH_BASE + OTA_ZONE_SIZE then 0
    else 1
  }

  /**
   * The zones tile the region: each zone is its payload followed by its trailer,
   * zone i+1 starts where zone i ends, and the last one ends at the end of the region.
   */
  lemma {:induction false} RegionLayout()
    ensures OTA_ZONE_SIZE == 0x4000 && NR_OTA_ZONES == 2
    ensures OTA_PAYLOAD_SIZE + METADATA_SIZE == OTA_ZONE_SIZE
    ensures forall i: ZoneIndex :: ZoneAddr(i) == 0x18000 + i * 0x4000
    ensures ZoneAddr(0) == OTA_FLASH_BASE
    ensures ZoneAddr(0) + OTA_ZONE_SIZE == ZoneAddr(1)
    ensures ZoneAddr(1) + OTA_ZONE_SIZE == OTA_FLASH_BASE + OTA_FLASH_SIZE
    ensures forall i: ZoneIndex ::
      ZoneAddr(i) < GenAddr(i) < EntrypointAddr(i) < DoneAddr(i) && DoneAddr(i) + WORD_SIZE == ZoneAddr(i) + OTA_ZONE_SIZE
  {
  }
}
