/**
 * What a download session does to the choice of the authoritative zone.
 *
 * The methods of `DlState` describe the flash after each step as a function of
 * the flash before it (an erase range, a series of programs). The lemmas here
 * follow those functions through a whole session: erasing the target, programming
 * payload into it and committing its trailer never change which zone
 * `get_valid_ota_zone` picks until the done word is written, and once it is, the
 * target zone wins with the next generation.
 */
module Session {
  import opened ByteCodec
  import opened OtaLayout
  import opened Flash
  import opened ZoneStore
  import opened Download

  /** The sector index of a sector's address is that sector. */
  lemma {:induction false} SectorOfAddr(c: nat, ss: nat)
    requires ss > 0
    ensures SectorOf(SectorAddr(c, ss), ss) == c
  {
    if c > 0 {
      SectorOfAddr(c - 1, ss);
    }
  }

  /**
   * Sector geometry of `ota_dl_init` when the sector size divides the zone size and
   * is at least a trailer long: the first target sector starts at the zone, k
   * sectors short of all of them stop before the trailer, and all of them cover
   * exactly the zone.
   */
  lemma {:induction false} AlignedSectors(t: ZoneIndex, ss: nat, k: nat)
    requires ss >= METADATA_SIZE && OTA_ZONE_SIZE % ss == 0
    requires k <= SectorOf(OTA_ZONE_SIZE, ss)
    ensures SectorAddr(SectorOf(ZoneAddr(t), ss), ss) == ZoneAddr(t)
    ensures SectorAddr(SectorOf(ZoneAddr(t), ss) + k, ss) == ZoneAddr(t) + SectorAddr(k, ss)
    ensures k < SectorOf(OTA_ZONE_SIZE, ss) ==> SectorAddr(k, ss) <= OTA_PAYLOAD_SIZE
    ensures k == SectorOf(OTA_ZONE_SIZE, ss) ==> SectorAddr(k, ss) == OTA_ZONE_SIZE
  {
    var q := SectorOf(OTA_ZONE_SIZE, ss);
    SectorOfIsDiv(OTA_ZONE_SIZE, ss);
    // Zone t starts 6 + t zone sizes into the flash.
    var n: nat := 6 + t;
    SectorAddrIsMul(n, OTA_ZONE_SIZE);
    assert SectorAddr(n, OTA_ZONE_SIZE) == ZoneAddr(t);
    assert SectorAddr(q, ss) == OTA_ZONE_SIZE;
    var c := SectorAddr(n, q);
    SectorAddrNested(n, q, ss);
    assert SectorAddr(c, ss) == ZoneAddr(t);
    SectorOfAddr(c, ss);
    SectorAddrAdd(c, k, ss);
    if k < q {
      SectorAddrMono(k, q - 1, ss);
    }
  }

  /** n blocks of q sectors span as much as n blocks of q * ss bytes. */
  lemma {:induction false} SectorAddrNested(n: nat, q: nat, ss: nat)
    ensures SectorAddr(SectorAddr(n, q), ss) == SectorAddr(n, SectorAddr(q, ss))
  {
    if n > 0 {
      SectorAddrNested(n - 1, q, ss);
      SectorAddrAdd(SectorAddr(n - 1, q), q, ss);
    }
  }

  /** Flash contents after erasing the first len bytes of zone t. */
  function ErasePrefix(m: seq<byte>, t: ZoneIndex, len: nat): (r: seq<byte>)
    ensures |r| == |m|
  {
    EraseRange(m, ZoneAddr(t), ZoneAddr(t) + len)
  }

  /** Flash contents after erasing the whole of zone t. */
  function EraseZone(m: seq<byte>, t: ZoneIndex): (r: seq<byte>)
    ensures |r| == |m|
  {
    ErasePrefix(m, t, OTA_ZONE_SIZE)
  }

  /** Every byte outside zone t is the same in m1 and m2. */
  ghost predicate SameOutsideZone(m1: seq<byte>, m2: seq<byte>, t: ZoneIndex)
  {
    && |m1| == FLASH_SIZE && |m2| == FLASH_SIZE
    && forall a :: 0 <= a < FLASH_SIZE && !(ZoneAddr(t) <= a < ZoneAddr(t) + OTA_ZONE_SIZE) ==> m2[a] == m1[a]
  }

  /** Every byte of zone t's trailer is the same in m1 and m2. */
  ghost predicate SameTrailer(m1: seq<byte>, m2: seq<byte>, t: ZoneIndex)
  {
    && |m1| == FLASH_SIZE && |m2| == FLASH_SIZE
    && forall a :: MetadataAddr(t) <= a < MetadataAddr(t) + METADATA_SIZE ==> m2[a] == m1[a]
  }

  /** Every byte of zone t's trailer is erased. */
  ghost predicate TrailerErased(m: seq<byte>, t: ZoneIndex)
  {
    && |m| == FLASH_SIZE
    && forall a :: MetadataAddr(t) <= a < MetadataAddr(t) + METADATA_SIZE ==> m[a] == ERASED
  }

  /** Writes that all land in the payload area of zone t. */
  predicate InsidePayload(t: ZoneIndex, ws: seq<Write>)
  {
    forall k :: 0 <= k < |ws| ==>
      InRange(FLASH_SIZE, ws[k]) && ZoneAddr(t) <= ws[k].addr && ws[k].addr + |ws[k].data| <= MetadataAddr(t)
  }

  lemma {:induction false} SameBytesSameWord(m1: seq<byte>, m2: seq<byte>, at: nat)
    requires |m1| == |m2| && at + 4 <= |m1|
    requires forall a :: at <= a < at + 4 ==> m2[a] == m1[a]
    ensures U32At(m2, at) == U32At(m1, at)
  {
    assert m1[at..at + 4] == m2[at..at + 4];
  }

  /** A change confined to zone t leaves the other zone's trailer as it was. */
  lemma {:induction false} OtherZoneKept(m1: seq<byte>, m2: seq<byte>, t: ZoneIndex)
    requires SameOutsideZone(m1, m2, t)
    ensures MetaAt(m2, Other(t)) == MetaAt(m1, Other(t))
  {
    RegionLayout();
    var o := Other(t);
    SameBytesSameWord(m1, m2, GenAddr(o));
    SameBytesSameWord(m1, m2, EntrypointAddr(o));
    SameBytesSameWord(m1, m2, DoneAddr(o));
  }

  /** A change that spares zone t's trailer leaves its metadata as it was. */
  lemma {:induction false} TrailerKept(m1: seq<byte>, m2: seq<byte>, t: ZoneIndex)
    requires SameTrailer(m1, m2, t)
    ensures MetaAt(m2, t) == MetaAt(m1, t)
  {
    RegionLayout();
    SameBytesSameWord(m1, m2, GenAddr(t));
    SameBytesSameWord(m1, m2, EntrypointAddr(t));
    SameBytesSameWord(m1, m2, DoneAddr(t));
  }

  /**
   * An erased trailer reads as all ones: its done word is not OTA_DONE_MAGIC and
   * its gen is the sentinel, so the zone is not valid.
   */
  lemma {:induction false} ErasedTrailerInvalid(m: seq<byte>, t: ZoneIndex)
    requires TrailerErased(m, t)
    ensures MetaAt(m, t).done == 0xFFFF_FFFF != OTA_DONE_MAGIC
    ensures MetaAt(m, t).gen == INVALID_GEN
    ensures !IsValid(MetaAt(m, t))
  {
    RegionLayout();
  }

  /** The trailer word at `at` holds x when its four bytes are the encoding of x. */
  lemma {:induction false} WordIs(m: seq<byte>, at: nat, x: u32)
    requires at + 4 <= |m|
    requires forall j :: 0 <= j < 4 ==> m[at + j] == U32Bytes(x)[j]
    ensures U32At(m, at) == x
  {
    var r := U32Bytes(x);
    assert U32At(m, at) == U32At(r, 0);
  }

  /**
   * Erasing the first len bytes of zone t touches nothing outside the zone; short
   * of the trailer it spares the trailer, and the whole zone erases the trailer.
   */
  lemma {:induction false} ErasePrefixEffect(m: seq<byte>, t: ZoneIndex, len: nat)
    requires |m| == FLASH_SIZE && (len <= OTA_PAYLOAD_SIZE || len == OTA_ZONE_SIZE)
    ensures
      var m' := ErasePrefix(m, t, len);
      && SameOutsideZone(m, m', t)
      && (len <= OTA_PAYLOAD_SIZE ==> SameTrailer(m, m', t))
      && (len == OTA_ZONE_SIZE ==> TrailerErased(m', t))
  {
    RegionLayout();
  }

  /**
   * Erasing a prefix of zone t, when t is not the selected zone, keeps the
   * selection: the zone ends up either with its trailer untouched or invalid.
   */
  lemma {:induction false} ErasePrefixKeepsSelection(m: seq<byte>, t: ZoneIndex, len: nat)
    requires |m| == FLASH_SIZE && t != SelectZone(Region(m))
    requires len <= OTA_PAYLOAD_SIZE || len == OTA_ZONE_SIZE
    ensures SelectZone(Region(ErasePrefix(m, t, len))) == SelectZone(Region(m))
  {
    var m' := ErasePrefix(m, t, len);
    ErasePrefixEffect(m, t, len);
    OtherZoneKept(m, m', t);
    if len <= OTA_PAYLOAD_SIZE {
      TrailerKept(m, m', t);
    } else {
      ErasedTrailerInvalid(m', t);
    }
    SelectionStable(Region(m), Region(m'), t);
  }

  /**
   * Crash safety of `ota_dl_begin`: wherever its erase loop stops (after k of the
   * target's sectors), the zone `get_valid_ota_zone` picks is the one it picked
   * before; with all sectors erased the whole zone is erased.
   */
  lemma {:induction false} EraseKeepsSelection(m: seq<byte>, t: ZoneIndex, ss: nat, k: nat)
    requires |m| == FLASH_SIZE && t != SelectZone(Region(m))
    requires ss >= METADATA_SIZE && OTA_ZONE_SIZE % ss == 0 && k <= SectorOf(OTA_ZONE_SIZE, ss)
    ensures SelectZone(Region(EraseSectors(m, SectorOf(ZoneAddr(t), ss), ss, k))) == SelectZone(Region(m))
    ensures k == SectorOf(OTA_ZONE_SIZE, ss) ==>
      EraseSectors(m, SectorOf(ZoneAddr(t), ss), ss, k) == EraseZone(m, t)
  {
    var first, len := SectorOf(ZoneAddr(t), ss), SectorAddr(k, ss);
    AlignedSectors(t, ss, k);
    assert EraseSectors(m, first, ss, k) == ErasePrefix(m, t, len);
    ErasePrefixKeepsSelection(m, t, len);
  }

  /** Payload programs (`ota_dl_process`) inside zone t spare its trailer and every other byte. */
  lemma {:induction false} PayloadEffect(m: seq<byte>, t: ZoneIndex, ws: seq<Write>)
    requires |m| == FLASH_SIZE && InsidePayload(t, ws)
    ensures SameOutsideZone(m, AfterWrites(m, ws), t)
    ensures SameTrailer(m, AfterWrites(m, ws), t)
  {
    RegionLayout();
    forall a | 0 <= a < FLASH_SIZE && (!(ZoneAddr(t) <= a < ZoneAddr(t) + OTA_ZONE_SIZE) || MetadataAddr(t) <= a)
      ensures AfterWrites(m, ws)[a] == m[a]
    {
      ApplyWritesOutside(m, ws, |ws|, a);
    }
  }

  /** The trailer programs of `ota_dl_finish`, however many took effect, change nothing outside zone t. */
  lemma {:induction false} CommitInsideZone(m: seq<byte>, t: ZoneIndex, gen: u32, entrypoint: u32, k: nat)
    requires |m| == FLASH_SIZE && k <= 3
    ensures SameOutsideZone(m, CommitPrefix(m, t, gen, entrypoint, k), t)
  {
    var ws := CommitWrites(t, gen, entrypoint);
    forall a | 0 <= a < FLASH_SIZE && !(ZoneAddr(t) <= a < ZoneAddr(t) + OTA_ZONE_SIZE)
      ensures CommitPrefix(m, t, gen, entrypoint, k)[a] == m[a]
    {
      ApplyWritesOutside(m, ws, k, a);
    }
  }

  /**
   * Crash safety of `ota_dl_finish`: when only the first k < 3 of its programs took
   * effect (a failure or a power loss before the done word), zone t's done word is
   * as it was and nothing outside zone t changed.
   */
  lemma {:induction false} InterruptedCommit(m: seq<byte>, t: ZoneIndex, gen: u32, entrypoint: u32, k: nat)
    requires |m| == FLASH_SIZE && k < 3
    ensures MetaAt(CommitPrefix(m, t, gen, entrypoint, k), t).done == MetaAt(m, t).done
    ensures SameOutsideZone(m, CommitPrefix(m, t, gen, entrypoint, k), t)
  {
    var ws := CommitWrites(t, gen, entrypoint);
    var m' := CommitPrefix(m, t, gen, entrypoint, k);
    forall a | DoneAddr(t) <= a < DoneAddr(t) + 4
      ensures m'[a] == m[a]
    {
      ApplyWritesOutside(m, ws, k, a);
    }
    SameBytesSameWord(m, m', DoneAddr(t));
    CommitInsideZone(m, t, gen, entrypoint, k);
  }

  /** Each byte the i-th program of `ota_dl_finish` writes over an erased trailer ends up there. */
  lemma {:induction false} CommittedByte(m: seq<byte>, t: ZoneIndex, gen: u32, entrypoint: u32, i: nat, j: nat)
    requires TrailerErased(m, t) && i < 3 && j < WORD_SIZE
    ensures
      var w := CommitWrites(t, gen, entrypoint)[i];
      CommitPrefix(m, t, gen, entrypoint, 3)[w.addr + j] == w.data[j]
  {
    var ws := CommitWrites(t, gen, entrypoint);
    var a := ws[i].addr + j;
    assert MetadataAddr(t) <= a < MetadataAddr(t) + METADATA_SIZE;
    assert forall k :: 0 <= k < 3 && k != i ==> !(ws[k].addr <= a < ws[k].addr + |ws[k].data|);
    ApplyWritesCovered(m, ws, 3, i, a);
  }

  /** The i-th program of `ota_dl_finish` over an erased trailer leaves its word there. */
  lemma {:induction false} CommittedWord(m: seq<byte>, t: ZoneIndex, gen: u32, entrypoint: u32, i: nat, x: u32)
    requires TrailerErased(m, t) && i < 3
    requires CommitWrites(t, gen, entrypoint)[i].data == U32Bytes(x)
    ensures U32At(CommitPrefix(m, t, gen, entrypoint, 3), CommitWrites(t, gen, entrypoint)[i].addr) == x
  {
    var ws := CommitWrites(t, gen, entrypoint);
    var m' := CommitPrefix(m, t, gen, entrypoint, 3);
    forall j | 0 <= j < 4
      ensures m'[ws[i].addr + j] == U32Bytes(x)[j]
    {
      CommittedByte(m, t, gen, entrypoint, i, j);
    }
    WordIs(m', ws[i].addr, x);
  }

  /**
   * All three programs of `ota_dl_finish` over an erased trailer leave exactly the
   * new gen, the entrypoint and the done magic in it, and change nothing outside
   * zone t.
   */
  lemma {:induction false} CompletedCommit(m: seq<byte>, t: ZoneIndex, gen: u32, entrypoint: u32)
    requires TrailerErased(m, t)
    ensures MetaAt(CommitPrefix(m, t, gen, entrypoint, 3), t) == Metadata(gen, entrypoint, OTA_DONE_MAGIC)
    ensures SameOutsideZone(m, CommitPrefix(m, t, gen, entrypoint, 3), t)
  {
    CommittedWord(m, t, gen, entrypoint, 0, entrypoint);
    CommittedWord(m, t, gen, entrypoint, 1, gen);
    CommittedWord(m, t, gen, entrypoint, 2, OTA_DONE_MAGIC);
    CommitInsideZone(m, t, gen, entrypoint, 3);
  }

  /**
   * The flash states of a whole successful session: `ota_dl_init` picked target t
   * and generation g on m0, `ota_dl_begin` erased the whole of zone t (m1),
   * `ota_dl_process` programmed payload inside t (m2), and `ota_dl_finish` committed
   * the trailer (m3).
   */
  ghost predicate Session(m0: seq<byte>, t: ZoneIndex, g: u32, payload: seq<Write>, entrypoint: u32,
                          m1: seq<byte>, m2: seq<byte>, m3: seq<byte>)
  {
    && |m0| == FLASH_SIZE
    && (t, g) == NextTarget(Region(m0))
    && m1 == EraseZone(m0, t)
    && InsidePayload(t, payload)
    && m2 == AfterWrites(m1, payload)
    && m3 == CommitPrefix(m2, t, g, entrypoint, 3)
  }

  /**
   * Erasing the whole of zone t keeps the selection when t is not the selected
   * zone, erases t's trailer and leaves the other zone as it was.
   */
  lemma {:induction false} ErasedZone(m0: seq<byte>, t: ZoneIndex)
    requires |m0| == FLASH_SIZE && t != SelectZone(Region(m0))
    ensures SelectZone(Region(EraseZone(m0, t))) == SelectZone(Region(m0))
    ensures TrailerErased(EraseZone(m0, t), t) && MetaAt(EraseZone(m0, t), Other(t)) == MetaAt(m0, Other(t))
  {
    ErasePrefixEffect(m0, t, OTA_ZONE_SIZE);
    ErasePrefixKeepsSelection(m0, t, OTA_ZONE_SIZE);
    OtherZoneKept(m0, EraseZone(m0, t), t);
  }

  /**
   * Erasing zone t and programming payload inside it keep the selection when t is
   * not the selected zone; afterwards t's trailer is still erased and the other
   * zone is as it was.
   */
  lemma {:induction false} PayloadKeepsSelection(m0: seq<byte>, t: ZoneIndex, payload: seq<Write>, m1: seq<byte>, m2: seq<byte>)
    requires |m0| == FLASH_SIZE && t != SelectZone(Region(m0))
    requires m1 == EraseZone(m0, t)
    requires InsidePayload(t, payload) && m2 == AfterWrites(m1, payload)
    ensures SelectZone(Region(m1)) == SelectZone(Region(m0))
    ensures SelectZone(Region(m2)) == SelectZone(Region(m0))
    ensures TrailerErased(m2, t) && MetaAt(m2, Other(t)) == MetaAt(m0, Other(t))
  {
    ErasedZone(m0, t);
    PayloadEffect(m1, t, payload);
    TrailerKept(m1, m2, t);
    OtherZoneKept(m1, m2, t);
    ErasedTrailerInvalid(m2, t);
    SelectionStable(Region(m0), Region(m2), t);
  }

  /**
   * Until the done word is programmed, a session never changes the selection:
   * not after the erase, not after the payload, not after any proper prefix of
   * the commit. Before the commit, the target's trailer is erased.
   */
  lemma {:induction false} SessionKeepsSelection(m0: seq<byte>, t: ZoneIndex, g: u32, payload: seq<Write>, entrypoint: u32,
                              m1: seq<byte>, m2: seq<byte>, m3: seq<byte>)
    requires Session(m0, t, g, payload, entrypoint, m1, m2, m3)
    ensures SelectZone(Region(m1)) == SelectZone(Region(m0))
    ensures SelectZone(Region(m2)) == SelectZone(Region(m0))
    ensures TrailerErased(m2, t) && MetaAt(m2, Other(t)) == MetaAt(m0, Other(t))
    ensures forall k :: 0 <= k < 3 ==>
      SelectZone(Region(CommitPrefix(m2, t, g, entrypoint, k))) == SelectZone(Region(m0))
  {
    PayloadKeepsSelection(m0, t, payload, m1, m2);
    forall k | 0 <= k < 3
      ensures SelectZone(Region(CommitPrefix(m2, t, g, entrypoint, k))) == SelectZone(Region(m0))
    {
      CommitPrefixKeepsSelection(m0, m2, t, g, entrypoint, k);
    }
  }

  lemma {:induction false} CommitPrefixKeepsSelection(m0: seq<byte>, m2: seq<byte>, t: ZoneIndex, g: u32, entrypoint: u32, k: nat)
    requires |m0| == FLASH_SIZE && t != SelectZone(Region(m0)) && k < 3
    requires TrailerErased(m2, t) && MetaAt(m2, Other(t)) == MetaAt(m0, Other(t))
    ensures SelectZone(Region(CommitPrefix(m2, t, g, entrypoint, k))) == SelectZone(Region(m0))
  {
    var mk := CommitPrefix(m2, t, g, entrypoint, k);
    InterruptedCommit(m2, t, g, entrypoint, k);
    ErasedTrailerInvalid(m2, t);
    OtherZoneKept(m2, mk, t);
    SelectionStable(Region(m0), Region(mk), t);
  }

  /**
   * Committing (g, entrypoint, magic) into the zone NextTarget picked, with the
   * other zone unchanged, makes that zone the authoritative one, provided g is not
   * the sentinel.
   */
  lemma {:induction false} CommitSelects(metas0: seq<Metadata>, metas3: seq<Metadata>, t: ZoneIndex, g: u32, entrypoint: u32)
    requires |metas0| == NR_OTA_ZONES && |metas3| == NR_OTA_ZONES
    requires (t, g) == NextTarget(metas0) && g != INVALID_GEN
    requires metas3[t] == Metadata(g, entrypoint, OTA_DONE_MAGIC)
    requires metas3[Other(t)] == metas0[Other(t)]
    ensures SelectZone(metas3) == t
  {
    var cur := SelectZone(metas0);
    forall j | 0 <= j < |metas3| && IsValid(metas3[j])
      ensures metas3[j].gen < metas3[t].gen || (metas3[j].gen == metas3[t].gen && t <= j)
    {
      if j != t {
        // The other zone is valid before the session too, so it was the authoritative one.
        assert j == Other(t) && metas3[j] == metas0[j];
        assert cur == j;
      }
    }
    SelectZoneIs(metas3, t);
  }

  /**
   * After a whole successful session whose new generation is not the sentinel,
   * zone t holds (g, entrypoint, magic), the other zone is as it was, and
   * `get_valid_ota_zone` returns t.
   */
  lemma {:induction false} SessionSelectsTarget(m0: seq<byte>, t: ZoneIndex, g: u32, payload: seq<Write>, entrypoint: u32,
                             m1: seq<byte>, m2: seq<byte>, m3: seq<byte>)
    requires Session(m0, t, g, payload, entrypoint, m1, m2, m3)
    requires g != INVALID_GEN
    ensures MetaAt(m3, t) == Metadata(g, entrypoint, OTA_DONE_MAGIC)
    ensures MetaAt(m3, Other(t)) == MetaAt(m0, Other(t))
    ensures SelectZone(Region(m3)) == t
  {
    SessionKeepsSelection(m0, t, g, payload, entrypoint, m1, m2, m3);
    CompletedCommit(m2, t, g, entrypoint);
    OtherZoneKept(m2, m3, t);
    CommitSelects(Region(m0), Region(m3), t, g, entrypoint);
  }
}
