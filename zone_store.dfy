/**
 * The zone store: the metadata of both zones as read from the flash, and the
 * choice of the authoritative zone (`get_valid_ota_zone`).
 */
module ZoneStore {
  import opened ByteCodec
  import opened OtaLayout
  import opened Flash

  /** The metadata trailer of zone i, read from the memory-mapped flash. */
  function MetaAt(mem: seq<byte>, i: ZoneIndex): Metadata
    requires |mem| == FLASH_SIZE
  {
    Metadata(U32At(mem, GenAddr(i)), U32At(mem, EntrypointAddr(i)), U32At(mem, DoneAddr(i)))
  }

  /** The trailers of all zones, in zone order (`OTA_REGION->zones[i].metadata`). */
  function Region(mem: seq<byte>): (r: seq<Metadata>)
    requires |mem| == FLASH_SIZE
    ensures |r| == NR_OTA_ZONES
    ensures forall i: ZoneIndex :: r[i] == MetaAt(mem, i)
  {
    seq(NR_OTA_ZONES, i requires 0 <= i < NR_OTA_ZONES => MetaAt(mem, i))
  }

  /**
   * The candidate after examining the first n zones: -1 while none is valid,
   * otherwise a valid zone whose gen no examined valid zone exceeds and which
   * precedes every examined valid zone of the same gen.
   */
  function Scan(metas: seq<Metadata>, n: nat): (r: int)
    requires n <= |metas|
    ensures -1 <= r < n
    ensures r == -1 <==> forall j :: 0 <= j < n ==> !IsValid(metas[j])
    ensures r >= 0 ==> IsValid(metas[r])
    ensures r >= 0 ==> forall j :: 0 <= j < n && IsValid(metas[j]) ==>
      metas[j].gen < metas[r].gen || (metas[j].gen == metas[r].gen && r <= j)
  {
    if n == 0 then -1
    else
      var c := Scan(metas, n - 1);
      if !IsValid(metas[n - 1]) then c
      else if c == -1 || metas[c].gen < metas[n - 1].gen then n - 1
      else c
  }

  /** The authoritative zone among all of them, or -1 when none is valid. */
  function SelectZone(metas: seq<Metadata>): int
  {
    Scan(metas, |metas|)
  }

  /** Zone r is valid, no valid zone has a higher gen, and no valid zone of its gen precedes it. */
  predicate Authoritative(metas: seq<Metadata>, r: int)
  {
    && 0 <= r < |metas|
    && IsValid(metas[r])
    && forall j :: 0 <= j < |metas| && IsValid(metas[j]) ==>
         metas[j].gen < metas[r].gen || (metas[j].gen == metas[r].gen && r <= j)
  }

  /** The selection is exactly the authoritative zone: at most one zone can be authoritative. */
  lemma {:induction false} SelectZoneIs(metas: seq<Metadata>, r: int)
    requires Authoritative(metas, r)
    ensures SelectZone(metas) == r
  {
    var s := SelectZone(metas);
    assert s != -1 by {
      assert IsValid(metas[r]);
    }
    assert metas[r].gen <= metas[s].gen;
  }

  /**
   * Changing only zone t, which is not the selected one, keeps the selection, as
   * long as zone t ends up either unchanged or invalid.
   */
  lemma {:induction false} SelectionStable(a: seq<Metadata>, b: seq<Metadata>, t: ZoneIndex)
    requires |a| == NR_OTA_ZONES && |b| == NR_OTA_ZONES && t != SelectZone(a)
    requires b[Other(t)] == a[Other(t)]
    requires IsValid(b[t]) ==> b[t] == a[t]
    ensures SelectZone(b) == SelectZone(a)
  {
    var s := SelectZone(a);
    if s == -1 {
      assert forall j :: 0 <= j < |b| ==> !IsValid(b[j]) by {
        forall j | 0 <= j < |b| ensures !IsValid(b[j]) {
          assert !IsValid(a[j]);
        }
      }
    } else {
      assert s == Other(t);
      assert Authoritative(b, s) by {
        forall j | 0 <= j < |b| && IsValid(b[j])
          ensures b[j].gen < b[s].gen || (b[j].gen == b[s].gen && s <= j)
        {
          assert b[j] == a[j];
        }
      }
      SelectZoneIs(b, s);
    }
  }

  /**
   * `get_valid_ota_zone`: scans the zones in index order, skipping those whose done
   * word is not the magic or whose gen is the sentinel, and keeps the first zone
   * of the highest gen.
   */
  method GetValidOtaZone(dev: FlashDevice) returns (idx: int)
    requires dev.Valid()
    ensures idx == SelectZone(Region(dev.mem))
  {
    var maxGen: u32 := INVALID_GEN;
    idx := -1;
    ghost var metas := Region(dev.mem);
    for i := 0 to NR_OTA_ZONES
      invariant idx == Scan(metas, i)
      invariant maxGen == if idx == -1 then INVALID_GEN else metas[idx].gen
    {
      var cur := MetaAt(dev.mem, i);
      if cur.done != OTA_DONE_MAGIC || cur.gen == INVALID_GEN {
        continue;
      }
      if maxGen == INVALID_GEN || maxGen < cur.gen {
        maxGen := cur.gen;
        idx := i;
      }
    }
  }
}
