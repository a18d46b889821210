/**
 * A client of the download API of `ota.h` that installs an image delivered in
 * pieces: `ota_dl_init`, `ota_dl_begin`, `ota_dl_process` for each piece in
 * order, then `ota_dl_finish`, stopping at the first call that does not return
 * success. It runs the `DlState` methods on a `FlashDevice` and connects what
 * their contracts say about the device to the session lemmas: a run that stops
 * early leaves the selection as it was, and a run that succeeds is a `Session`
 * and makes the target the authoritative zone.
 */
module Install {
  import opened ByteCodec
  import opened OtaLayout
  import opened Flash
  import opened ZoneStore
  import opened Download
  import opened Session

  /** The number of bytes in the pieces ps. */
  function Total(ps: seq<seq<byte>>): nat
  {
    if ps == [] then 0 else Total(ps[..|ps| - 1]) + |ps[|ps| - 1]|
  }

  /** A prefix of the pieces holds no more bytes than all of them. */
  lemma {:induction false} TotalPrefix(ps: seq<seq<byte>>, i: nat)
    requires i <= |ps|
    ensures Total(ps[..i]) <= Total(ps)
    decreases |ps|
  {
    if i < |ps| {
      var init := ps[..|ps| - 1];
      assert init[..i] == ps[..i];
      TotalPrefix(init, i);
    } else {
      assert ps[..i] == ps;
    }
  }

  /**
   * The programs `ota_dl_process` issues for the pieces ps fed in order into zone
   * t from a fresh session: each piece goes to the payload offset equal to the
   * bytes fed before it.
   */
  function PieceWrites(t: ZoneIndex, ps: seq<seq<byte>>): (ws: seq<Write>)
    ensures |ws| == |ps|
  {
    if ps == [] then []
    else
      var init := ps[..|ps| - 1];
      PieceWrites(t, init) + [Write(ZoneAddr(t) + Total(init), ps[|ps| - 1])]
  }

  /** Pieces that fit in the payload area are programmed inside it, spaced back to back. */
  lemma {:induction false} PieceWritesInside(t: ZoneIndex, ps: seq<seq<byte>>)
    requires Total(ps) <= OTA_PAYLOAD_SIZE
    ensures InsidePayload(t, PieceWrites(t, ps))
  {
    RegionLayout();
    if ps != [] {
      var init := ps[..|ps| - 1];
      PieceWritesInside(t, init);
      var ws := PieceWrites(t, ps);
      assert ws == PieceWrites(t, init) + [Write(ZoneAddr(t) + Total(init), ps[|ps| - 1])];
      forall k | 0 <= k < |ws|
        ensures InRange(FLASH_SIZE, ws[k]) && ZoneAddr(t) <= ws[k].addr && ws[k].addr + |ws[k].data| <= MetadataAddr(t)
      {
        if k < |ps| - 1 {
          assert ws[k] == PieceWrites(t, init)[k];
        }
      }
    }
  }

  /** Programs issued one after another: the first n of ws are the first n of ws + vs. */
  lemma {:induction false} ApplyWritesPrefix(mem: seq<byte>, ws: seq<Write>, vs: seq<Write>, n: nat)
    requires n <= |ws|
    ensures ApplyWrites(mem, ws + vs, n) == ApplyWrites(mem, ws, n)
  {
    if n > 0 {
      ApplyWritesPrefix(mem, ws, vs, n - 1);
      assert (ws + vs)[n - 1] == ws[n - 1];
    }
  }

  /** Feeding one more piece programs it on top of the pieces fed before. */
  lemma {:induction false} FeedOneMore(m: seq<byte>, t: ZoneIndex, ps: seq<seq<byte>>, i: nat)
    requires i < |ps|
    ensures PieceWrites(t, ps[..i + 1]) == PieceWrites(t, ps[..i]) + [Write(ZoneAddr(t) + Total(ps[..i]), ps[i])]
    ensures Total(ps[..i + 1]) == Total(ps[..i]) + |ps[i]|
    ensures AfterWrites(m, PieceWrites(t, ps[..i + 1]))
      == ProgramRange(AfterWrites(m, PieceWrites(t, ps[..i])), ZoneAddr(t) + Total(ps[..i]), ps[i])
  {
    var qs := ps[..i + 1];
    assert qs[..|qs| - 1] == ps[..i];
    var ws := PieceWrites(t, ps[..i]);
    var w := Write(ZoneAddr(t) + Total(ps[..i]), ps[i]);
    ApplyWritesPrefix(m, ws, [w], |ws|);
  }

  /** A piece programmed at the end of the pieces before it extends their programs by one. */
  lemma {:induction false} FedStep(m1: seq<byte>, t: ZoneIndex, ps: seq<seq<byte>>, i: nat, before: seq<byte>, after: seq<byte>)
    requires i < |ps| && before == AfterWrites(m1, PieceWrites(t, ps[..i]))
    requires after == ProgramRange(before, ZoneAddr(t) + Total(ps[..i]), ps[i])
    ensures after == AfterWrites(m1, PieceWrites(t, ps[..i + 1]))
    ensures Total(ps[..i + 1]) == Total(ps[..i]) + |ps[i]|
  {
    FeedOneMore(m1, t, ps, i);
  }

  /**
   * Init, begin, process for each piece, finish, returning the status of the
   * first call that fails, or success. With a sector size that divides the zone
   * and covers the trailer and pieces that fit in the payload area: a failed run
   * leaves `get_valid_ota_zone`'s choice as it was; a successful run is a whole
   * `Session` over the pieces' programs, and when its generation is not the
   * sentinel the target zone holds the new trailer and becomes the one chosen.
   */
  method InstallImage(dev: FlashDevice, dl: DlState, params: DlParams, pieces: seq<seq<byte>>) returns (rc: u32)
    requires dev.Valid()
    requires dev.sectorSize >= METADATA_SIZE && OTA_ZONE_SIZE % dev.sectorSize == 0
    requires Total(pieces) <= OTA_PAYLOAD_SIZE
    modifies dl, dev
    ensures dev.Valid() && dl.Valid()
    ensures (dl.targetZone, dl.targetGen) == NextTarget(Region(old(dev.mem)))
    ensures rc != FAPI_STATUS_SUCCESS ==> SelectZone(Region(dev.mem)) == SelectZone(Region(old(dev.mem)))
    ensures rc == FAPI_STATUS_SUCCESS ==>
      var m1 := EraseZone(old(dev.mem), dl.targetZone);
      var payload := PieceWrites(dl.targetZone, pieces);
      Session.Session(old(dev.mem), dl.targetZone, dl.targetGen, payload, params.entrypoint, m1, AfterWrites(m1, payload), dev.mem)
    ensures rc == FAPI_STATUS_SUCCESS && dl.targetGen != INVALID_GEN ==>
      && MetaAt(dev.mem, dl.targetZone) == Metadata(dl.targetGen, params.entrypoint, OTA_DONE_MAGIC)
      && SelectZone(Region(dev.mem)) == dl.targetZone
  {
    ghost var m0 := dev.mem;
    dl.Init(dev, params);
    ghost var t, g, ep := dl.targetZone, dl.targetGen, dl.entrypoint;
    assert t != SelectZone(Region(m0));
    ghost var k;
    rc, k := dl.Begin(dev);
    if rc != FAPI_STATUS_SUCCESS {
      EraseKeepsSelection(m0, t, dev.sectorSize, k);
      return;
    }
    EraseKeepsSelection(m0, t, dev.sectorSize, dl.nrSectors);
    ghost var m1 := dev.mem;
    assert m1 == EraseZone(m0, t);
    rc := FeedPieces(dev, dl, pieces, m0, m1);
    if rc != FAPI_STATUS_SUCCESS {
      return;
    }
    ghost var payload := PieceWrites(t, pieces);
    ghost var m2 := dev.mem;
    PieceWritesInside(t, pieces);
    rc, k := dl.Finish(dev);
    SessionKeepsSelection(m0, t, g, payload, ep, m1, m2, CommitPrefix(m2, t, g, ep, 3));
    if rc != FAPI_STATUS_SUCCESS {
      assert dev.mem == CommitPrefix(m2, t, g, ep, k);
      return;
    }
    assert Session.Session(m0, t, g, payload, ep, m1, m2, dev.mem);
    if g != INVALID_GEN {
      SessionSelectsTarget(m0, t, g, payload, ep, m1, m2, dev.mem);
    }
  }

  /**
   * The process loop of InstallImage: each piece in order, stopping at the first
   * failure. The flash starts as m1, the target zone erased; on success it holds
   * every piece at its payload offset, on failure the selection is as on m0.
   */
  method FeedPieces(dev: FlashDevice, dl: DlState, pieces: seq<seq<byte>>, ghost m0: seq<byte>, ghost m1: seq<byte>)
      returns (rc: u32)
    requires dev.Valid() && dl.Valid() && dl.sectorSize == dev.sectorSize
    requires |m0| == FLASH_SIZE && dl.targetZone != SelectZone(Region(m0)) && m1 == EraseZone(m0, dl.targetZone)
    requires dev.mem == m1 && dl.dlDone == 0
    requires Total(pieces) <= OTA_PAYLOAD_SIZE
    modifies dl`dlDone, dev
    ensures dev.Valid() && dl.dlDone <= OTA_PAYLOAD_SIZE
    ensures rc == FAPI_STATUS_SUCCESS ==> dev.mem == AfterWrites(m1, PieceWrites(dl.targetZone, pieces))
    ensures rc != FAPI_STATUS_SUCCESS ==> SelectZone(Region(dev.mem)) == SelectZone(Region(m0))
  {
    var t := dl.targetZone;
    var i := 0;
    while i < |pieces|
      invariant 0 <= i <= |pieces| && dev.Valid()
      invariant dl.dlDone == Total(pieces[..i]) && dl.dlDone <= OTA_PAYLOAD_SIZE
      invariant dev.mem == AfterWrites(m1, PieceWrites(t, pieces[..i]))
    {
      TotalPrefix(pieces, i + 1);
      ghost var before, at := dev.State(), ZoneAddr(t) + dl.dlDone;
      rc := dl.Process(dev, pieces[i]);
      assert dev.State() == AfterProgram(before, Write(at, pieces[i]), dev.hw);
      if rc != FAPI_STATUS_SUCCESS {
        assert dev.mem == before.mem;
        PieceWritesInside(t, pieces[..i]);
        PayloadKeepsSelection(m0, t, PieceWrites(t, pieces[..i]), m1, dev.mem);
        return;
      }
      FedStep(m1, t, pieces, i, before.mem, dev.mem);
      i := i + 1;
    }
    assert pieces[..i] == pieces;
    rc := FAPI_STATUS_SUCCESS;
  }
}
