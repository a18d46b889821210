# cc1350-ota update path, modelled in Dafny

This project models the over-the-air update path of the cc1350-ota firmware and
of the two host scripts that prepare an update.

- **Zone store and download session** (`Startup/ota.c`, `Include/ota.h`). The
  update region at 0x18000 holds two 16 KB zones. Each zone is a payload area
  followed by a trailer of three 32-bit words: gen, entrypoint, done.
  `get_valid_ota_zone` picks the valid zone with the highest generation.
  `ota_dl_init`, `ota_dl_begin`, `ota_dl_process` and `ota_dl_finish` target the
  other zone: they erase it sector by sector, program the payload at a running
  offset, and commit the trailer with the done word last.
  - The flash is a class, `Flash.FlashDevice`. Its contents, protection map and
    command trace are fields.
  - The status the hardware reports for each erase or program is an oracle `hw`:
    one status per operation, in issue order.
- **Update service** (`PROFILES/simple_gatt_profile.c`). `check_blob` validates
  the 12-byte chunk envelope. `ota_transaction` starts the session from the image
  header of the first chunk, feeds every chunk's bytes to the session, and counts
  chunks. The CHAR3 write case wraps it.
  - Every `while (1)` becomes a `Halt` outcome.
  - Whether `SysCtrlSystemReset` is called is the `reset` result of the CHAR3 write.
- **An installer** (`Install`). It is a client of the download API in
  `Include/ota.h`: init, begin, process for each piece, then finish. It connects
  what the `DlState` methods do to the flash with the session lemmas.
- **`extract_ota.py`**. It selects the ELF segments inside the update's flash or
  SRAM window and sorts them stably by address. It lays them out as one image
  (zero padding before flash segments, load records for SRAM segments) and
  resolves the entrypoint marker symbol.
- **`prepare_blobs.py`**. It packs the image header in front of the image, cuts
  the hex text into 68-byte pieces, and wraps each piece in the chunk envelope.

Proofs cover each layer and the links between layers:
- the session never changes the zone `get_valid_ota_zone` picks until the done
  word is written, and afterwards the new zone wins;
- `check_blob` accepts exactly the admissible envelopes;
- the sort is a stable, ordered permutation;
- every flash segment's bytes sit at their address in the image;
- the host's chunk files decode to envelopes and pieces that the firmware accepts
  in order, and the bytes it feeds the session are exactly the image;
- an install that stops at a failing call keeps the selection, and one that
  succeeds is a whole session that selects the new zone.

## Model

| member | source | states |
|---|---|---|
| OtaLayout.Other | Startup/ota.c:136 | the zone after t is the other zone, `(t + 1) % NR_OTA_ZONES` |
| OtaLayout.ZoneAddr | Include/ota.h:22-31 | zone i starts at `OTA_REGION->zones[i]` and lies inside the 0x8000-byte region at 0x18000 |
| OtaLayout.MetadataAddr | Include/ota.h:20-25 | the trailer is the last `sizeof(struct ota_metadata)` bytes of the zone |
| OtaLayout.ZoneOf | Include/ota.h:27-29 | an address has a zone exactly when it lies in the region, and it lies inside that zone |
| OtaLayout.RegionLayout | Include/ota.h:6-29 | zone size 0x4000; payload plus trailer is a zone; the zones tile the region; gen, entrypoint, done lie in that order at the end of the zone |
| ByteCodec.FromLEOfLE | Include/ota.h:14-18 | decoding a little-endian encoding gives the value back |
| ByteCodec.LEOfFromLE | Include/ota.h:14-18 | every byte string is the encoding of its value |
| ByteCodec.AllOnesWord | Startup/ota.c:15 | an erased word reads as `(unsigned long) -1`, the gen sentinel |
| ByteCodec.U32Bytes | Include/ota.h:14-18 | the stored bytes of a 32-bit word read back as that word |
| ByteCodec.U16Bytes | PROFILES/simple_gatt_profile.c:89-105 | the stored bytes of a 16-bit field read back as that field |
| ByteCodec.FixedWidthIsFromLE | PROFILES/simple_gatt_profile.c:89-105 | the fixed-width field readers agree with the general little-endian decoding |
| Flash.SectorOfIsDiv | Startup/ota.c:142-143 | the sector index is `addr / sector_size`, and its address is addr exactly when addr is sector-aligned |
| Flash.SectorBounds | Startup/ota.c:143 | an address lies inside the sector its index names |
| Flash.ProgramErasedByte | Startup/ota.c:62-75 | programming over an erased byte stores exactly the new byte |
| Flash.ApplyWritesOutside | Startup/ota.c:159-204 | a byte no program covers keeps its value |
| Flash.ApplyWritesCovered | Startup/ota.c:159-204 | an erased byte covered by exactly one program ends up holding that program's byte |
| Flash.FlashDevice.SectorErase | Startup/ota.c:89-99 | returns the hardware status; a successful erase sets the sector to 0xFF; a failed one changes no byte; the command is recorded |
| Flash.FlashDevice.Program | Startup/ota.c:62-75 | returns the hardware status; a successful program ANDs the buffer into the flash at addr; a failed one changes no byte |
| Flash.FlashDevice.ProtectionSet | Startup/ota.c:77-86 | records the mode for that sector and changes nothing else |
| ZoneStore.Region | Startup/ota.c:105 | the trailers of both zones, in zone order, as read from the flash |
| ZoneStore.Scan | Startup/ota.c:105-115 | after n zones: -1 exactly when none is valid, otherwise a valid zone whose gen no valid zone exceeds and that no valid zone of equal gen precedes |
| ZoneStore.SelectZoneIs | Startup/ota.c:101-118 | the selection is the unique authoritative zone |
| ZoneStore.SelectionStable | Startup/ota.c:101-118 | changing only a non-selected zone, leaving it unchanged or invalid, keeps the selection |
| ZoneStore.GetValidOtaZone | Startup/ota.c:101-118 | the loop returns the selected zone: the first valid zone of the highest gen, or -1 |
| Download.NextTarget | Startup/ota.c:130-137 | zone 0 and gen 0 when no zone is valid; otherwise a zone other than the selected one, with the selected gen plus one |
| Download.CommitWrites | Startup/ota.c:176-198 | three 4-byte programs, to the entrypoint, gen and done words of the target, in that order |
| Download.SectorsInsideZone | Startup/ota.c:142-143 | the sectors `ota_dl_init` selects end no later than the target zone |
| Download.SectorInZone | Startup/ota.c:147-151 | each sector `ota_dl_begin` erases ends inside the target zone |
| Download.EraseRangeExtend | Startup/ota.c:147-156 | erasing adjacent ranges erases their union |
| Download.BeginStep | Startup/ota.c:147-156 | one more loop iteration extends the record of unprotects and erases; the erase takes effect only on success |
| Download.ProgramsStep | Startup/ota.c:176-198 | one more program extends a series of programs; it takes effect only on success |
| Download.ClearSector | Startup/ota.c:150-154 | unprotects and erases one sector; the new state is the extended series |
| Download.CommitStep | Startup/ota.c:176-198 | issues one program of the series; the new state is the extended series |
| Download.FirstFailure | Startup/ota.c:146-157 | the number of leading operations of a series that succeeded: all of them succeeded and, short of the end, the next one failed |
| Download.SucceededAt | Startup/ota.c:146-157 | every operation inside a run of successes reported success |
| Download.FirstFailureUnique | Startup/ota.c:146-157 | a count with that property is the first failure |
| Download.SeriesStatusSuccess | Startup/ota.c:146-198 | a series reports success exactly when every operation of it succeeded |
| Download.DlState.Init | Startup/ota.c:129-144 | target and gen are NextTarget of the flash; dl_done is 0; size and entrypoint copied; sector size from the device |
| Download.DlState.Begin | Startup/ota.c:146-157 | unprotects then erases each target sector in order and stops at the first failing erase; the status is that erase's (SeriesStatus), and the new flash state is BeginState: the sectors before the first failure unprotected and erased, the failing one unprotected only |
| Download.DlState.Process | Startup/ota.c:159-170 | programs buf at the target payload offset dl_done; dl_done advances by the length only on success |
| Download.DlState.Finish | Startup/ota.c:172-204 | programs entrypoint, gen and done in order and stops at the first failure, whose status it returns; the new flash state is FinishState: the programs up to the first failure, and only when all three succeed every target sector write-protected |
| Download.DlState.ProtectTarget | Startup/ota.c:200-202 | write-protects every target sector, in ascending order |
| Download.ProgramCountOverruns | Startup/ota.c:70 | as written, every program into the region asks the driver for more bytes than its buffer holds |
| Session.SectorOfAddr | Startup/ota.c:143 | the sector index of a sector's address is that sector |
| Session.AlignedSectors | Startup/ota.c:142-143 | with a sector size that divides the zone, the target sectors cover exactly the zone, and all but the last stop before the trailer |
| Session.OtherZoneKept | Startup/ota.c:101-118 | a change confined to zone t leaves the other zone's metadata as it was |
| Session.TrailerKept | Startup/ota.c:101-118 | a change that spares t's trailer leaves its metadata as it was |
| Session.ErasedTrailerInvalid | Startup/ota.c:108 | an erased trailer reads done != magic and gen == sentinel, so the zone is invalid |
| Session.ErasePrefixEffect | Startup/ota.c:146-157 | erasing a prefix of the zone touches nothing outside it; short of the trailer it spares the trailer; the whole zone erases it |
| Session.ErasePrefixKeepsSelection | Startup/ota.c:146-157 | erasing part of a non-selected zone keeps the selection |
| Session.EraseKeepsSelection | Startup/ota.c:146-157 | wherever the erase loop stops, the selection is as before; after all sectors the zone is erased |
| Session.PayloadEffect | Startup/ota.c:159-170 | payload programs inside zone t spare its trailer and every byte outside it |
| Session.CommitInsideZone | Startup/ota.c:172-198 | any number of trailer programs changes nothing outside zone t |
| Session.InterruptedCommit | Startup/ota.c:172-198 | if fewer than three trailer programs took effect, the done word is unchanged and nothing outside t changed |
| Session.CommittedWord | Startup/ota.c:172-198 | each trailer program over an erased trailer leaves its word there |
| Session.CompletedCommit | Startup/ota.c:172-198 | all three programs over an erased trailer leave exactly (gen, entrypoint, magic) |
| Session.ErasedZone | Startup/ota.c:146-157 | erasing a non-selected zone keeps the selection and leaves the other zone as it was |
| Session.PayloadKeepsSelection | Startup/ota.c:159-170 | erase then payload keep the selection; the target trailer is still erased |
| Session.CommitPrefixKeepsSelection | Startup/ota.c:172-198 | a proper prefix of the commit keeps the selection |
| Session.CommitSelects | Startup/ota.c:101-137 | committing (g, entrypoint, magic) into the zone NextTarget picked makes that zone the selected one |
| Session.SessionKeepsSelection | Startup/ota.c:129-198 | until the done word is programmed, a session never changes which zone is selected |
| Session.SessionSelectsTarget | Startup/ota.c:129-204 | after a complete session the target holds (g, entrypoint, magic), the other zone is unchanged, and the target is selected |
| Install.TotalPrefix | Startup/ota.c:159-170 | a prefix of the pieces holds no more bytes than all of them |
| Install.PieceWrites | Startup/ota.c:159-170 | one program per piece, the last at the payload offset equal to the bytes before it |
| Install.PieceWritesInside | Include/ota.h:20-25 | pieces that fit `OTA_PAYLOAD_SIZE` are programmed inside the payload area |
| Install.ApplyWritesPrefix | Startup/ota.c:159-170 | programs issued later do not change the effect of the earlier ones |
| Install.FeedOneMore | Startup/ota.c:159-170 | feeding one more piece programs it on top of the pieces fed before, at their total |
| Install.FedStep | Startup/ota.c:159-170 | the flash after one more successful process is the programs of one more piece |
| Install.InstallImage | Startup/ota.c:129-204 | init, begin, process per piece and finish, stopping at the first failure: a failed run keeps the selection; a successful one is a whole Session over the pieces and selects the target with (gen, entrypoint, magic) |
| Install.FeedPieces | Startup/ota.c:159-170 | processing the pieces in order: on success the flash holds every piece at its offset, on failure the selection is unchanged |
| ChunkProtocol.ParseEnvelopeBytes | PROFILES/simple_gatt_profile.c:89-99 | reading the envelope of a packed envelope gives it back |
| ChunkProtocol.ParseLoadBytes | prepare_blobs.py:49-50 | a load descriptor packed as `'<LHH'` reads back, wherever it sits, as the dest, offset and len the firmware's header slot (`struct ota_load loads[OTA_MAX_LOADS]` of `struct OTAHeader`) holds |
| ChunkProtocol.ParseHeaderBytes | PROFILES/simple_gatt_profile.c:101-105 | reading the header of a packed image header gives it back |
| ChunkProtocol.CheckBlob | PROFILES/simple_gatt_profile.c:115-170 | TooShort exactly for buffers under 12 bytes; success returns the envelope; with a running total within the limit, success exactly when every check holds |
| OtaTransfer.DataLenAsWritten | PROFILES/simple_gatt_profile.c:452-471 | as written, the count handed to `ota_dl_process` is len - 12, and len - 40 on the first chunk when that does not wrap |
| OtaTransfer.ShortFirstChunkOverruns | PROFILES/simple_gatt_profile.c:449-476 | a 20-byte first chunk passes `check_blob` and then hands 0xFFFFFFEC bytes to `ota_dl_process` |
| OtaTransfer.ShortFirstChunksOverrun | PROFILES/simple_gatt_profile.c:452-471 | every first chunk of 12 to 39 bytes wraps the count past its length |
| OtaTransfer.ChunkData | PROFILES/simple_gatt_profile.c:452-476 | corrected: the bytes after the envelope (and after the header on the first chunk); a first chunk without a whole header halts; the count agrees with the source wherever it does not wrap |
| OtaTransfer.Admit | PROFILES/simple_gatt_profile.c:449-471 | success exactly when `check_blob` accepts and a first chunk holds the header |
| OtaTransfer.NextCounters | PROFILES/simple_gatt_profile.c:484-494 | after the last chunk (cur_chunk + 1 == num_chunks) the counters are exactly (-1, 0); otherwise they advance by one chunk and chunk_len bytes |
| OtaTransfer.CountersBounded | PROFILES/simple_gatt_profile.c:484-494 | after an accepted chunk the counters stay within -1..255 and the 400-byte limit |
| OtaTransfer.OtaService.Transaction | PROFILES/simple_gatt_profile.c:447-497 | a rejected chunk halts with flash, session, counters and phase unchanged; an accepted one (Accepted) starts the session from the header on the first chunk, leaves the flash and dl_done exactly as begin, process when there are bytes, and finish once dl_done reaches dl_size leave them, and advances the counters |
| OtaTransfer.OtaService.AcceptChunk | PROFILES/simple_gatt_profile.c:458-494 | the body after the checks: phase DATA, the counters advanced, and the flash and dl_done as the session calls leave them |
| OtaTransfer.OtaService.Deliver | PROFILES/simple_gatt_profile.c:458-481 | the switch on the phase: start and feed on NEW, feed on DATA; the target is kept on DATA |
| OtaTransfer.OtaService.Open | PROFILES/simple_gatt_profile.c:459-481 | the NEW case falling through into DATA: the flash and dl_done are those of begin then feeding the bytes after the header from offset 0 |
| OtaTransfer.FirstChunkCalls | PROFILES/simple_gatt_profile.c:469-481 | init and begin followed by the feed calls are the calls of a first chunk |
| OtaTransfer.OtaService.CountChunk | PROFILES/simple_gatt_profile.c:484-494 | the counters become NextCounters |
| OtaTransfer.OtaService.StartSession | PROFILES/simple_gatt_profile.c:459-473 | parameters from the header; init targets NextTarget; the flash is as begin leaves it; phase DATA |
| OtaTransfer.OtaService.FeedSession | PROFILES/simple_gatt_profile.c:474-481 | the flash and dl_done become those of process on the bytes (when there are any), then finish when dl_done equals dl_size |
| OtaTransfer.OtaService.Hand | PROFILES/simple_gatt_profile.c:475-477 | process only when there are bytes; the flash and dl_done as process leaves them |
| OtaTransfer.OtaService.Complete | PROFILES/simple_gatt_profile.c:478-480 | the flash as finish leaves it |
| OtaTransfer.OtaService.WriteChar3 | PROFILES/simple_gatt_profile.c:877-896 | a nonzero offset or an over-long value halts with nothing changed and no reset; otherwise the transaction decides; an accepted write resets exactly when it was the last chunk |
| PrepareBlobs.HexValue | prepare_blobs.py:33 | a character has a value exactly when it is a lowercase hex digit, and that digit is the value's |
| PrepareBlobs.ToHexDigits | prepare_blobs.py:30-35 | characters 2i and 2i+1 are the high and low digits of byte i |
| PrepareBlobs.FromHexToHex | prepare_blobs.py:30-35 | decoding the hex text of bytes gives the bytes back |
| PrepareBlobs.ToHexAppend | prepare_blobs.py:30-35 | the hex text of a concatenation is the concatenation of the hex texts |
| PrepareBlobs.ToHexSlice | prepare_blobs.py:30-35 | the hex text of a slice is the matching slice of the hex text |
| PrepareBlobs.ChunksFlatten | prepare_blobs.py:38-42 | the pieces put back together give the input |
| PrepareBlobs.ChunksCount | prepare_blobs.py:72 | there are ceil(n / w) pieces |
| PrepareBlobs.ChunkAt | prepare_blobs.py:38-42 | piece i is the slice from i * w, w long or to the end |
| PrepareBlobs.ChunkSizes | prepare_blobs.py:38-42 | every piece is nonempty and at most w long; all but the last are exactly w long |
| PrepareBlobs.HexChunks | prepare_blobs.py:38-42 | cutting hex text every 136 characters cuts the bytes every 68 bytes |
| PrepareBlobs.IterChunks | prepare_blobs.py:38-42 | the loop yields exactly the pieces |
| PrepareBlobs.CreateChunk | prepare_blobs.py:16-27 | packs exactly when every field fits its width; the text is the envelope's hex followed by the payload |
| PrepareBlobs.CreateChunkRoundTrip | prepare_blobs.py:16-27 | the firmware reads back every envelope field a chunk was packed with, then its payload |
| PrepareBlobs.ChunkCsum | prepare_blobs.py:45-46 | the checksum is always 0 |
| PrepareBlobs.DumpLoad | prepare_blobs.py:49-50 | packs exactly when the fields fit; the firmware reads back the same load |
| PrepareBlobs.MetadataHex | prepare_blobs.py:53-62 | packs exactly when entrypoint, size and the three slots fit; 56 hex characters |
| PrepareBlobs.MetadataRoundTrip | prepare_blobs.py:53-62 | the firmware reads back entrypoint, image size and the first three loads, zero-filled |
| PrepareBlobs.DumpMetadata | prepare_blobs.py:53-62 | the loop produces the metadata text or the packing error |
| PrepareBlobs.ChunkFile | prepare_blobs.py:80-88 | chunk file i packs exactly when total size, i and num_chunks fit their widths |
| PrepareBlobs.PrepareChunks | prepare_blobs.py:65-90 | the loop of `main` produces the chunk files or the error it stops at |
| PrepareBlobs.PayloadIsHex | prepare_blobs.py:69-70 | the text cut is the hex of header bytes plus image; total_size counts both |
| PrepareBlobs.ChunkFileBytes | prepare_blobs.py:70-88 | chunk file i decodes to its envelope (index i, num_chunks = piece count, checksum 0, piece length) followed by piece i |
| PrepareBlobs.BlobBytes | prepare_blobs.py:65-90 | every chunk file decodes to the envelope and piece i of header plus image |
| ExtractOta.RangeContainsRangeMeaning | extract_ota.py:10-14 | a nonempty range is contained exactly when each of its addresses is |
| ExtractOta.KeepOta | extract_ota.py:52-65 | keeps exactly the segments in the flash or SRAM window, and no more of them than the input has |
| ExtractOta.KeepOtaCount | extract_ota.py:52-65 | each kept segment occurs as often as in the input, every other segment not at all |
| ExtractOta.KeepOtaAppend | extract_ota.py:52-65 | filtering a concatenation is the concatenation of the filtered parts, so input order is kept |
| ExtractOta.InsertPerm | extract_ota.py:63-67 | insertion adds exactly the new segment |
| ExtractOta.InsertSorted | extract_ota.py:63-67 | insertion keeps address order |
| ExtractOta.InsertAtAddr | extract_ota.py:63-67 | insertion puts the new segment before the existing ones at its address |
| ExtractOta.SortByAddrCorrect | extract_ota.py:63-67 | the sort is ordered by address, a permutation, and stable |
| ExtractOta.SortSorted | extract_ota.py:63-67 | the sort is ordered by address |
| ExtractOta.SortPerm | extract_ota.py:63-67 | the sort is a permutation |
| ExtractOta.SortStable | extract_ota.py:63-67 | the segments at each address keep their original order |
| ExtractOta.Selected | extract_ota.py:51-68 | the laid-out segments are the kept ones, sorted stably by address |
| ExtractOta.LastMarkerMeaning | extract_ota.py:31-36 | no name exactly when no symbol is a marker; otherwise the last marker's name without its prefix |
| ExtractOta.LookupMeaning | extract_ota.py:42-44 | no value exactly when no symbol has the name; otherwise the first such symbol's value |
| ExtractOta.FindEntrypoint | extract_ota.py:30-48 | the two passes return the entrypoint, or NoEntrypoint, or MissingSymbol |
| ExtractOta.Extract | extract_ota.py:51-100 | fails exactly when `_find_entrypoint` raises, with its error; otherwise the entrypoint is the symbol value minus `ota_flash_addr`, data and loads are the layout of the selected segments (each load dest = p_vaddr, offset = data_offset - ota_flash_addr, len = p_memsz), and size is the length of data |
| ExtractOta.LayOut | extract_ota.py:71-94 | the loop computes data, data_offset and loads as the step function does |
| ExtractOta.LayoutLength | extract_ota.py:75-94 | with no backward step and full reads, the image is as long as the offset says |
| ExtractOta.LayoutGrows | extract_ota.py:75-94 | later iterations only append to the image and the loads |
| ExtractOta.PlaceFlash | extract_ota.py:76-82 | one flash step: zeros up to the segment's address, then its bytes |
| ExtractOta.PlaceSram | extract_ota.py:83-94 | one SRAM step: its bytes appended and one load record added |
| ExtractOta.LayoutStep | extract_ota.py:75-94 | step i is the placement of segment i after the earlier steps |
| ExtractOta.FlashPlacement | extract_ota.py:76-82 | each flash segment's bytes sit at `p_vaddr - ota_flash_addr`, after zeros from where the previous segment ended |
| ExtractOta.SramLoadRecord | extract_ota.py:83-94 | whatever the skips and reads before it, each SRAM segment adds the load {dest p_vaddr, offset data_offset - ota_flash_addr, len p_memsz} after the earlier loads |
| ExtractOta.SramLoad | extract_ota.py:83-94 | each SRAM segment adds the load {dest p_vaddr, offset data_offset - ota_flash_addr, len p_memsz}, and its bytes sit at that offset |
| ExtractOta.SramLoadInHeader | extract_ota.py:83-94 | when the image packs, the header the firmware reads back carries that SRAM segment's load with dest p_vaddr, offset and len p_memsz |
| ExtractOta.ToJson | extract_ota.py:140-144 | the output's data is the hex text of the image bytes, and its size is their count |
| TransferInterop.PiecesBounded | PROFILES/simple_gatt_profile.c:86 | an image within the 400-byte limit makes at most six pieces |
| TransferInterop.PieceAccepted | PROFILES/simple_gatt_profile.c:447-497 | piece i with its envelope, written after pieces 0..i-1, passes every check, feeds the session its bytes, and leaves the counters for piece i+1 (or reset after the last) |
| TransferInterop.FirstPieceHeader | PROFILES/simple_gatt_profile.c:459-468 | the first piece carries the image header |
| TransferInterop.FedDataIsImage | PROFILES/simple_gatt_profile.c:471-477 | the bytes fed to the session, piece after piece, are the image after its header |
| TransferInterop.PreparedChunkAccepted | prepare_blobs.py:65-90 | for an image within the limit, the host writes its chunk files without error; each file decodes to envelope and piece; the firmware accepts it with that envelope; the header announces the image size |

## Left out

- The flash driver (`FlashProgram`, `FlashSectorErase`, `FlashProtectionSet`, `FlashSectorSizeGet`) is foreign code. The status it reports is the oracle `hw`. The sector size is a constant of the device.
- Interrupt and cache bracketing (`Hwi_disable`, the VIMS mode calls) is left out. It has no effect on the flash contents.
- `FlashSizeGet` in `ota_dl_finish` reads a value that is never used, so it is left out.
- Flash.FlashDevice.Program: programs `|data|` bytes. At `Startup/ota.c:70` the address is passed as the count (see Findings).
- `ota_startup` is left out: its body is disabled by `#if 0`. `test_ota` is left out: it is a bench routine. `Install.InstallImage` is not a source routine but a client of the API in `Include/ota.h`, written to compose the `DlState` methods.
- `OUT_OF_RANGE` (0xFFFFFFFF) is this model's own status for an erase or program beyond the flash; what the driver does there is not part of this model.
- Install.InstallImage: requires the pieces to fit `OTA_PAYLOAD_SIZE` (the size of `payload` in `struct ota_zone`) and a sector size that divides the zone and covers the trailer. `ota_transaction` does not check the first: it feeds len - 12 bytes per chunk (len - 40 on the first), not chunk_len, and the bound on len, `SIMPLEPROFILE_CHAR3_LEN`, is not part of this model.
- The reset after the last chunk is only the `reset` result of the CHAR3 write. `OtaService` does not re-initialise its state there; in the firmware every later transfer starts after that reset, with the phase NEW.
- `ota_dl_params_init` is not part of this model: it is called but not defined in the selected sources. The load table that `ota_transaction` copies from the header is a field of `DlParams`, although `struct ota_dl_params` in `Include/ota.h` has no such field.
- Integer widths. `dl_done`, `dl_size` and the sector arithmetic are unbounded naturals. The image is at most 400 bytes and a zone at most 0x4000 bytes, so `size_t` never wraps there. The generation counter and the byte counter of `check_blob` wrap at 32 bits explicitly.
- Session.CommitSelects and Session.SessionSelectsTarget: these require the new generation not to be 0xFFFFFFFF. When the selected zone's gen is 0xFFFFFFFE, `ota_dl_init` targets the sentinel gen, and the committed zone is not valid.
- OtaTransfer.OtaService.Transaction: uses the corrected `ChunkData`. A first chunk shorter than envelope plus header halts instead of reading past the buffer (see Findings).
- The debug globals `cur_chunk`, `previous_chunk` and `bytes_received` only mirror the counters, so they are left out. The BLE stack, the other characteristics and the GATT status codes are also left out.
- `SIMPLEPROFILE_CHAR3_LEN` is defined outside the selected sources, so it is the parameter `char3Len`.
- `struct ota_load` and `OTA_MAX_LOADS` are used by `struct OTAHeader` and `ota_transaction` in `PROFILES/simple_gatt_profile.c` but defined nowhere in these sources. The model takes their layout from the host packer: dest (32 bits), offset (16 bits), len (16 bits), three slots, as `dump_load` and `dump_metadata` in `prepare_blobs.py` write them. The 28-byte header size, and with it the wrapped count in the first row of "## Findings", rest on this layout.
- In `extract_ota.py`, ELF parsing, the `utf8` decoding of symbol names, argument parsing and JSON printing are left out. Segments and symbols arrive as records. An SRAM segment's bytes (`f.read` at `p_offset`) are an input of the record.
- In `prepare_blobs.py`, file reading and writing, the directory handling and the JSON parsing are left out.
  - The chunk files are the returned list.
  - A packing error returns only the error, not the files written before it.
  - `int(len / 2)` and `math.ceil` on a float are integer division and ceiling, which agree for these sizes.
- ExtractOta.FlashPlacement and ExtractOta.SramLoad (for where the SRAM bytes sit; the load record itself is ExtractOta.SramLoadRecord, without these conditions): these require that no flash segment lies behind the running offset, and that SRAM reads return `p_memsz` bytes. Without these, the script's offset and image length part ways. That layout is still modelled by `LayoutOf`, but it is not characterised.

## Findings

| source | as written | input that shows it | evidently intended | confidence | as-written member | corrected member |
|---|---|---|---|---|---|---|
| PROFILES/simple_gatt_profile.c:452-476 | on the first chunk `len -= sizeof (struct OTAHeader)` runs on a `size_t` without checking that the chunk holds a header | a 20-byte first chunk (envelope with chunk_len 8, then 8 bytes): `check_blob` accepts it, and `ota_dl_process` is asked for 0xFFFFFFEC bytes | a first chunk too short for the 28-byte header is rejected like any other malformed chunk | high, not executed | OtaTransfer.ShortFirstChunkOverruns | OtaTransfer.ChunkData |
| Startup/ota.c:62-75 | `ota_FlashProgram` passes `ui32Address` as the byte count to `FlashProgram` | any program into the update region, e.g. the 4-byte entrypoint word of zone 0 at 0x1bff8, asks for 0x1bff8 bytes | the count is `ui32Count`, the buffer length | high, not executed | Download.ProgramCountOverruns | Flash.FlashDevice.Program |
