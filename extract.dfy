/**
 * The host extraction script (`extract_ota.py`): it picks from the application's
 * ELF file the program segments that lie in the update's flash window or SRAM
 * window. It lays them out as one image in ascending address order and resolves
 * the entrypoint symbol.
 *
 * Segments and symbols arrive as records, not as an ELF file. A flash segment's
 * bytes are `seg.data()`. An SRAM segment's bytes are what `f.read(p_memsz)`
 * returned at `p_offset`: `p_memsz` bytes, or fewer at the end of the file.
 */
module ExtractOta {
  import opened ByteCodec
  import opened Wrappers
  import opened OtaLayout
  import opened ChunkProtocol
  import opened PrepareBlobs

  /** A program header with the bytes the script reads for it. */
  datatype Segment = Segment(vaddr: nat, memsz: nat, data: seq<byte>, read: seq<byte>)

  /** A symbol table entry: name and `st_value`. */
  datatype Symbol = Symbol(name: string, value: int)

  /** The windows the update may occupy: `--ota-flash-addr/len`, `--ota-sram-addr/len`. */
  datatype Params = Params(flashAddr: int, flashLen: int, sramAddr: int, sramLen: int)

  /** The dictionary `extract_ota` returns. */
  datatype Image = Image(size: nat, loads: seq<LoadRecord>, entrypoint: int, data: seq<byte>)

  /** The `RuntimeError`s `_find_entrypoint` raises. */
  datatype ExtractError = NoEntrypoint | MissingSymbol(name: string)

  const ENTRYPOINT_PREFIX: string := "__ota_entrypoint_"

  // ---------------------------------------------------------------------------
  // Windows

  /** `_range_contains_range`: the range starts no earlier and ends no later. */
  predicate RangeContainsRange(r1Start: int, r1Len: int, r2Start: int, r2Len: int)
  {
    r1Start >= r2Start && r1Start + r1Len <= r2Start + r2Len
  }

  /** Address x lies in the range of len addresses from start. */
  predicate InRange(x: int, start: int, len: int)
  {
    start <= x < start + len
  }

  /** A nonempty range is contained exactly when each of its addresses is. */
  lemma {:induction false} RangeContainsRangeMeaning(r1Start: int, r1Len: int, r2Start: int, r2Len: int)
    requires r1Len > 0
    ensures RangeContainsRange(r1Start, r1Len, r2Start, r2Len) <==>
      forall x :: InRange(x, r1Start, r1Len) ==> InRange(x, r2Start, r2Len)
  {
    if !RangeContainsRange(r1Start, r1Len, r2Start, r2Len) {
      if r1Start < r2Start {
        assert InRange(r1Start, r1Start, r1Len) && !InRange(r1Start, r2Start, r2Len);
      } else {
        var x := r1Start + r1Len - 1;
        assert InRange(x, r1Start, r1Len) && !InRange(x, r2Start, r2Len);
      }
    }
  }

  /** `_seg_in_range`: the segment's memory image lies in the window. */
  predicate SegInRange(seg: Segment, rStart: int, rLen: int)
  {
    RangeContainsRange(seg.vaddr, seg.memsz, rStart, rLen)
  }

  predicate InFlash(p: Params, seg: Segment)
  {
    SegInRange(seg, p.flashAddr, p.flashLen)
  }

  predicate InSram(p: Params, seg: Segment)
  {
    SegInRange(seg, p.sramAddr, p.sramLen)
  }

  /** `seg_in_ota`: in the flash window or in the SRAM window. */
  predicate InOta(p: Params, seg: Segment)
  {
    InFlash(p, seg) || InSram(p, seg)
  }

  // ---------------------------------------------------------------------------
  // Segment selection

  /** The segments `seg_in_ota` keeps, in their original order. */
  function KeepOta(p: Params, segs: seq<Segment>): (r: seq<Segment>)
    ensures forall s :: s in r <==> s in segs && InOta(p, s)
    ensures |r| <= |segs|
  {
    if segs == [] then []
    else (if InOta(p, segs[0]) then [segs[0]] else []) + KeepOta(p, segs[1..])
  }

  /** The selection keeps every copy of a segment in the windows and no copy of any other. */
  lemma {:induction false} KeepOtaCount(p: Params, segs: seq<Segment>, s: Segment)
    ensures multiset(KeepOta(p, segs))[s] == if InOta(p, s) then multiset(segs)[s] else 0
    decreases |segs|
  {
    if segs != [] {
      var head := if InOta(p, segs[0]) then [segs[0]] else [];
      assert segs == [segs[0]] + segs[1..];
      assert KeepOta(p, segs) == head + KeepOta(p, segs[1..]);
      KeepOtaCount(p, segs[1..], s);
    }
  }

  /**
   * The selection keeps the original order: filtering two runs of segments one
   * after the other gives the kept segments of the first run, then those of the
   * second.
   */
  lemma {:induction false} KeepOtaAppend(p: Params, a: seq<Segment>, b: seq<Segment>)
    ensures KeepOta(p, a + b) == KeepOta(p, a) + KeepOta(p, b)
    decreases |a|
  {
    if a != [] {
      var head := if InOta(p, a[0]) then [a[0]] else [];
      assert (a + b)[0] == a[0] && (a + b)[1..] == a[1..] + b;
      assert KeepOta(p, a + b) == head + KeepOta(p, a[1..] + b);
      KeepOtaAppend(p, a[1..], b);
      assert KeepOta(p, a) == head + KeepOta(p, a[1..]);
      assert head + (KeepOta(p, a[1..]) + KeepOta(p, b)) == (head + KeepOta(p, a[1..])) + KeepOta(p, b);
    } else {
      assert a + b == b;
      assert KeepOta(p, a) == [];
    }
  }

  /** Ascending `p_vaddr`. */
  predicate SortedByAddr(s: seq<Segment>)
  {
    forall i, j :: 0 <= i < j < |s| ==> s[i].vaddr <= s[j].vaddr
  }

  /** The segments of s at address a, in their order in s. */
  function AtAddr(s: seq<Segment>, a: nat): seq<Segment>
  {
    if s == [] then [] else (if s[0].vaddr == a then [s[0]] else []) + AtAddr(s[1..], a)
  }

  /** Inserts x before the first segment at an address no lower than its own. */
  function InsertByAddr(x: Segment, s: seq<Segment>): seq<Segment>
  {
    if s == [] || x.vaddr <= s[0].vaddr then [x] + s else [s[0]] + InsertByAddr(x, s[1..])
  }

  /** `sorted(..., key=_seg_addr)`: a stable sort by `p_vaddr`. */
  function SortByAddr(s: seq<Segment>): seq<Segment>
  {
    if s == [] then [] else InsertByAddr(s[0], SortByAddr(s[1..]))
  }

  lemma {:induction false} InsertPerm(x: Segment, s: seq<Segment>)
    ensures multiset(InsertByAddr(x, s)) == multiset(s) + multiset{x}
    decreases |s|
  {
    if s != [] && x.vaddr > s[0].vaddr {
      InsertPerm(x, s[1..]);
      assert s == [s[0]] + s[1..];
    }
  }

  /** A segment in front of a sorted sequence whose addresses are all no lower keeps it sorted. */
  lemma {:induction false} ConsSorted(y: Segment, s: seq<Segment>)
    requires SortedByAddr(s) && forall k :: 0 <= k < |s| ==> y.vaddr <= s[k].vaddr
    ensures SortedByAddr([y] + s)
  {
    var r := [y] + s;
    forall i, j | 0 <= i < j < |r|
      ensures r[i].vaddr <= r[j].vaddr
    {
      assert r[j] == s[j - 1];
      if i > 0 {
        assert r[i] == s[i - 1];
      }
    }
  }

  /** Inserting keeps a lower bound on the addresses. */
  lemma {:induction false} InsertBounded(x: Segment, s: seq<Segment>, b: int)
    requires b <= x.vaddr && forall k :: 0 <= k < |s| ==> b <= s[k].vaddr
    ensures forall k :: 0 <= k < |InsertByAddr(x, s)| ==> b <= InsertByAddr(x, s)[k].vaddr
    decreases |s|
  {
    if s != [] && x.vaddr > s[0].vaddr {
      InsertBounded(x, s[1..], b);
      var t := InsertByAddr(x, s[1..]);
      assert forall k :: 0 < k < |t| + 1 ==> InsertByAddr(x, s)[k] == t[k - 1];
    }
  }

  lemma {:induction false} InsertSorted(x: Segment, s: seq<Segment>)
    requires SortedByAddr(s)
    ensures SortedByAddr(InsertByAddr(x, s))
    decreases |s|
  {
    if s == [] || x.vaddr <= s[0].vaddr {
      ConsSorted(x, s);
    } else {
      InsertSorted(x, s[1..]);
      InsertBounded(x, s[1..], s[0].vaddr);
      ConsSorted(s[0], InsertByAddr(x, s[1..]));
    }
  }

  lemma {:induction false} InsertAtAddr(x: Segment, s: seq<Segment>, a: nat)
    requires SortedByAddr(s)
    ensures AtAddr(InsertByAddr(x, s), a) == (if x.vaddr == a then [x] else []) + AtAddr(s, a)
    decreases |s|
  {
    if s == [] {
    } else if x.vaddr <= s[0].vaddr {
      assert InsertByAddr(x, s)[1..] == s;
    } else {
      InsertAtAddr(x, s[1..], a);
      assert InsertByAddr(x, s)[1..] == InsertByAddr(x, s[1..]);
      if x.vaddr == a {
        assert s[0].vaddr < a;
      }
    }
  }

  /**
   * The sort orders by address, keeps every segment as often as it occurs, and
   * keeps the original order of segments at the same address.
   */
  lemma {:induction false} SortByAddrCorrect(s: seq<Segment>)
    ensures SortedByAddr(SortByAddr(s))
    ensures multiset(SortByAddr(s)) == multiset(s)
    ensures forall a :: AtAddr(SortByAddr(s), a) == AtAddr(s, a)
  {
    SortSorted(s);
    SortPerm(s);
    forall a {
      SortStable(s, a);
    }
  }

  lemma {:induction false} SortSorted(s: seq<Segment>)
    ensures SortedByAddr(SortByAddr(s))
    decreases |s|
  {
    if s != [] {
      SortSorted(s[1..]);
      InsertSorted(s[0], SortByAddr(s[1..]));
    }
  }

  lemma {:induction false} SortPerm(s: seq<Segment>)
    ensures multiset(SortByAddr(s)) == multiset(s)
    decreases |s|
  {
    if s != [] {
      SortPerm(s[1..]);
      InsertPerm(s[0], SortByAddr(s[1..]));
      assert s == [s[0]] + s[1..];
    }
  }

  lemma {:induction false} SortStable(s: seq<Segment>, a: nat)
    ensures AtAddr(SortByAddr(s), a) == AtAddr(s, a)
    decreases |s|
  {
    if s != [] {
      SortStable(s[1..], a);
      SortSorted(s[1..]);
      InsertAtAddr(s[0], SortByAddr(s[1..]), a);
    }
  }

  /** The segments `extract_ota` lays out, in the order it lays them out. */
  function Selected(p: Params, segs: seq<Segment>): (r: seq<Segment>)
    ensures SortedByAddr(r)
    ensures multiset(r) == multiset(KeepOta(p, segs))
    ensures forall a :: AtAddr(r, a) == AtAddr(KeepOta(p, segs), a)
    ensures forall s :: s in r <==> s in segs && InOta(p, s)
  {
    SortByAddrCorrect(KeepOta(p, segs));
    var r := SortByAddr(KeepOta(p, segs));
    assert forall s :: s in r <==> s in multiset(r);
    r
  }

  // ---------------------------------------------------------------------------
  // Entrypoint

  predicate IsMarker(name: string)
  {
    |ENTRYPOINT_PREFIX| <= |name| && name[..|ENTRYPOINT_PREFIX|] == ENTRYPOINT_PREFIX
  }

  /** The name the last `__ota_entrypoint_<name>` marker symbol carries, if there is one. */
  function LastMarker(syms: seq<Symbol>): Option<string>
  {
    if syms == [] then None
    else
      var last := syms[|syms| - 1];
      if IsMarker(last.name) then Some(last.name[|ENTRYPOINT_PREFIX|..])
      else LastMarker(syms[..|syms| - 1])
  }

  /** `LastMarker` finds no name exactly when no symbol is a marker, and otherwise the last marker's. */
  lemma {:induction false} LastMarkerMeaning(syms: seq<Symbol>)
    ensures LastMarker(syms).None? <==> forall k :: 0 <= k < |syms| ==> !IsMarker(syms[k].name)
    ensures LastMarker(syms).Some? ==> exists k :: (0 <= k < |syms| && IsMarker(syms[k].name)
      && LastMarker(syms).value == syms[k].name[|ENTRYPOINT_PREFIX|..]
      && forall j :: k < j < |syms| ==> !IsMarker(syms[j].name))
    decreases |syms|
  {
    if syms != [] && !IsMarker(syms[|syms| - 1].name) {
      var init := syms[..|syms| - 1];
      LastMarkerMeaning(init);
      assert forall k :: 0 <= k < |init| ==> init[k] == syms[k];
      if LastMarker(init).Some? {
        var k :| 0 <= k < |init| && IsMarker(init[k].name)
          && LastMarker(init).value == init[k].name[|ENTRYPOINT_PREFIX|..]
          && forall j :: k < j < |init| ==> !IsMarker(init[j].name);
        assert forall j :: k < j < |syms| ==> !IsMarker(syms[j].name);
      }
    }
  }

  /** The value of the first symbol called name, if there is one. */
  function Lookup(syms: seq<Symbol>, name: string): Option<int>
  {
    if syms == [] then None
    else if syms[0].name == name then Some(syms[0].value)
    else Lookup(syms[1..], name)
  }

  /** `Lookup` finds nothing exactly when no symbol has the name, and otherwise the first one's value. */
  lemma {:induction false} LookupMeaning(syms: seq<Symbol>, name: string)
    ensures Lookup(syms, name).None? <==> forall k :: 0 <= k < |syms| ==> syms[k].name != name
    ensures Lookup(syms, name).Some? ==> exists k :: (0 <= k < |syms| && syms[k].name == name
      && syms[k].value == Lookup(syms, name).value
      && forall j :: 0 <= j < k ==> syms[j].name != name)
    decreases |syms|
  {
    if syms != [] && syms[0].name != name {
      var rest := syms[1..];
      LookupMeaning(rest, name);
      assert forall k :: 0 <= k < |rest| ==> rest[k] == syms[k + 1];
      if Lookup(rest, name).Some? {
        var k :| 0 <= k < |rest| && rest[k].name == name && rest[k].value == Lookup(rest, name).value
          && forall j :: 0 <= j < k ==> rest[j].name != name;
        assert syms[k + 1].name == name && forall j :: 0 <= j < k + 1 ==> syms[j].name != name;
      }
    }
  }

  /** What `_find_entrypoint` returns or raises. */
  function Entrypoint(syms: seq<Symbol>): Result<int, ExtractError>
  {
    match LastMarker(syms)
    case None => Err(NoEntrypoint)
    case Some(name) =>
      match Lookup(syms, name)
      case None => Err(MissingSymbol(name))
      case Some(v) => Ok(v)
  }

  /**
   * `_find_entrypoint`: the first pass remembers the name of the last marker,
   * the second returns the value of the first symbol of that name.
   */
  method FindEntrypoint(syms: seq<Symbol>) returns (r: Result<int, ExtractError>)
    ensures r == Entrypoint(syms)
  {
    var entrypoint: Option<string> := None;
    for i := 0 to |syms|
      invariant entrypoint == LastMarker(syms[..i])
    {
      assert syms[..i + 1][..i] == syms[..i];
      var decname := syms[i].name;
      if |ENTRYPOINT_PREFIX| <= |decname| && decname[..|ENTRYPOINT_PREFIX|] == ENTRYPOINT_PREFIX {
        entrypoint := Some(decname[|ENTRYPOINT_PREFIX|..]);
      }
    }
    assert syms[..|syms|] == syms;
    if entrypoint.None? {
      return Err(NoEntrypoint);
    }
    var name := entrypoint.value;
    for i := 0 to |syms|
      invariant Lookup(syms, name) == Lookup(syms[i..], name)
    {
      if syms[i].name == name {
        return Ok(syms[i].value);
      }
      assert syms[i..][1..] == syms[i + 1..];
    }
    return Err(MissingSymbol(name));
  }

  // ---------------------------------------------------------------------------
  // Layout

  /** The loop's variables: `data`, `data_offset` and `loads`. */
  datatype Layout = Layout(data: seq<byte>, offset: int, loads: seq<LoadRecord>)

  function Zeros(n: int): (r: seq<byte>)
    ensures |r| == if n > 0 then n else 0
    ensures forall k :: 0 <= k < |r| ==> r[k] == 0
  {
    if n <= 0 then [] else Zeros(n - 1) + [0]
  }

  /**
   * One iteration of the layout loop. A flash segment is padded with zeros up to
   * its address (no padding when the address lies behind, yet the offset still
   * moves back by the difference); an SRAM segment's bytes are appended and
   * recorded as a load.
   */
  function Place(p: Params, l: Layout, seg: Segment): Layout
  {
    if InFlash(p, seg) then
      var skip := seg.vaddr - l.offset;
      Layout(l.data + Zeros(skip) + seg.data, l.offset + skip + |seg.data|, l.loads)
    else
      Layout(l.data + seg.read, l.offset + seg.memsz, l.loads + [LoadRecord(dest := seg.vaddr, offset := l.offset - p.flashAddr, len := seg.memsz)])
  }

  /** The loop's variables after the given segments. */
  function LayoutOf(p: Params, segs: seq<Segment>): Layout
  {
    if segs == [] then Layout([], p.flashAddr, [])
    else Place(p, LayoutOf(p, segs[..|segs| - 1]), segs[|segs| - 1])
  }

  /** What `extract_ota` returns, or the error it raises. */
  function Extracted(p: Params, segs: seq<Segment>, syms: seq<Symbol>): Result<Image, ExtractError>
  {
    match Entrypoint(syms)
    case Err(e) => Err(e)
    case Ok(v) =>
      var l := LayoutOf(p, Selected(p, segs));
      Ok(Image(|l.data|, l.loads, v - p.flashAddr, l.data))
  }

  /**
   * `extract_ota`: selects and sorts the segments, resolves the entrypoint
   * relative to the flash window, then lays the segments out one by one.
   */
  method Extract(p: Params, segs: seq<Segment>, syms: seq<Symbol>) returns (r: Result<Image, ExtractError>)
    ensures r == Extracted(p, segs, syms)
    ensures r.Err? <==> Entrypoint(syms).Err?
    ensures r.Err? ==> r.error == Entrypoint(syms).error
    ensures r.Ok? ==> r.value.entrypoint == Entrypoint(syms).value - p.flashAddr
    ensures r.Ok? ==> r.value.data == ImageBytes(p, Selected(p, segs)) && r.value.size == |r.value.data|
    ensures r.Ok? ==> r.value.loads == LayoutOf(p, Selected(p, segs)).loads
  {
    var segments := Selected(p, segs);
    var ep := FindEntrypoint(syms);
    if ep.Err? {
      return Err(ep.error);
    }
    var entrypoint := ep.value - p.flashAddr;
    var data, dataOffset, loads := LayOut(p, segments);
    return Ok(Image(|data|, loads, entrypoint, data));
  }

  /** The layout loop of `extract_ota`, over segments already selected and sorted. */
  method LayOut(p: Params, segments: seq<Segment>) returns (data: seq<byte>, dataOffset: int, loads: seq<LoadRecord>)
    ensures Layout(data, dataOffset, loads) == LayoutOf(p, segments)
  {
    data := [];
    dataOffset := p.flashAddr;
    loads := [];
    for i := 0 to |segments|
      invariant Layout(data, dataOffset, loads) == LayoutOf(p, segments[..i])
    {
      assert segments[..i + 1][..i] == segments[..i];
      var seg := segments[i];
      if InFlash(p, seg) {
        var skip := seg.vaddr - dataOffset;
        data := data + Zeros(skip);
        dataOffset := dataOffset + skip;
        data := data + seg.data;
        dataOffset := dataOffset + |seg.data|;
      } else {
        loads := loads + [LoadRecord(dest := seg.vaddr, offset := dataOffset - p.flashAddr, len := seg.memsz)];
        data := data + seg.read;
        dataOffset := dataOffset + seg.memsz;
      }
    }
    assert segments[..|segments|] == segments;
  }

  /** `data_offset` when the loop reaches segment i. */
  function OffsetBefore(p: Params, segs: seq<Segment>, i: nat): int
    requires i <= |segs|
  {
    LayoutOf(p, segs[..i]).offset
  }

  /** No flash segment lies behind the offset the loop has reached. */
  predicate Forward(p: Params, segs: seq<Segment>)
  {
    forall i {:trigger OffsetBefore(p, segs, i)} :: 0 <= i < |segs| && InFlash(p, segs[i]) ==> segs[i].vaddr >= OffsetBefore(p, segs, i)
  }

  /** Every SRAM read returned the segment's full `p_memsz` bytes. */
  predicate FullReads(p: Params, segs: seq<Segment>)
  {
    forall i :: 0 <= i < |segs| && !InFlash(p, segs[i]) ==> |segs[i].read| == segs[i].memsz
  }

  /** With no backward step and full reads, the image is as long as the offset says, after any number of steps. */
  lemma {:induction false} LayoutLength(p: Params, segs: seq<Segment>, n: nat)
    requires Forward(p, segs) && FullReads(p, segs) && n <= |segs|
    ensures |LayoutOf(p, segs[..n]).data| == LayoutOf(p, segs[..n]).offset - p.flashAddr
  {
    if n > 0 {
      LayoutLength(p, segs, n - 1);
      LayoutStep(p, segs, n - 1);
      assert InFlash(p, segs[n - 1]) ==> segs[n - 1].vaddr >= OffsetBefore(p, segs, n - 1);
    }
  }

  /** The image only grows: what an earlier iteration wrote stays in place. */
  lemma {:induction false} LayoutGrows(p: Params, segs: seq<Segment>, n: nat)
    requires n <= |segs|
    ensures ImageBytes(p, segs[..n]) <= ImageBytes(p, segs)
    ensures LayoutOf(p, segs[..n]).loads <= LayoutOf(p, segs).loads
    decreases |segs| - n
  {
    if n < |segs| {
      LayoutGrows(p, segs, n + 1);
      assert segs[..n + 1][..n] == segs[..n];
    } else {
      assert segs[..n] == segs;
    }
  }

  /** One flash step: zeros up to the segment's address, then its bytes, after what was there. */
  lemma {:induction false} PlaceFlash(p: Params, l: Layout, seg: Segment)
    requires InFlash(p, seg) && seg.vaddr >= l.offset && |l.data| == l.offset - p.flashAddr
    ensures SitsAt(Place(p, l, seg).data, seg.vaddr - p.flashAddr, seg.data)
    ensures ZerosBetween(Place(p, l, seg).data, |l.data|, seg.vaddr - p.flashAddr)
  {
    var pad := Zeros(seg.vaddr - l.offset);
    var d := Place(p, l, seg).data;
    var at := seg.vaddr - p.flashAddr;
    assert d == l.data + pad + seg.data;
    assert d[at..at + |seg.data|] == seg.data;
    forall k | |l.data| <= k < at
      ensures d[k] == 0
    {
      assert d[k] == pad[k - |l.data|];
    }
  }

  /** One SRAM step: the segment's bytes after what was there, and one more load. */
  lemma {:induction false} PlaceSram(p: Params, l: Layout, seg: Segment)
    requires !InFlash(p, seg)
    ensures var r := Place(p, l, seg);
      && r.data == l.data + seg.read
      && r.loads == l.loads + [LoadRecord(dest := seg.vaddr, offset := l.offset - p.flashAddr, len := seg.memsz)]
  {
  }

  /** Step i of the layout is the placement of segment i after steps 0 to i - 1. */
  lemma {:induction false} LayoutStep(p: Params, segs: seq<Segment>, i: nat)
    requires i < |segs|
    ensures LayoutOf(p, segs[..i + 1]) == Place(p, LayoutOf(p, segs[..i]), segs[i])
  {
    assert segs[..i + 1][..i] == segs[..i];
  }

  /** The image bytes the layout loop produces for the given segments. */
  function ImageBytes(p: Params, segs: seq<Segment>): seq<byte>
  {
    LayoutOf(p, segs).data
  }

  /** `bytes` sit in `data` from position `at` on. */
  predicate SitsAt(data: seq<byte>, at: int, bytes: seq<byte>)
  {
    0 <= at && at + |bytes| <= |data| && data[at..at + |bytes|] == bytes
  }

  /** `data` holds zeros from `lo` up to `hi`. */
  predicate ZerosBetween(data: seq<byte>, lo: int, hi: int)
  {
    0 <= lo <= hi <= |data| && forall k :: lo <= k < hi ==> data[k] == 0
  }

  /**
   * A flash segment's bytes sit at image offset `p_vaddr - ota_flash_addr`, after
   * zeros from where the previous segment ended.
   */
  lemma {:induction false} FlashPlacement(p: Params, segs: seq<Segment>, i: nat)
    requires Forward(p, segs) && FullReads(p, segs)
    requires i < |segs| && InFlash(p, segs[i])
    ensures SitsAt(ImageBytes(p, segs), segs[i].vaddr - p.flashAddr, segs[i].data)
    ensures ZerosBetween(ImageBytes(p, segs), OffsetBefore(p, segs, i) - p.flashAddr, segs[i].vaddr - p.flashAddr)
  {
    LayoutLength(p, segs, i);
    assert segs[i].vaddr >= OffsetBefore(p, segs, i);
    FlashStep(p, segs, i);
    LaterStepsKeep(p, segs, i + 1, segs[i].vaddr - p.flashAddr, segs[i].data, OffsetBefore(p, segs, i) - p.flashAddr);
  }

  /** Step i of a flash segment, given where the loop stands before it. */
  lemma {:induction false} FlashStep(p: Params, segs: seq<Segment>, i: nat)
    requires i < |segs| && InFlash(p, segs[i])
    requires segs[i].vaddr >= OffsetBefore(p, segs, i)
    requires |LayoutOf(p, segs[..i]).data| == OffsetBefore(p, segs, i) - p.flashAddr
    ensures SitsAt(ImageBytes(p, segs[..i + 1]), segs[i].vaddr - p.flashAddr, segs[i].data)
    ensures ZerosBetween(ImageBytes(p, segs[..i + 1]), OffsetBefore(p, segs, i) - p.flashAddr, segs[i].vaddr - p.flashAddr)
  {
    LayoutStep(p, segs, i);
    PlaceFlash(p, LayoutOf(p, segs[..i]), segs[i]);
  }

  /** What the first n steps placed is still there after the remaining steps. */
  lemma {:induction false} LaterStepsKeep(p: Params, segs: seq<Segment>, n: nat, at: int, bytes: seq<byte>, lo: int)
    requires n <= |segs|
    requires SitsAt(ImageBytes(p, segs[..n]), at, bytes) && ZerosBetween(ImageBytes(p, segs[..n]), lo, at)
    ensures SitsAt(ImageBytes(p, segs), at, bytes) && ZerosBetween(ImageBytes(p, segs), lo, at)
  {
    LayoutGrows(p, segs, n);
    ExtensionKeeps(ImageBytes(p, segs[..n]), ImageBytes(p, segs), at, bytes, lo);
  }

  /** Bytes and zeros placed in an image stay there when the image grows. */
  lemma {:induction false} ExtensionKeeps(a: seq<byte>, b: seq<byte>, at: int, bytes: seq<byte>, lo: int)
    requires a <= b && SitsAt(a, at, bytes) && ZerosBetween(a, lo, at)
    ensures SitsAt(b, at, bytes) && ZerosBetween(b, lo, at)
  {
    PrefixKeeps(a, b, at, at + |bytes|);
    PrefixKeeps(a, b, lo, at);
  }

  /** A sequence that extends another agrees with it on the other's positions. */
  lemma {:induction false} PrefixKeeps(a: seq<byte>, b: seq<byte>, lo: nat, hi: nat)
    requires a <= b && lo <= hi <= |a|
    ensures b[lo..hi] == a[lo..hi]
    ensures forall k :: lo <= k < hi ==> b[k] == a[k]
  {
    assert a == b[..|a|];
  }

  /**
   * Whatever the skips and reads before it, an SRAM segment adds the load
   * `{offset, len: p_memsz, dest: p_vaddr}` in the slot after the earlier loads.
   */
  lemma {:induction false} SramLoadRecord(p: Params, segs: seq<Segment>, i: nat)
    requires i < |segs| && !InFlash(p, segs[i])
    ensures var before := LayoutOf(p, segs[..i]);
      var loads := LayoutOf(p, segs).loads;
      && |before.loads| < |loads|
      && loads[|before.loads|] == LoadRecord(dest := segs[i].vaddr, offset := before.offset - p.flashAddr, len := segs[i].memsz)
  {
    var before := LayoutOf(p, segs[..i]);
    LayoutStep(p, segs, i);
    LayoutGrows(p, segs, i + 1);
    PlaceSram(p, before, segs[i]);
    assert LayoutOf(p, segs).loads[|before.loads|] == LayoutOf(p, segs[..i + 1]).loads[|before.loads|];
  }

  /**
   * An SRAM segment adds the load `{offset, len: p_memsz, dest: p_vaddr}`, and
   * with full reads its bytes sit at that offset in the image.
   */
  lemma {:induction false} SramLoad(p: Params, segs: seq<Segment>, i: nat)
    requires Forward(p, segs) && FullReads(p, segs)
    requires i < |segs| && !InFlash(p, segs[i])
    ensures var before := LayoutOf(p, segs[..i]);
      var loads := LayoutOf(p, segs).loads;
      && |before.loads| < |loads|
      && loads[|before.loads|] == LoadRecord(dest := segs[i].vaddr, offset := before.offset - p.flashAddr, len := segs[i].memsz)
    ensures SitsAt(ImageBytes(p, segs), LayoutOf(p, segs[..i]).offset - p.flashAddr, segs[i].read)
  {
    LayoutLength(p, segs, i);
    LayoutStep(p, segs, i);
    LayoutGrows(p, segs, i + 1);
    SramStepKept(p, LayoutOf(p, segs[..i]), LayoutOf(p, segs[..i + 1]), LayoutOf(p, segs), segs[i]);
  }

  /** An SRAM step's load and bytes, in any layout that extends the step's result. */
  lemma {:induction false} SramStepKept(p: Params, before: Layout, after: Layout, final: Layout, seg: Segment)
    requires !InFlash(p, seg) && |before.data| == before.offset - p.flashAddr
    requires after == Place(p, before, seg) && after.data <= final.data && after.loads <= final.loads
    ensures |before.loads| < |final.loads|
    ensures final.loads[|before.loads|] == LoadRecord(dest := seg.vaddr, offset := before.offset - p.flashAddr, len := seg.memsz)
    ensures SitsAt(final.data, before.offset - p.flashAddr, seg.read)
  {
    PlaceSram(p, before, seg);
    var at := before.offset - p.flashAddr;
    assert final.loads[|before.loads|] == after.loads[|before.loads|];
    PrefixKeeps(after.data, final.data, at, |after.data|);
  }

  /**
   * An SRAM segment's load reaches the firmware's image header as the script
   * recorded it: when the image's fields fit their widths, `dump_metadata` packs
   * the script's output, and the descriptor the firmware reads in that load's slot
   * has dest = `p_vaddr`, offset = the segment's image offset and len = `p_memsz`.
   */
  lemma {:induction false} SramLoadInHeader(p: Params, segs: seq<Segment>, syms: seq<Symbol>, j: nat, rest: seq<byte>)
    requires Extracted(p, segs, syms).Ok?
    requires var img := Extracted(p, segs, syms).value;
      FitsU16(img.entrypoint) && FitsU16(|img.data|) && SlotsFit(img.loads)
    requires j < |Selected(p, segs)| && !InFlash(p, Selected(p, segs)[j])
    requires |LayoutOf(p, Selected(p, segs)[..j]).loads| < OTA_MAX_LOADS
    ensures MetadataHex(ToJson(Extracted(p, segs, syms).value)).Ok?
    ensures FromHex(MetadataHex(ToJson(Extracted(p, segs, syms).value)).value).Some?
    ensures var h := ParseHeader(FromHex(MetadataHex(ToJson(Extracted(p, segs, syms).value)).value).value + rest);
      var before := LayoutOf(p, Selected(p, segs)[..j]);
      var seg := Selected(p, segs)[j];
      && h.loads[|before.loads|].dest == seg.vaddr
      && h.loads[|before.loads|].offset == before.offset - p.flashAddr
      && h.loads[|before.loads|].len == seg.memsz
  {
    var sel := Selected(p, segs);
    var img := Extracted(p, segs, syms).value;
    var ota := ToJson(img);
    SramLoadRecord(p, sel, j);
    MetadataRoundTrip(ota, rest);
  }

  /** The script's output as the packaging script reads it: image bytes as hex text. */
  function ToJson(img: Image): (r: OtaJson)
    ensures r.data == ToHex(img.data) && ImageSize(r) == |img.data|
  {
    OtaJson(img.entrypoint, img.loads, ToHex(img.data))
  }
}
