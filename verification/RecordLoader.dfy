/**
  The memory half of the loader's `dump_snapshot`: a bounds-checked walk over the mapping records
  that maps, writes and protects one engine region for each.
 */
module RecordLoader {
  import opened Bytes
  import opened SnapshotFormat
  import opened Engine

  function PermsOf(e: MapsEntry): Perms { Perms(e.read != 0, e.write != 0, e.exec != 0) }

  function RegionOf(r: Record): Region { Region(r.header.start, r.content, PermsOf(r.header)) }

  function RegionsOf(rs: seq<Record>): (regions: Regions)
    ensures |regions| == |rs|
    ensures forall i :: 0 <= i < |rs| ==> regions[i] == RegionOf(rs[i])
  {
    if rs == [] then [] else [RegionOf(rs[0])] + RegionsOf(rs[1..])
  }

  predicate Fits(regions: Regions, r: Region) {
    Placeable(r.base, |r.data|) && Clear(regions, r.base, |r.data|)
  }

  /** The regions after all of `rs` were loaded, one after the other; None is the fatal exit. */
  function Place(regions: Regions, rs: seq<Record>): Option<Regions>
    decreases |rs|
  {
    if rs == [] then Some(regions)
    else if Fits(regions, RegionOf(rs[0])) then Place(regions + [RegionOf(rs[0])], rs[1..])
    else None
  }

  /** The disjoint-region condition, stated on the whole list at once. */
  ghost predicate AllFit(regions: Regions, added: Regions) {
    && (forall i :: 0 <= i < |added| ==> Fits(regions, added[i]))
    && (forall i, j :: 0 <= i < j < |added| ==>
          Apart(added[j].base, |added[j].data|, added[i].base, |added[i].data|))
  }

  lemma AllFitCons(regions: Regions, first: Region, rest: Regions)
    ensures AllFit(regions, [first] + rest) <==> Fits(regions, first) && AllFit(regions + [first], rest)
  {
    var added, more := [first] + rest, regions + [first];
    if AllFit(regions, added) {
      assert added[0] == first;
      forall i | 0 <= i < |rest| ensures Fits(more, rest[i]) {
        assert rest[i] == added[i + 1];
      }
      forall i, j | 0 <= i < j < |rest|
        ensures Apart(rest[j].base, |rest[j].data|, rest[i].base, |rest[i].data|)
      {
        assert rest[i] == added[i + 1] && rest[j] == added[j + 1];
      }
    }
    if Fits(regions, first) && AllFit(more, rest) {
      forall i | 0 <= i < |added| ensures Fits(regions, added[i]) {
        if i > 0 {
          assert Fits(more, rest[i - 1]);
          forall k | 0 <= k < |regions|
            ensures Apart(added[i].base, |added[i].data|, regions[k].base, |regions[k].data|)
          {
            assert more[k] == regions[k];
          }
        }
      }
      forall i, j | 0 <= i < j < |added|
        ensures Apart(added[j].base, |added[j].data|, added[i].base, |added[i].data|)
      {
        assert added[j] == rest[j - 1] && Fits(more, rest[j - 1]);
        if i == 0 {
          assert more[|regions|] == first;
        } else {
          assert added[i] == rest[i - 1];
        }
      }
    }
  }

  lemma AppendStep(regions: Regions, first: Region, rest: Regions)
    ensures regions + [first] + rest == regions + ([first] + rest)
  {
  }

  /**
    Loading completes exactly when every record is aligned, non-empty and disjoint from everything
    mapped before, and then every earlier region is untouched and every record has its region.
   */
  lemma {:induction false} PlaceIff(regions: Regions, rs: seq<Record>)
    ensures Place(regions, rs).Some? <==> AllFit(regions, RegionsOf(rs))
    ensures Place(regions, rs).Some? ==> Place(regions, rs).value == regions + RegionsOf(rs)
    decreases |rs|
  {
    if rs == [] {
      assert regions + RegionsOf(rs) == regions;
    } else {
      var first, rest := RegionOf(rs[0]), RegionsOf(rs[1..]);
      var more := regions + [first];
      AllFitCons(regions, first, rest);
      PlaceIff(more, rs[1..]);
      AppendStep(regions, first, rest);
    }
  }

  lemma PlaceKeepsValid(regions: Regions, rs: seq<Record>)
    requires ValidRegions(regions) && Place(regions, rs).Some?
    ensures ValidRegions(Place(regions, rs).value)
  {
    PlaceIff(regions, rs);
    var added := RegionsOf(rs);
    var all := regions + added;
    forall i, j | 0 <= i < j < |all|
      ensures Apart(all[i].base, |all[i].data|, all[j].base, |all[j].data|)
    {
      if |regions| <= j {
        assert Fits(regions, added[j - |regions|]);
      }
    }
  }

  /** Parsing and loading together, from the records' bytes. */
  function LoadFrom(regions: Regions, s: seq<byte>): Option<Regions> {
    match ParseRecords(s)
    case None => None
    case Some(rs) => Place(regions, rs)
  }

  lemma LoadStep(regions: Regions, s: seq<byte>, header: MapsEntry, content: seq<byte>, rest: seq<byte>, next: nat)
    requires |s| >= HEADER_SIZE && header == DecodeHeader(s[..HEADER_SIZE])
    requires next == HEADER_SIZE + header.Size() <= |s|
    requires content == s[HEADER_SIZE..next] && rest == s[next..]
    ensures LoadFrom(regions, s)
         == if Fits(regions, RegionOf(Record(header, content)))
            then LoadFrom(regions + [RegionOf(Record(header, content))], rest) else None
  {
    var parsed := ParseRecords(s);
    if parsed.Some? {
      assert parsed.value[0] == Record(header, content);
      assert parsed.value[1..] == ParseRecords(rest).value;
    }
  }

  /** Where parsing stops: at the end of the bytes, or at a header or content that is not all there. */
  lemma LoadStops(regions: Regions, s: seq<byte>)
    ensures s == [] ==> LoadFrom(regions, s) == Some(regions)
    ensures 0 < |s| < HEADER_SIZE ==> LoadFrom(regions, s) == None
    ensures |s| >= HEADER_SIZE && DecodeHeader(s[..HEADER_SIZE]).Size() > |s| - HEADER_SIZE ==> LoadFrom(regions, s) == None
  {
  }

  // ------------------------------------------------------------------ the code

  /** `read_bytes`; `next` is the offset afterwards. */
  method ReadBytes(data: seq<byte>, offset: nat, size: nat) returns (ok: bool, dst: seq<byte>, next: nat)
    ensures ok <==> offset + size <= |data|
    ensures ok ==> next == offset + size && dst == data[offset..next]
    ensures !ok ==> next == offset && dst == []
  {
    if offset > |data| || size > |data| - offset {
      return false, [], offset;
    }
    return true, data[offset..offset + size], offset + size;
  }

  /** Map writable, copy the content, then set the real permissions. */
  method LoadMapping(uc: UcEngine, start: u64, content: seq<byte>, perms: Perms) returns (ok: bool)
    requires uc.Valid()
    modifies uc`regions
    ensures uc.Valid()
    ensures ok <==> Fits(old(uc.regions), Region(start, content, perms))
    ensures ok ==> uc.regions == old(uc.regions) + [Region(start, content, perms)]
  {
    var size := |content|;
    ok := uc.MemMap(start, size, Perms(false, true, false));
    if !ok {
      return;
    }
    ghost var k := |old(uc.regions)|;
    FindUnique(uc.regions, k, start, size);
    ok := uc.MemWrite(start, content);
    assert uc.regions[k].data == content;
    FindUnique(uc.regions, k, start, size);
    ok := uc.MemProtect(start, size, perms);
    assert uc.regions[..k] == old(uc.regions);
    assert uc.regions == uc.regions[..k] + [uc.regions[k]];
  }

  /**
    The `while (offset < file_size)` loop over the records behind the state; false is the fatal
    exit. However the 64-bit sizes wrap, the offset stays in the file and grows by at least a
    header each time.
   */
  method LoadRecords(uc: UcEngine, data: seq<byte>, start: nat) returns (ok: bool, loaded: nat)
    requires uc.Valid() && start <= |data|
    modifies uc`regions
    ensures uc.Valid()
    ensures ok <==> LoadFrom(old(uc.regions), data[start..]).Some?
    ensures ok ==> uc.regions == LoadFrom(old(uc.regions), data[start..]).value
    ensures 4124 * loaded <= |data| - start
    ensures ok ==> loaded == |uc.regions| - |old(uc.regions)|
  {
    hide LoadFrom, Fits, DecodeHeader;
    var offset := start;
    loaded := 0;
    while offset < |data|
      invariant start <= offset <= |data|
      invariant uc.Valid()
      invariant LoadFrom(uc.regions, data[offset..]) == LoadFrom(old(uc.regions), data[start..])
      invariant 4124 * loaded <= offset - start
      invariant loaded == |uc.regions| - |old(uc.regions)|
      decreases |data| - offset
    {
      ghost var rest := data[offset..];
      LoadStops(uc.regions, rest);
      var read, header, next := ReadBytes(data, offset, HEADER_SIZE);
      if !read {
        return false, loaded;
      }
      var entry := DecodeHeader(header);
      var size := entry.Size();
      assert header == rest[..HEADER_SIZE];
      if size > |data| - next {
        return false, loaded;
      }
      var content := data[next..next + size];
      LoadStep(uc.regions, rest, entry, content, data[next + size..], HEADER_SIZE + size);
      var mapped := LoadMapping(uc, entry.start, content, PermsOf(entry));
      if !mapped {
        return false, loaded;
      }
      offset := next + size;
      loaded := loaded + 1;
    }
    assert data[offset..] == [];
    LoadStops(uc.regions, []);
    return true, loaded;
  }
}
