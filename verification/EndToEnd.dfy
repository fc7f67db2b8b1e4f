/**
  Writer to reader: what an engine holds after the snapshot of a stopped tracee was written to a
  file and restored from it.
 */
module EndToEnd {
  import opened Bytes
  import opened SnapshotFormat
  import opened MapsParser
  import opened KernelMaps
  import opened MappingsReader
  import opened Engine
  import opened RecordLoader
  import opened GdtTable
  import opened CpuStateI386
  import opened TlsCollection
  import Breakpoint
  import Loader
  import SnapshotDump

  type Machine<R> = Breakpoint.Machine<R>
  type Cpu<!R> = Breakpoint.Cpu<R>

  // ------------------------------------------------------------------ the tracee's mappings

  /** The mappings that go into the snapshot, judged by the path the scanner sees. */
  function Kept(vs: seq<Vma>): seq<Vma>
  {
    if vs == [] then []
    else if KernelPage(ScannedPath(vs[0].path)) then Kept(vs[1..])
    else [vs[0]] + Kept(vs[1..])
  }

  function SizeOf(v: Vma): int { v.end - v.start }

  /** A mapping as user space has them: whole pages inside the address space of the build. */
  ghost predicate Plausible(mode: Mode, v: Vma) {
    && v.start % 0x1000 == 0 && v.end % 0x1000 == 0
    && v.start < v.end <= WordModulus(mode) && SizeOf(v) < WordModulus(mode)
  }

  predicate ApartFrom(v: Vma, base: nat, size: nat) { v.end <= base || base + size <= v.start }

  /** Clear of the pages the loader claims for itself. */
  predicate ClearOfLoader(mode: Mode, v: Vma) {
    ApartFrom(v, GDT_ADDR, GDT_SIZE) && (mode == Mode32 ==> ApartFrom(v, TRAMPOLINE_ADDR, TRAMPOLINE_SIZE))
  }

  ghost predicate Ascending(vs: seq<Vma>) {
    forall i, j :: 0 <= i < j < |vs| ==> vs[i].end <= vs[j].start
  }

  /** The mappings of a tracee that can be restored. */
  ghost predicate Restorable(mode: Mode, vs: seq<Vma>) {
    && (forall i :: 0 <= i < |vs| ==> Printable(vs[i]))
    && var kept := Kept(vs);
       Ascending(kept) && forall i :: 0 <= i < |kept| ==> Plausible(mode, kept[i]) && ClearOfLoader(mode, kept[i])
  }

  // ------------------------------------------------------------------ what is to be restored

  /** The reads that mapping `v` costs. */
  function VmaReads(v: Vma): nat
    requires v.start <= v.end
  {
    if v.read then (SizeOf(v) + 0xF_FFFF) / 0x10_0000 else 0
  }

  /** The number of the first read for each of the kept mappings. */
  function FirstReads(kept: seq<Vma>, call: nat): (calls: seq<nat>)
    requires forall i :: 0 <= i < |kept| ==> kept[i].start <= kept[i].end
    ensures |calls| == |kept|
  {
    if kept == [] then [] else [call] + FirstReads(kept[1..], call + VmaReads(kept[0]))
  }

  /** The 1 MiB chunk of `v` that byte `i` is in was read completely. */
  ghost predicate ChunkRead(remote: Remote, v: Vma, call: nat, i: nat)
    requires v.start <= v.end
  {
    var c := i / 0x10_0000;
    remote.ReadsFully(call + c, v.start + c * 0x10_0000, ChunkLength(SizeOf(v), c))
  }

  /**
    The region has the mapping's place, size and permissions, and every byte is the tracee's, or
    zero where the mapping is unreadable or the byte's chunk could not be read.
   */
  ghost predicate Mirrors(region: Region, v: Vma, remote: Remote, call: nat)
    requires v.start <= v.end
  {
    && region.base == v.start && |region.data| == SizeOf(v)
    && region.perms == Perms(v.read, v.write, v.exec)
    && forall i :: 0 <= i < |region.data| ==>
         if v.read && ChunkRead(remote, v, call, i)
         then v.start + i in remote.memory && region.data[i] == remote.memory[v.start + i]
         else region.data[i] == 0
  }

  ghost predicate AllMirror(regions: Regions, kept: seq<Vma>, remote: Remote, call: nat)
    requires forall i :: 0 <= i < |kept| ==> kept[i].start <= kept[i].end
  {
    && |regions| == |kept|
    && forall i :: 0 <= i < |kept| ==> Mirrors(regions[i], kept[i], remote, FirstReads(kept, call)[i])
  }

  // ------------------------------------------------------------------ from text to records

  lemma DescribedSize(mode: Mode, e: MapsEntry, v: Vma)
    requires Describes(e, Seen(v)) && Plausible(mode, v)
    ensures CopySize(mode, e) == SizeOf(v) == e.Size()
    ensures ReadCalls(mode, e) == VmaReads(v)
  {
  }

  lemma DescribedByte(mode: Mode, remote: Remote, e: MapsEntry, v: Vma, call: nat, i: nat)
    requires Describes(e, Seen(v)) && Plausible(mode, v) && i < SizeOf(v)
    ensures if v.read && ChunkRead(remote, v, call, i)
            then v.start + i in remote.memory && ContentByte(mode, remote, e, call, i) == remote.memory[v.start + i]
            else ContentByte(mode, remote, e, call, i) == 0
  {
    DescribedSize(mode, e, v);
    var c := i / 0x10_0000;
    var offset := c * 0x10_0000;
    assert offset <= i == offset + i % 0x10_0000;
    ChunkAddressInside(mode, e, c, offset);
    assert i % 0x10_0000 < ChunkLength(SizeOf(v), c);
  }

  /** The record of a described entry is one the loader reads back, and mirrors the mapping. */
  lemma DescribedRecord(mode: Mode, remote: Remote, e: MapsEntry, v: Vma, call: nat)
    requires Describes(e, Seen(v)) && Plausible(mode, v)
    ensures var r := Record(e, Content(mode, remote, e, call));
            r.WellFormed() && Mirrors(RegionOf(r), v, remote, call)
  {
    DescribedSize(mode, e, v);
    var data := Content(mode, remote, e, call);
    forall i | 0 <= i < |data|
      ensures if v.read && ChunkRead(remote, v, call, i)
              then v.start + i in remote.memory && data[i] == remote.memory[v.start + i]
              else data[i] == 0
    {
      ContentAt(mode, remote, e, call, i);
      DescribedByte(mode, remote, e, v, call, i);
    }
  }

  ghost predicate AllPlausible(mode: Mode, vs: seq<Vma>) {
    forall i :: 0 <= i < |vs| ==> Plausible(mode, vs[i])
  }

  /** Along the whole maps file: one mirroring record for each kept mapping, in order. */
  lemma {:induction false} DescribedRecords(mode: Mode, remote: Remote, es: seq<MapsEntry>, vs: seq<Vma>, call: nat)
    requires |es| == |vs| && forall i :: 0 <= i < |vs| ==> Describes(es[i], Seen(vs[i]))
    requires AllPlausible(mode, Kept(vs))
    ensures var rs := RecordsFrom(mode, remote, es, call);
            AllWellFormed(rs) && AllMirror(RegionsOf(rs), Kept(vs), remote, call)
  {
    if vs != [] {
      SpecialPaths(ScannedPath(vs[0].path));
      hide Special, KernelPage;
      var next := call + EntryCalls(mode, es[0]);
      RecordsFromCons(mode, remote, es, es[0], es[1..], call, next);
      if KernelPage(ScannedPath(vs[0].path)) {
        assert RecordsFrom(mode, remote, es, call) == RecordsFrom(mode, remote, es[1..], next);
        DescribedRecords(mode, remote, es[1..], vs[1..], next);
      } else {
        var kept := Kept(vs);
        assert kept[0] == vs[0] && kept[1..] == Kept(vs[1..]);
        DescribedSize(mode, es[0], vs[0]);
        DescribedRecord(mode, remote, es[0], vs[0], call);
        assert AllPlausible(mode, Kept(vs[1..]));
        DescribedRecords(mode, remote, es[1..], vs[1..], next);
        var first, rest := Record(es[0], Content(mode, remote, es[0], call)), RecordsFrom(mode, remote, es[1..], next);
        ConsRecords(first, rest, kept, remote, call, next);
      }
    }
  }

  lemma ConsRecords(first: Record, rest: seq<Record>, kept: seq<Vma>, remote: Remote, call: nat, next: nat)
    requires kept != [] && forall i :: 0 <= i < |kept| ==> kept[i].start <= kept[i].end
    requires next == call + VmaReads(kept[0])
    requires first.WellFormed() && Mirrors(RegionOf(first), kept[0], remote, call)
    requires AllWellFormed(rest) && AllMirror(RegionsOf(rest), kept[1..], remote, next)
    ensures AllWellFormed([first] + rest) && AllMirror(RegionsOf([first] + rest), kept, remote, call)
  {
    assert ([first] + rest)[1..] == rest;
    ConsMirrors(RegionOf(first), RegionsOf(rest), kept, remote, call, next);
  }

  lemma ConsMirrors(first: Region, rest: Regions, kept: seq<Vma>, remote: Remote, call: nat, next: nat)
    requires kept != [] && forall i :: 0 <= i < |kept| ==> kept[i].start <= kept[i].end
    requires next == call + VmaReads(kept[0])
    requires Mirrors(first, kept[0], remote, call)
    requires AllMirror(rest, kept[1..], remote, next)
    ensures AllMirror([first] + rest, kept, remote, call)
  {
    var all, calls, more := [first] + rest, FirstReads(kept, call), FirstReads(kept[1..], next);
    assert calls == [call] + more;
    forall i | 0 <= i < |kept|
      ensures Mirrors(all[i], kept[i], remote, calls[i])
    {
      if i > 0 {
        var j := i - 1;
        assert Mirrors(rest[j], kept[1..][j], remote, more[j]);
        assert all[i] == rest[j] && kept[i] == kept[1..][j] && calls[i] == more[j];
      }
    }
  }

  // ------------------------------------------------------------------ from records to regions

  lemma MirrorsFit(mode: Mode, regions: Regions, kept: seq<Vma>, remote: Remote, call: nat)
    requires Ascending(kept) && AllPlausible(mode, kept)
    requires AllMirror(regions, kept, remote, call)
    ensures AllFit([], regions)
  {
    forall i | 0 <= i < |regions|
      ensures Placeable(regions[i].base, |regions[i].data|)
    {
      assert Mirrors(regions[i], kept[i], remote, FirstReads(kept, call)[i]);
      PlausibleIsPlaceable(mode, kept[i]);
    }
    forall i, j | 0 <= i < j < |regions|
      ensures Apart(regions[j].base, |regions[j].data|, regions[i].base, |regions[i].data|)
    {
      assert Mirrors(regions[i], kept[i], remote, FirstReads(kept, call)[i]);
      assert Mirrors(regions[j], kept[j], remote, FirstReads(kept, call)[j]);
    }
  }

  lemma PlausibleIsPlaceable(mode: Mode, v: Vma)
    requires Plausible(mode, v)
    ensures Placeable(v.start, SizeOf(v))
  {
  }

  lemma PageStaysClear(regions: Regions, kept: seq<Vma>, remote: Remote, call: nat, base: nat, size: nat)
    requires forall i :: 0 <= i < |kept| ==> kept[i].start <= kept[i].end && ApartFrom(kept[i], base, size)
    requires AllMirror(regions, kept, remote, call)
    ensures Clear(regions, base, size)
  {
    forall i | 0 <= i < |regions|
      ensures Apart(base, size, regions[i].base, |regions[i].data|)
    {
      assert Mirrors(regions[i], kept[i], remote, FirstReads(kept, call)[i]);
    }
  }

  /** The part of acceptance that depends on the captured registers alone. */
  ghost predicate RegistersAccepted(st: ProcessState) {
    match st
    case X8664(r) =>
      && r.cs / 4 % 2 == 0 && r.ss / 4 % 2 == 0 && r.ds / 4 % 2 == 0
      && r.es / 4 % 2 == 0 && r.fs / 4 % 2 == 0 && r.gs / 4 % 2 == 0
      && r.cs / 8 == 6 && r.ss / 8 == 5
      && (r.ds / 8 == 0 || r.ds / 8 == 5) && (r.es / 8 == 0 || r.es / 8 == 5)
    case I386(i) =>
      && i.regs.xcs / 4 % 2 == 0 && i.regs.xss / 4 % 2 == 0 && i.regs.xds / 4 % 2 == 0
      && i.regs.xes / 4 % 2 == 0 && i.regs.xfs / 4 % 2 == 0 && i.regs.xgs / 4 % 2 == 0
      && (i.regs.xcs / 8 == 4 || i.regs.xcs / 8 == 14)
      && InTable(i) && EntersUserLevel(i)
  }

  lemma CpuIsAccepted(st: ProcessState, regions: Regions, kept: seq<Vma>, remote: Remote, call: nat)
    requires RegistersAccepted(st)
    requires forall i :: 0 <= i < |kept| ==> kept[i].start <= kept[i].end && ClearOfLoader(st.Mode(), kept[i])
    requires AllMirror(regions, kept, remote, call)
    ensures Loader.CpuAccepted(st, regions)
  {
    hide Loader.X64.Accepts, Loader.I386.Accepts, Loader.I386.InTable, Loader.I386.EntersUserLevel, AllMirror;
    PageStaysClear(regions, kept, remote, call, GDT_ADDR, GDT_SIZE);
    if st.X8664? {
      Loader.X64.AcceptsIff(st.x64);
    } else {
      AcceptsIff(st.i386.regs);
      PageStaysClear(regions, kept, remote, call, TRAMPOLINE_ADDR, TRAMPOLINE_SIZE);
    }
  }

  // ------------------------------------------------------------------ memory as the process sees it

  /** The byte the engine has at an address; None where nothing is mapped. */
  function ByteOf(regions: Regions, a: nat): Option<byte> {
    match Read(regions, a, 1)
    case None => None
    case Some(s) => Some(s[0])
  }

  predicate Covers(v: Vma, a: nat) { v.start <= a < v.end }

  /** The maps text lists exactly the mapped addresses. */
  ghost predicate Lists(vs: seq<Vma>, mem: map<nat, byte>) {
    forall a: nat :: a in mem <==> exists i :: 0 <= i < |vs| && Covers(vs[i], a)
  }

  /** The reads of `v`, from number `call` on, all return as much as was asked for. */
  ghost predicate AnsweredFully(answers: nat -> ReadAnswer, v: Vma, call: nat)
    requires v.start <= v.end
  {
    forall c :: 0 <= c < VmaReads(v) ==> answers(call + c).count == ChunkLength(SizeOf(v), c)
  }

  ghost predicate AllAnsweredFully(answers: nat -> ReadAnswer, kept: seq<Vma>)
    requires forall i :: 0 <= i < |kept| ==> kept[i].start <= kept[i].end
  {
    forall i :: 0 <= i < |kept| ==> AnsweredFully(answers, kept[i], FirstReads(kept, 0)[i])
  }

  /**
    Address by address, the engine has what the process has: its bytes in the readable mappings,
    zeros in the others, and nothing anywhere else but for the descriptor page.
   */
  ghost predicate Reproduces(regions: Regions, kept: seq<Vma>, mem: map<nat, byte>) {
    && (forall i, a: nat :: 0 <= i < |kept| && Covers(kept[i], a) ==>
          a in mem && ByteOf(regions, a) == Some(if kept[i].read then mem[a] else 0))
    && (forall a: nat :: (forall i :: 0 <= i < |kept| ==> !Covers(kept[i], a)) && !(GDT_ADDR <= a < GDT_ADDR + GDT_SIZE)
          ==> ByteOf(regions, a) == None)
  }

  lemma ByteInRegion(regions: Regions, i: nat, a: nat, at: nat)
    requires ValidRegions(regions) && i < |regions|
    requires at < |regions[i].data| && a == regions[i].base + at
    ensures ByteOf(regions, a) == Some(regions[i].data[at])
  {
    FindUnique(regions, i, a, 1);
  }

  lemma {:induction false} KeptIsListed(vs: seq<Vma>, i: nat) returns (j: nat)
    requires i < |Kept(vs)|
    ensures j < |vs| && vs[j] == Kept(vs)[i]
  {
    if KernelPage(ScannedPath(vs[0].path)) {
      j := KeptIsListed(vs[1..], i);
      j := j + 1;
    } else if i == 0 {
      j := 0;
    } else {
      j := KeptIsListed(vs[1..], i - 1);
      j := j + 1;
    }
  }

  lemma KeptIsMapped(vs: seq<Vma>, mem: map<nat, byte>, i: nat, a: nat)
    requires Lists(vs, mem) && i < |Kept(vs)| && Covers(Kept(vs)[i], a)
    ensures a in mem
  {
    var j := KeptIsListed(vs, i);
  }

  lemma ReadWhole(mem: map<nat, byte>, answers: nat -> ReadAnswer, v: Vma, call: nat, at: nat)
    requires v.start <= v.end && v.read && AnsweredFully(answers, v, call) && at < SizeOf(v)
    requires forall a: nat :: Covers(v, a) ==> a in mem
    ensures ChunkRead(Remote(mem, answers), v, call, at)
  {
    var c := at / 0x10_0000;
    assert 0 <= c < VmaReads(v);
    assert c * 0x10_0000 + ChunkLength(SizeOf(v), c) <= SizeOf(v);
    forall a: nat | v.start + c * 0x10_0000 <= a < v.start + c * 0x10_0000 + ChunkLength(SizeOf(v), c)
      ensures a in mem
    {
      assert Covers(v, a);
    }
  }

  lemma MirroredByte(region: Region, v: Vma, mem: map<nat, byte>, answers: nat -> ReadAnswer, call: nat, a: nat, at: nat)
    requires v.start <= v.end && AnsweredFully(answers, v, call)
    requires forall a: nat :: Covers(v, a) ==> a in mem
    requires Mirrors(region, v, Remote(mem, answers), call)
    requires Covers(v, a) && at == a - v.start
    ensures at < |region.data| && region.data[at] == if v.read then mem[a] else 0
  {
    if v.read {
      ReadWhole(mem, answers, v, call, at);
    }
  }

  /** What makes mirrored mappings the memory of the process. */
  ghost predicate FullyRead(vs: seq<Vma>, mem: map<nat, byte>, answers: nat -> ReadAnswer)
    requires var kept := Kept(vs); forall i :: 0 <= i < |kept| ==> kept[i].start <= kept[i].end
  {
    Lists(vs, mem) && AllAnsweredFully(answers, Kept(vs))
  }

  lemma MirrorPlace(placed: Regions, kept: seq<Vma>, remote: Remote, i: nat)
    requires forall j :: 0 <= j < |kept| ==> kept[j].start <= kept[j].end
    requires AllMirror(placed, kept, remote, 0) && (i < |placed| || i < |kept|)
    ensures i < |placed| && i < |kept| && placed[i].base == kept[i].start && |placed[i].data| == SizeOf(kept[i])
  {
    assert Mirrors(placed[i], kept[i], remote, FirstReads(kept, 0)[i]);
  }

  lemma ReproducedByte(vs: seq<Vma>, kept: seq<Vma>, mem: map<nat, byte>, answers: nat -> ReadAnswer,
                       placed: Regions, i: nat, a: nat, at: nat)
    requires kept == Kept(vs) && forall j :: 0 <= j < |kept| ==> kept[j].start <= kept[j].end
    requires FullyRead(vs, mem, answers)
    requires AllMirror(placed, kept, Remote(mem, answers), 0)
    requires i < |kept| && Covers(kept[i], a) && at == a - kept[i].start
    ensures a in mem && i < |placed| && placed[i].base == kept[i].start
    ensures at < |placed[i].data| && placed[i].data[at] == if kept[i].read then mem[a] else 0
  {
    hide Mirrors, AnsweredFully, Kept, Lists;
    var call := FirstReads(kept, 0)[i];
    MirrorPlace(placed, kept, Remote(mem, answers), i);
    forall b: nat | Covers(kept[i], b) ensures b in mem {
      KeptIsMapped(vs, mem, i, b);
    }
    assert Mirrors(placed[i], kept[i], Remote(mem, answers), call) && AnsweredFully(answers, kept[i], call);
    MirroredByte(placed[i], kept[i], mem, answers, call, a, at);
  }

  lemma NothingElseMapped(regions: Regions, kept: seq<Vma>, remote: Remote, placed: Regions, gdt: Region, a: nat)
    requires forall i :: 0 <= i < |kept| ==> kept[i].start <= kept[i].end
    requires AllMirror(placed, kept, remote, 0)
    requires gdt.base == GDT_ADDR && |gdt.data| == GDT_SIZE && regions == placed + [gdt]
    requires !(GDT_ADDR <= a < GDT_ADDR + GDT_SIZE)
    requires forall i :: 0 <= i < |kept| ==> !Covers(kept[i], a)
    ensures ByteOf(regions, a) == None
  {
    hide AllMirror;
    forall i | 0 <= i < |regions| ensures !regions[i].Contains(a, 1) {
      if i < |placed| {
        MirrorPlace(placed, kept, remote, i);
        assert !Covers(kept[i], a);
      }
    }
  }

  /** With full reads, mirrored mappings and the descriptor page are the memory of the process. */
  lemma MemoryIsReproduced(vs: seq<Vma>, mem: map<nat, byte>, answers: nat -> ReadAnswer,
                           placed: Regions, gdt: Region, regions: Regions)
    requires var kept := Kept(vs); forall i :: 0 <= i < |kept| ==> kept[i].start <= kept[i].end
    requires FullyRead(vs, mem, answers)
    requires AllMirror(placed, Kept(vs), Remote(mem, answers), 0)
    requires gdt.base == GDT_ADDR && |gdt.data| == GDT_SIZE
    requires ValidRegions(regions) && regions == placed + [gdt]
    ensures Reproduces(regions, Kept(vs), mem)
  {
    hide AllMirror, FullyRead, Kept, ByteOf, ValidRegions;
    var kept := Kept(vs);
    forall i, a: nat | 0 <= i < |kept| && Covers(kept[i], a)
      ensures a in mem && ByteOf(regions, a) == Some(if kept[i].read then mem[a] else 0)
    {
      var at := a - kept[i].start;
      ReproducedByte(vs, kept, mem, answers, placed, i, a, at);
      assert regions[i] == placed[i];
      ByteInRegion(regions, i, a, at);
    }
    forall a: nat | (forall i :: 0 <= i < |kept| ==> !Covers(kept[i], a)) && !(GDT_ADDR <= a < GDT_ADDR + GDT_SIZE)
      ensures ByteOf(regions, a) == None
    {
      NothingElseMapped(regions, kept, Remote(mem, answers), placed, gdt, a);
    }
  }

  // ------------------------------------------------------------------ the whole way

  /** The snapshot of a stopped tracee with mappings `vs`. */
  ghost function SnapshotOf(st: ProcessState, es: seq<MapsEntry>, remote: Remote): Snapshot {
    Snapshot(st, RecordsFrom(st.Mode(), remote, es, 0))
  }

  lemma LoadedOfSnapshot(snap: Snapshot, regions: Regions)
    requires AllWellFormed(snap.records) && Place([], snap.records) == Some(regions)
    ensures Loader.ParseAndPlace([], snap.state.Mode(), Serialize(snap)) == Some((snap.state, regions))
  {
    var head, tail, n := EncodeState(snap.state), Flatten(snap.records), StateSize(snap.state.Mode());
    hide EncodeState, DecodeState;
    SplitConcat(head, tail, n);
    DecodeEncodeState(snap.state);
    ParseFlatten(snap.records);
  }

  lemma SplitConcat(head: seq<byte>, tail: seq<byte>, n: nat)
    requires n == |head|
    ensures (head + tail)[..n] == head && (head + tail)[n..] == tail
  {
  }

  lemma MirrorsArePlaced(mode: Mode, rs: seq<Record>, kept: seq<Vma>, remote: Remote, call: nat)
    requires Ascending(kept) && AllPlausible(mode, kept)
    requires AllMirror(RegionsOf(rs), kept, remote, call)
    ensures Place([], rs) == Some(RegionsOf(rs))
  {
    var regions := RegionsOf(rs);
    MirrorsFit(mode, regions, kept, remote, call);
    PlaceIff([], rs);
    assert [] + regions == regions;
  }

  /** Parsed back and loaded into an empty engine, the records give exactly the kept mappings. */
  lemma SnapshotIsPlaced(st: ProcessState, es: seq<MapsEntry>, vs: seq<Vma>, remote: Remote) returns (placed: Regions)
    requires Restorable(st.Mode(), vs)
    requires |es| == |vs| && forall i :: 0 <= i < |vs| ==> Describes(es[i], Seen(vs[i]))
    ensures Loader.ParseAndPlace([], st.Mode(), Serialize(SnapshotOf(st, es, remote))) == Some((st, placed))
    ensures AllMirror(placed, Kept(vs), remote, 0)
  {
    var mode, snap := st.Mode(), SnapshotOf(st, es, remote);
    DescribedRecords(mode, remote, es, vs, 0);
    placed := RegionsOf(snap.records);
    MirrorsArePlaced(mode, snap.records, Kept(vs), remote, 0);
    LoadedOfSnapshot(snap, placed);
  }

  method WriteSnapshot(st: ProcessState, vs: seq<Vma>, padding: seq<nat>, garbage: MapsEntry, remote: Remote)
    returns (data: seq<byte>, ghost es: seq<MapsEntry>)
    requires |padding| == |vs| && Restorable(st.Mode(), vs)
    ensures |es| == |vs| && forall i :: 0 <= i < |vs| ==> Describes(es[i], Seen(vs[i]))
    ensures data == Serialize(SnapshotOf(st, es, remote))
  {
    var iter := new MapsIter(KernelFile(vs, padding), garbage);
    var kernel := new Kernel(remote);
    assert garbage.path == iter.entry.path[..];
    ParseKernelFile(vs, padding, garbage.path);
    es := iter.Pending().value;
    var written := SnapshotDump.DumpSnapshot(st, iter, kernel);
    data := written.value;
  }

  method RestoreFresh(st: ProcessState, data: seq<byte>, ghost placed: Regions)
    returns (uc: UcEngine, entry: Outcome<nat>)
    requires Loader.ParseAndPlace([], st.Mode(), data) == Some((st, placed))
    requires Loader.CpuAccepted(st, placed)
    ensures fresh(uc) && uc.Valid()
    ensures entry.Done? && Loader.CpuInstalled(st, placed, uc.regions, uc.regs, uc.gdtr, entry.value)
  {
    hide Loader.ParseAndPlace, Loader.CpuAccepted, Loader.CpuOverruns, Loader.CpuInstalled, ValidRegions;
    uc := new UcEngine(st.Mode());
    assert Loader.ParseAndPlace(uc.regions, uc.mode, data) == Some((st, placed));
    entry := Loader.DumpSnapshot(uc, data);
  }

  lemma InstalledRegions(st: ProcessState, placed: Regions, regions: Regions, f: RegFile, gdtr: Gdtr, entry: nat)
    requires Loader.CpuInstalled(st, placed, regions, f, gdtr, entry)
    ensures regions == placed + [GdtRegion(Loader.TableOf(st))]
  {
  }

  lemma KeptAreClear(mode: Mode, vs: seq<Vma>, kept: seq<Vma>)
    requires Restorable(mode, vs) && kept == Kept(vs)
    ensures forall i :: 0 <= i < |kept| ==> kept[i].start <= kept[i].end && ClearOfLoader(mode, kept[i])
  {
  }

  /**
    The central claim. The tracee's maps text and memory are written to a file and the file is
    restored into a fresh engine: the restore succeeds, the regions are exactly the mappings that
    are not special, each mirrored, and the descriptor page; the entry is the captured
    instruction pointer and the registers are the captured ones. If the maps text is complete and
    the reads are full, the engine's memory is the tracee's, address by address.
   */
  method SnapshotAndRestore(st: ProcessState, vs: seq<Vma>, padding: seq<nat>, garbage: MapsEntry, remote: Remote)
    returns (uc: UcEngine, entry: Outcome<nat>, ghost placed: Regions)
    requires |padding| == |vs| && Restorable(st.Mode(), vs)
    requires RegistersAccepted(st)
    ensures fresh(uc) && uc.Valid()
    ensures AllMirror(placed, Kept(vs), remote, 0)
    ensures FullyRead(vs, remote.memory, remote.answers) ==> Reproduces(uc.regions, Kept(vs), remote.memory)
    ensures entry.Done? && Loader.CpuInstalled(st, placed, uc.regions, uc.regs, uc.gdtr, entry.value)
  {
    hide Loader.CpuAccepted, AllMirror, FullyRead, Reproduces, RegistersAccepted, Restorable, Describes, SnapshotOf,
      Loader.ParseAndPlace, Loader.CpuInstalled, ValidRegions;
    ghost var es;
    var data;
    data, es := WriteSnapshot(st, vs, padding, garbage, remote);
    placed := SnapshotIsPlaced(st, es, vs, remote);
    ghost var kept := Kept(vs);
    KeptAreClear(st.Mode(), vs, kept);
    CpuIsAccepted(st, placed, kept, remote, 0);
    uc, entry := RestoreFresh(st, data, placed);
    InstalledRegions(st, placed, uc.regions, uc.regs, uc.gdtr, entry.value);
    if FullyRead(vs, remote.memory, remote.answers) {
      MemoryIsReproduced(vs, remote.memory, remote.answers, placed, GdtRegion(Loader.TableOf(st)), uc.regions);
    }
  }

  // ------------------------------------------------------------------ from the breakpoint on

  /** The registers ptrace reports for a stopped machine. */
  function CapturedX64(m: Machine<RegsX64>): RegsX64
    requires m.ip < TWO64
  {
    m.regs.(rip := m.ip)
  }

  function CapturedI386(m: Machine<RegsI386>): RegsI386
    requires m.ip < TWO32
  {
    m.regs.(eip := m.ip)
  }

  /** The plain run from `s` to the hook that the instrumented run is to reproduce. */
  ghost predicate Hookable<R(!new)>(cpu: Cpu<R>, s: Machine<R>, hook: nat, width: nat, n: nat) {
    && s.ip != hook && Breakpoint.Mapped(s.mem, hook, width)
    && Breakpoint.Local(cpu) && Breakpoint.Undisturbed(cpu, s, hook, n)
    && var plain := Breakpoint.Arrival(cpu, s, hook, n);
       Breakpoint.Mapped(plain.mem, hook, width)
       && Breakpoint.BytesAt(plain.mem, hook, width) == Breakpoint.BytesAt(s.mem, hook, width)
  }

  /** Arming, running and restoring leave the tracee in the state of the plain run. */
  method StopAtPlain<R(!new)>(cell: Breakpoint.BreakpointCell<R>, hook: nat, ghost n: nat)
    requires cell.width > 0 && Hookable(cell.tracee.cpu, cell.tracee.m, hook, cell.width, n)
    modifies cell, cell.tracee
    ensures cell.tracee.m == Breakpoint.Arrival(cell.tracee.cpu, old(cell.tracee.m), hook, n)
  {
    var outcome := cell.StopAtHook(hook, n);
  }

  /** Where the plain run arrives. */
  ghost function Plain<R(!new)>(cell: Breakpoint.BreakpointCell<R>, hook: nat, width: nat, n: nat): (m: Machine<R>)
    requires Hookable(cell.tracee.cpu, cell.tracee.m, hook, width, n)
    reads cell, cell.tracee
    ensures m.ip == hook
  {
    Breakpoint.Arrival(cell.tracee.cpu, cell.tracee.m, hook, n)
  }

  /**
    The snapshotter's `main` followed by the loader, for x86_64: what the engine is left with is
    the machine that a run without any breakpoint has at its first arrival at the hook, register
    by register and, if the maps text is complete and the reads are full, address by address.
   */
  method HookSnapshotAndRestore(cell: Breakpoint.BreakpointCell<RegsX64>, hook: u64, ghost n: nat,
                                vs: seq<Vma>, padding: seq<nat>, garbage: MapsEntry, answers: nat -> ReadAnswer)
    returns (uc: UcEngine, entry: Outcome<nat>, ghost placed: Regions)
    requires cell.width == 8 && Hookable(cell.tracee.cpu, cell.tracee.m, hook, 8, n)
    requires |padding| == |vs| && Restorable(Mode64, vs)
    requires RegistersAccepted(X8664(Plain(cell, hook, 8, n).regs))
    modifies cell, cell.tracee
    ensures uc.Valid() && entry == Done(hook)
    ensures uc.regions == placed + [GdtRegion(Loader.X64.TableX64())]
    ensures var plain := old(Plain(cell, hook, 8, n));
            && AllMirror(placed, Kept(vs), Remote(plain.mem, answers), 0)
            && (FullyRead(vs, plain.mem, answers) ==> Reproduces(uc.regions, Kept(vs), plain.mem))
            && (Loader.X64.Restored(uc.regs, plain.regs.(rip := hook)) <==>
                  plain.regs.fs < 0x1_0000 && plain.regs.gs < 0x1_0000)
  {
    hide Hookable, AllMirror, FullyRead, Reproduces, Restorable, ValidRegions;
    StopAtPlain(cell, hook, n);
    var st := CapturedX64(cell.tracee.m);
    uc, entry, placed := SnapshotAndRestore(X8664(st), vs, padding, garbage, Remote(cell.tracee.m.mem, answers));
  }

  // ------------------------------------------------------------------ i386 threads

  lemma CollectedSelectorBits(layout: Layout, st: I386State)
    requires Collected(layout, st)
    requires var r := st.regs; r.xds / 4 % 2 == 0 && r.xes / 4 % 2 == 0 && r.xfs / 4 % 2 == 0 && r.xgs / 4 % 2 == 0
    ensures st.regs.xcs / 4 % 2 == 0 && st.regs.xss / 4 % 2 == 0
    ensures st.regs.xcs / 8 == 4 || st.regs.xcs / 8 == 14
    ensures Accepts(st.regs)
  {
    AcceptsIff(st.regs);
  }

  /** The states the i386 snapshotter collects are accepted, short of LDT selectors and virtual mode. */
  lemma CollectedIsAccepted(layout: Layout, st: I386State)
    requires Collected(layout, st)
    ensures var r := st.regs;
            RegistersAccepted(I386(st)) <==>
              && r.xds / 4 % 2 == 0 && r.xes / 4 % 2 == 0 && r.xfs / 4 % 2 == 0 && r.xgs / 4 % 2 == 0
              && r.eflags / 0x2_0000 % 2 == 0
  {
    var r := st.regs;
    CollectedTable(layout, st);
    if r.xds / 4 % 2 == 0 && r.xes / 4 % 2 == 0 && r.xfs / 4 % 2 == 0 && r.xgs / 4 % 2 == 0 {
      CollectedSelectorBits(layout, st);
      CollectedEnters(layout, st);
    }
  }

  /**
    After the restore the thread pointers are the captured ones: FS and GS have the bases of the
    TLS entries their selectors name.
   */
  lemma ThreadPointerSurvives(layout: Layout, st: I386State, placed: Regions, regions: Regions, f: RegFile,
                              gdtr: Gdtr, entry: nat, k: nat)
    requires Collected(layout, st) && k < TLS_ENTRIES
    requires ValidRegions(regions) && Loader.CpuInstalled(I386(st), placed, regions, f, gdtr, entry)
    ensures Loader.TlsSelectors(I386(st)).0 / 8 == layout.Min() + k ==> RegValue(f, FS_BASE) == st.tls[k].base_addr
    ensures Loader.TlsSelectors(I386(st)).1 / 8 == layout.Min() + k ==> RegValue(f, GS_BASE) == st.tls[k].base_addr
  {
    hide Collected, ValidRegions, HiddenBase, TableI386, GdtRegion;
    var selectors := Loader.TlsSelectors(I386(st));
    CollectedTable(layout, st);
    InstalledTable(st, placed, regions, f, gdtr, entry);
    if selectors.0 / 8 == layout.Min() + k {
      TlsBaseRestored(layout, st, regions, |placed|, selectors.0, k);
    }
    if selectors.1 / 8 == layout.Min() + k {
      TlsBaseRestored(layout, st, regions, |placed|, selectors.1, k);
    }
  }

  lemma InstalledTable(st: I386State, placed: Regions, regions: Regions, f: RegFile, gdtr: Gdtr, entry: nat)
    requires Loader.CpuInstalled(I386(st), placed, regions, f, gdtr, entry)
    ensures |placed| < |regions| && regions[|placed|] == GdtRegion(TableI386(st)) && gdtr == LoadedGdtr()
    ensures RegValue(f, FS_BASE) == HiddenBase(regions, gdtr, Loader.TlsSelectors(I386(st)).0)
    ensures RegValue(f, GS_BASE) == HiddenBase(regions, gdtr, Loader.TlsSelectors(I386(st)).1)
  {
    hide TableI386, HiddenBase;
  }

  /** A user-level state that the i386 loader accepts, under a kernel of this layout. */
  ghost predicate UserLevel(layout: Layout, r: RegsI386) {
    && UserSelectors(layout, r)
    && r.xds / 4 % 2 == 0 && r.xes / 4 % 2 == 0 && r.xfs / 4 % 2 == 0 && r.xgs / 4 % 2 == 0
    && r.eflags / 0x2_0000 % 2 == 0
  }

  /** A thread pointer that names this slot has the base the kernel reported for the slot. */
  ghost predicate BasesOfSlot(f: RegFile, st: I386State, slot: nat, reported: UserDesc) {
    var selectors := Loader.TlsSelectors(I386(st));
    && (selectors.0 / 8 == slot ==> RegValue(f, FS_BASE) == reported.base_addr)
    && (selectors.1 / 8 == slot ==> RegValue(f, GS_BASE) == reported.base_addr)
  }

  lemma ReportedBasesSurvive(layout: Layout, area: ThreadArea, st: I386State, placed: Regions, regions: Regions,
                             f: RegFile, gdtr: Gdtr, entry: nat)
    requires Answers(layout, area) && Answered(area, st.tls) && UserSelectors(layout, st.regs)
    requires ValidRegions(regions) && Loader.CpuInstalled(I386(st), placed, regions, f, gdtr, entry)
    ensures forall slot: nat :: area(slot).Some? ==> BasesOfSlot(f, st, slot, area(slot).value)
  {
    hide ValidRegions, Loader.CpuInstalled, Answered, UserSelectors, Collected;
    AnsweredIsCollected(layout, area, st);
    forall slot: nat | area(slot).Some? ensures BasesOfSlot(f, st, slot, area(slot).value) {
      assert layout.TlsIndex(slot).Some?;
      var k := slot - layout.Min();
      assert area(layout.Min() + k) == Some(st.tls[k]);
      ThreadPointerSurvives(layout, st, placed, regions, f, gdtr, entry, k);
    }
  }

  /** What the i386 snapshotter captures is what the loader accepts. */
  lemma CapturedIsAccepted(layout: Layout, area: ThreadArea, st: I386State)
    requires Answers(layout, area) && Answered(area, st.tls) && UserLevel(layout, st.regs)
    ensures RegistersAccepted(I386(st))
  {
    hide RegistersAccepted, Collected, Answers, Answered;
    AnsweredIsCollected(layout, area, st);
    CollectedIsAccepted(layout, st);
  }

  lemma AllAnswered(layout: Layout, area: ThreadArea)
    requires Answers(layout, area)
    ensures forall k :: 0 <= k < TLS_ENTRIES ==> TlsAnswer(area, k).Some?
  {
    forall k | 0 <= k < TLS_ENTRIES ensures TlsAnswer(area, k).Some? {
      CollectionFindsLayout(layout, area, k);
    }
  }

  /**
    The same way for i386, from the breakpoint over the collected TLS entries to the engine: its
    registers and memory are those of the plain run, and a thread pointer has the base that the
    kernel reported for its slot.
   */
  method HookSnapshotAndRestoreI386(cell: Breakpoint.BreakpointCell<RegsI386>, hook: u32, ghost n: nat,
                                    ghost layout: Layout, area: ThreadArea, stack: TlsArray,
                                    vs: seq<Vma>, padding: seq<nat>, garbage: MapsEntry, answers: nat -> ReadAnswer)
    returns (uc: UcEngine, entry: Outcome<nat>, ghost placed: Regions, ghost st: I386State)
    requires cell.width == 4 && Hookable(cell.tracee.cpu, cell.tracee.m, hook, 4, n)
    requires |padding| == |vs| && Restorable(Mode32, vs)
    requires Answers(layout, area) && UserLevel(layout, Plain(cell, hook, 4, n).regs)
    modifies cell, cell.tracee
    ensures uc.Valid() && entry == Done(hook)
    ensures st.regs == old(Plain(cell, hook, 4, n)).regs.(eip := hook) && Answered(area, st.tls)
    ensures uc.regions == placed + [GdtRegion(TableI386(st))]
    ensures var mem := old(Plain(cell, hook, 4, n)).mem;
            && AllMirror(placed, Kept(vs), Remote(mem, answers), 0)
            && (FullyRead(vs, mem, answers) ==> Reproduces(uc.regions, Kept(vs), mem))
    ensures Loader.I386.Restored(uc.regs, st.regs) <==> Loader.I386.NarrowData(st.regs)
    ensures forall slot: nat :: area(slot).Some? ==> BasesOfSlot(uc.regs, st, slot, area(slot).value)
  {
    hide Hookable, AllMirror, FullyRead, Reproduces, Restorable, ValidRegions, Answers, Answered, RegistersAccepted,
      BasesOfSlot, TableI386;
    StopAtPlain(cell, hook, n);
    AllAnswered(layout, area);
    var collected := CreateSnapshot(CapturedI386(cell.tracee.m), area, stack);
    st := collected.value;
    CapturedIsAccepted(layout, area, st);
    uc, entry, placed := SnapshotAndRestore(I386(collected.value), vs, padding, garbage,
                                            Remote(cell.tracee.m.mem, answers));
    ReportedBasesSurvive(layout, area, st, placed, uc.regions, uc.regs, uc.gdtr, entry.value);
  }
}
