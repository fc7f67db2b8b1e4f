/**
  The hook of a position-independent executable, from the bytes of its ELF file and of the maps
  text: when the kernel has mapped the image with a load bias, the hook is bias plus offset.
 */
module ElfImage {
  import opened Bytes
  import opened ElfFile
  import opened KernelMaps
  import opened MapsParser
  import opened ProcessInfo
  import opened SnapshotFormat

  ghost predicate OfFile(v: Vma, path: seq<byte>) { ScannedPath(v.path) == path }

  ghost predicate AboveSomeHeader(start: nat, ps: seq<ProgramHeader>, bias: nat) {
    exists i :: 0 <= i < |ps| && ps[i].p_type == 1 && start >= PageStart(bias + ps[i].p_vaddr)
  }

  /**
    The image with headers `ps` and file `path` is mapped with load bias `bias`: header `low` is
    the lowest PT_LOAD one and starts a page, which starts a mapping of the file; and no mapping
    of the file starts below the page of every segment.
   */
  ghost predicate ImageMapped(mode: Mode, ps: seq<ProgramHeader>, low: nat, vs: seq<Vma>, path: seq<byte>, bias: nat) {
    && low < |ps| && ps[low].p_type == 1 && ps[low].p_vaddr % 0x1000 == 0 && bias % 0x1000 == 0
    && (forall i :: 0 <= i < |ps| && ps[i].p_type == 1 ==>
          && ps[low].p_vaddr <= ps[i].p_vaddr
          && bias + ps[i].p_vaddr < if mode == Mode64 then 0xFFFF_FFFF_FFFF_FFFF else 0xFFFF_FFFF)
    && (exists j :: 0 <= j < |vs| && OfFile(vs[j], path) && vs[j].start == bias + ps[low].p_vaddr)
    && (forall j :: 0 <= j < |vs| && OfFile(vs[j], path) ==> AboveSomeHeader(vs[j].start, ps, bias))
  }

  lemma {:induction false} StartsAre(es: seq<MapsEntry>, path: seq<byte>, a: nat)
    ensures a in StartsOf(es, path) <==> exists j :: 0 <= j < |es| && es[j].Path() == path && es[j].start == a
  {
    hide MapsEntry.Path;
    if es != [] {
      var rest := es[1..];
      StartsAre(rest, path, a);
      if a in StartsOf(rest, path) {
        var j :| 0 <= j < |rest| && rest[j].Path() == path && rest[j].start == a;
        assert es[j + 1] == rest[j];
      }
      forall j | 0 <= j < |es| && es[j].Path() == path && es[j].start == a
        ensures a in StartsOf(es, path)
      {
        if j > 0 {
          assert rest[j - 1] == es[j];
        }
      }
    }
  }

  lemma LowestHeader(ps: seq<ProgramHeader>, low: nat, sizeMax: nat)
    requires low < |ps| && ps[low].p_type == 1 && ps[low].p_vaddr < sizeMax
    requires forall i :: 0 <= i < |ps| && ps[i].p_type == 1 ==> ps[low].p_vaddr <= ps[i].p_vaddr
    ensures LoadVaddrs(ps) != [] && Least(LoadVaddrs(ps), sizeMax) == ps[low].p_vaddr
  {
    LoadVaddrsAre(ps, ps[low].p_vaddr);
    LeastOfHeaders(ps, sizeMax);
  }

  lemma DescribedStart(e: MapsEntry, v: Vma, path: seq<byte>)
    requires Describes(e, Seen(v))
    ensures e.start == v.start && (e.Path() == path <==> OfFile(v, path))
  {
  }

  lemma StartsFitHeaders(es: seq<MapsEntry>, vs: seq<Vma>, ps: seq<ProgramHeader>, path: seq<byte>, bias: nat, a: nat)
    requires |es| == |vs| && forall j :: 0 <= j < |vs| ==> Describes(es[j], Seen(vs[j]))
    requires forall j :: 0 <= j < |vs| && OfFile(vs[j], path) ==> AboveSomeHeader(vs[j].start, ps, bias)
    requires a in StartsOf(es, path)
    ensures AboveSomeSegment(a, LoadVaddrs(ps), bias)
  {
    hide Describes, Seen, OfFile, PageStart, MapsEntry.Path;
    StartsAre(es, path, a);
    var j :| 0 <= j < |es| && es[j].Path() == path && es[j].start == a;
    DescribedStart(es[j], vs[j], path);
    assert AboveSomeHeader(vs[j].start, ps, bias);
    var i :| 0 <= i < |ps| && ps[i].p_type == 1 && a >= PageStart(bias + ps[i].p_vaddr);
    LoadVaddrsAre(ps, ps[i].p_vaddr);
  }

  lemma StartIsListed(es: seq<MapsEntry>, vs: seq<Vma>, path: seq<byte>, start: nat)
    requires |es| == |vs| && forall j :: 0 <= j < |vs| ==> Describes(es[j], Seen(vs[j]))
    requires exists j :: 0 <= j < |vs| && OfFile(vs[j], path) && vs[j].start == start
    ensures start in StartsOf(es, path)
  {
    hide Describes, Seen, OfFile, MapsEntry.Path;
    StartsAre(es, path, start);
    var j :| 0 <= j < |vs| && OfFile(vs[j], path) && vs[j].start == start;
    DescribedStart(es[j], vs[j], path);
  }

  lemma ImageIsLoaded(mode: Mode, ps: seq<ProgramHeader>, low: nat, es: seq<MapsEntry>, vs: seq<Vma>,
                      path: seq<byte>, bias: nat)
    requires |es| == |vs| && forall j :: 0 <= j < |vs| ==> Describes(es[j], Seen(vs[j]))
    requires ImageMapped(mode, ps, low, vs, path, bias)
    ensures LoadedWithBias(StartsOf(es, path), LoadVaddrs(ps), bias, SizeMax(mode))
  {
    hide Describes, Seen, OfFile, PageStart, AboveSomeHeader, AboveSomeSegment;
    var starts, vaddrs, sizeMax, lowest := StartsOf(es, path), LoadVaddrs(ps), SizeMax(mode), ps[low].p_vaddr;
    LowestHeader(ps, low, sizeMax);
    forall v | v in vaddrs ensures bias + v < sizeMax {
      LoadVaddrsAre(ps, v);
    }
    forall a | a in starts ensures AboveSomeSegment(a, vaddrs, bias) {
      StartsFitHeaders(es, vs, ps, path, bias, a);
    }
    StartIsListed(es, vs, path, bias + lowest);
    AlignedStart(bias, lowest);
  }

  lemma AlignedStart(bias: nat, v: nat)
    requires bias % 0x1000 == 0 && v % 0x1000 == 0
    ensures PageStart(bias + v) == bias + v
  {
  }

  lemma HookOfEntries(mode: Mode, info: ElfInfo, ps: seq<ProgramHeader>, low: nat, es: seq<MapsEntry>, vs: seq<Vma>,
                      offset: u64, bias: nat)
    requires HasType(info.ehdr, 3) && HasHeaders(info.ehdr, info.file, ps)
    requires |es| == |vs| && forall j :: 0 <= j < |vs| ==> Describes(es[j], Seen(vs[j]))
    requires ImageMapped(mode, ps, low, vs, info.path, bias)
    ensures HookIn(mode, info, Some(es), offset) == Some(Wrap(mode, bias + Wrap(mode, offset)))
  {
    hide HasHeaders, ImageMapped, LoadedWithBias, Describes, Seen, HookIn, Wrap, SizeMax;
    ImageIsLoaded(mode, ps, low, es, vs, info.path, bias);
    HeadersGiveAddresses(info, ps);
    BiasedHook(mode, info, es, LoadVaddrs(ps), offset, bias);
  }

  /** Without a mapping of the file there is no image base. */
  lemma UnmappedIsFatal(mode: Mode, info: ElfInfo, vs: seq<Vma>, padding: seq<nat>, before: PathBuffer, offset: u64)
    requires HasType(info.ehdr, 3)
    requires |padding| == |vs| && forall j :: 0 <= j < |vs| ==> Printable(vs[j]) && !OfFile(vs[j], info.path)
    ensures HookIn(mode, info, EntriesOf(KernelFile(vs, padding), before), offset) == None
  {
    ParseKernelFile(vs, padding, before);
    var es := EntriesOf(KernelFile(vs, padding), before).value;
    NoStarts(es, vs, info.path);
    hide KernelFile, EntriesOf, Printable, OfFile, Describes;
  }

  lemma NoStarts(es: seq<MapsEntry>, vs: seq<Vma>, path: seq<byte>)
    requires |es| == |vs| && forall j :: 0 <= j < |vs| ==> Describes(es[j], Seen(vs[j])) && !OfFile(vs[j], path)
    ensures StartsOf(es, path) == []
  {
    hide Describes, Seen, OfFile, MapsEntry.Path;
    if StartsOf(es, path) != [] {
      var a := StartsOf(es, path)[0];
      StartsAre(es, path, a);
      var j :| 0 <= j < |es| && es[j].Path() == path && es[j].start == a;
      DescribedStart(es[j], vs[j], path);
      assert false;
    }
  }

  lemma SumFits(mode: Mode, bias: nat, offset: nat)
    ensures bias + offset < (if mode == Mode64 then 0x1_0000_0000_0000_0000 else 0x1_0000_0000) ==>
              Wrap(mode, bias + Wrap(mode, offset)) == bias + offset
  {
  }

  /**
    From the bytes of the ELF file and of the maps text: for a position-independent executable
    that is loaded with `bias`, the hook is bias plus offset.
   */
  lemma RelocatedHook(mode: Mode, info: ElfInfo, ps: seq<ProgramHeader>, low: nat, vs: seq<Vma>, padding: seq<nat>,
                      before: PathBuffer, offset: u64, bias: nat)
    requires HasType(info.ehdr, 3) && HasHeaders(info.ehdr, info.file, ps)
    requires |padding| == |vs| && forall i :: 0 <= i < |vs| ==> Printable(vs[i])
    requires ImageMapped(mode, ps, low, vs, info.path, bias)
    ensures var hook := HookIn(mode, info, EntriesOf(KernelFile(vs, padding), before), offset);
            && hook == Some(Wrap(mode, bias + Wrap(mode, offset)))
            && (bias + offset < (if mode == Mode64 then 0x1_0000_0000_0000_0000 else 0x1_0000_0000) ==>
                  hook == Some(bias + offset))
  {
    hide HasHeaders, ImageMapped, Describes, Seen, HookIn, Wrap, Printable, HasType, KernelFile, EntriesOf;
    ParseKernelFile(vs, padding, before);
    HookOfEntries(mode, info, ps, low, EntriesOf(KernelFile(vs, padding), before).value, vs, offset, bias);
    SumFits(mode, bias, offset);
  }
}
