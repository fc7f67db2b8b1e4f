/**
  The image base: the lowest PT_LOAD address of the ELF file, the lowest mapping of that file in
  the maps text, and their difference.
 */
module ProcessInfo {
  import opened Bytes
  import opened SnapshotFormat
  import opened ElfFile
  import opened MapsParser

  const ET_EXEC: u16 := 2
  const ET_DYN: u16 := 3
  const PT_LOAD: u32 := 1

  // ------------------------------------------------------------------ ELF headers

  function PhdrSize(c: ElfClass): nat { if c == Elf32 then 32 else 56 }

  /** `elf_info_t`: the header, the file and its resolved path. */
  datatype ElfInfo = ElfInfo(ehdr: Ehdr, file: seq<byte>, path: seq<byte>)
  {
    function Class(): ElfClass { if ehdr.E32? then Elf32 else Elf64 }
    function Type(): u16 { if ehdr.E32? then ehdr.type32 else ehdr.type64 }
    function Phnum(): u16 { if ehdr.E32? then ehdr.phnum32 else ehdr.phnum64 }
    function Phoff(): u64 { if ehdr.E32? then ehdr.phoff32 else ehdr.phoff64 }
    function Phentsize(): u16 { if ehdr.E32? then ehdr.phentsize32 else ehdr.phentsize64 }
  }

  /** The two fields of a program header that are used. */
  datatype Phdr = Phdr(kind: u32, vaddr: u64)

  function PhdrOffset(info: ElfInfo, i: nat): nat
  {
    (info.Phoff() + i * info.Phentsize()) % 0x1_0000_0000_0000_0000
  }

  /** Program header `i`; None where `fseek` or `fread` fails. */
  function ReadPhdr(info: ElfInfo, i: nat): Option<Phdr>
  {
    var at := PhdrOffset(info, i);
    if at + PhdrSize(info.Class()) > |info.file| then None
    else if info.Class() == Elf32 then Some(Phdr(Word32(info.file[at..at + 4]), Word32(info.file[at + 8..at + 12])))
    else Some(Phdr(Word32(info.file[at..at + 4]), Word64(info.file[at + 16..at + 24])))
  }

  lemma OffsetInFile(info: ElfInfo, i: nat, at: nat)
    requires at == HeaderOffset(info.ehdr, i) < TWO64
    ensures PhdrOffset(info, i) == at
  {
    assert info.Phoff() + i * info.Phentsize() == at;
  }

  /** Header `i` of the table is what is read, in either class. */
  lemma ReadsHeader(info: ElfInfo, p: ProgramHeader, i: nat, at: nat)
    requires at == HeaderOffset(info.ehdr, i) && |info.file| < TWO64
    requires HoldsHeader(info.ehdr, info.file, p, at)
    ensures ReadPhdr(info, i) == Some(Phdr(p.p_type, p.p_vaddr))
  {
    OffsetInFile(info, i, at);
    hide PhdrOffset, HeaderOffset, Phdr32Bytes, Phdr64Bytes, LittleEndian, Value;
    Word32RoundTrip(p.p_type);
    if info.ehdr.E32? {
      Slice(info.file, at, Phdr32Bytes(p), 0, 4);
      Slice(info.file, at, Phdr32Bytes(p), 8, 12);
      Phdr32Fields(p);
      Word32RoundTrip(p.p_vaddr);
    } else {
      Slice(info.file, at, Phdr64Bytes(p), 0, 4);
      Slice(info.file, at, Phdr64Bytes(p), 16, 24);
      Phdr64Fields(p);
      Word64RoundTrip(p.p_vaddr);
    }
  }

  // ------------------------------------------------------------------ minima

  /** The smallest element, or the starting value `SIZE_MAX` of both loops. */
  function Least(s: seq<nat>, sizeMax: nat): (m: nat)
    ensures m <= sizeMax
  {
    if s == [] then sizeMax
    else
      var m := Least(s[..|s| - 1], sizeMax);
      if s[|s| - 1] < m then s[|s| - 1] else m
  }

  /** The loops' result is the minimum in the usual sense. */
  lemma {:induction false} LeastIsMinimum(s: seq<nat>, sizeMax: nat)
    ensures Least(s, sizeMax) == sizeMax || Least(s, sizeMax) in s
    ensures forall x :: x in s ==> Least(s, sizeMax) <= x
  {
    if s != [] {
      var last := |s| - 1;
      LeastIsMinimum(s[..last], sizeMax);
      forall x | x in s ensures Least(s, sizeMax) <= x {
        if x !in s[..last] {
          assert x == s[last];
        }
      }
    }
  }

  /** The addresses of the first `n` program headers that are PT_LOAD; None if one is unreadable. */
  function LoadAddresses(info: ElfInfo, n: nat): Option<seq<nat>>
  {
    if n == 0 then Some([])
    else
      match LoadAddresses(info, n - 1)
      case None => None
      case Some(before) =>
        match ReadPhdr(info, n - 1)
        case None => None
        case Some(p) => Some(if p.kind == PT_LOAD then before + [p.vaddr] else before)
  }

  lemma {:induction false} LoadAddressesPrefix(info: ElfInfo, n: nat, m: nat)
    requires n <= m && LoadAddresses(info, n).None?
    ensures LoadAddresses(info, m).None?
    decreases m - n
  {
    if n < m {
      LoadAddressesPrefix(info, n + 1, m);
    }
  }

  /** The PT_LOAD addresses of a list of program headers. */
  function LoadVaddrs(ps: seq<ProgramHeader>): seq<nat>
  {
    if ps == [] then []
    else
      var last := |ps| - 1;
      if ps[last].p_type == 1 then LoadVaddrs(ps[..last]) + [ps[last].p_vaddr] else LoadVaddrs(ps[..last])
  }

  lemma {:induction false} LoadVaddrsAre(ps: seq<ProgramHeader>, v: nat)
    ensures v in LoadVaddrs(ps) <==> exists i :: 0 <= i < |ps| && ps[i].p_type == 1 && ps[i].p_vaddr == v
  {
    if ps != [] {
      var last := |ps| - 1;
      LoadVaddrsAre(ps[..last], v);
      if v in LoadVaddrs(ps[..last]) {
        var i :| 0 <= i < last && ps[..last][i].p_type == 1 && ps[..last][i].p_vaddr == v;
        assert ps[i].p_type == 1 && ps[i].p_vaddr == v;
      }
      forall i | 0 <= i < |ps| && ps[i].p_type == 1 && ps[i].p_vaddr == v
        ensures v in LoadVaddrs(ps)
      {
        if i < last {
          assert ps[..last][i] == ps[i];
        }
      }
    }
  }

  lemma {:induction false} LoadAddressesOf(info: ElfInfo, ps: seq<ProgramHeader>, n: nat)
    requires HasHeaders(info.ehdr, info.file, ps) && n <= |ps|
    ensures LoadAddresses(info, n) == Some(LoadVaddrs(ps[..n]))
  {
    hide ReadPhdr, HoldsHeader, HeaderOffset;
    assert ps[..0] == [];
    if n > 0 {
      LoadAddressesOf(info, ps, n - 1);
      ReadsHeader(info, ps[n - 1], n - 1, HeaderOffset(info.ehdr, n - 1));
      assert ps[..n][..n - 1] == ps[..n - 1];
    }
  }

  lemma {:induction false} ReadableUpTo(info: ElfInfo, n: nat)
    requires forall i :: 0 <= i < n ==> HeaderOffset(info.ehdr, i) < TWO64
    ensures LoadAddresses(info, n).Some? <==> forall i :: 0 <= i < n ==> InFile(info.ehdr, info.file, i)
  {
    hide HeaderOffset, ReadPhdr, InFile;
    if n > 0 {
      ReadableUpTo(info, n - 1);
      ReadableHeader(info, n - 1);
    }
  }

  lemma ReadableHeader(info: ElfInfo, i: nat)
    requires HeaderOffset(info.ehdr, i) < TWO64
    ensures ReadPhdr(info, i).Some? <==> InFile(info.ehdr, info.file, i)
  {
    OffsetInFile(info, i, HeaderOffset(info.ehdr, i));
    hide HeaderOffset, PhdrOffset;
  }

  /** The addresses are there if and only if every header ends inside the file. */
  lemma TableIsReadable(info: ElfInfo, phnum: nat)
    requires match info.ehdr case E32(_, _, _, n) => phnum == n case E64(_, _, _, n) => phnum == n
    requires forall i :: 0 <= i < phnum ==> HeaderOffset(info.ehdr, i) < TWO64
    ensures LoadAddresses(info, info.Phnum()).Some? <==>
              forall i :: 0 <= i < phnum ==> InFile(info.ehdr, info.file, i)
  {
    ReadableUpTo(info, phnum);
  }

  lemma HeadersGiveAddresses(info: ElfInfo, ps: seq<ProgramHeader>)
    requires HasHeaders(info.ehdr, info.file, ps)
    ensures LoadAddresses(info, info.Phnum()) == Some(LoadVaddrs(ps))
  {
    LoadAddressesOf(info, ps, |ps|);
    assert ps[..|ps|] == ps;
  }

  lemma LeastOfHeaders(ps: seq<ProgramHeader>, sizeMax: nat)
    ensures LeastLoad(ps, Least(LoadVaddrs(ps), sizeMax), sizeMax)
  {
    var m := Least(LoadVaddrs(ps), sizeMax);
    LeastIsMinimum(LoadVaddrs(ps), sizeMax);
    LoadVaddrsAre(ps, m);
    forall i | 0 <= i < |ps| && ps[i].p_type == 1 ensures m <= ps[i].p_vaddr {
      LoadVaddrsAre(ps, ps[i].p_vaddr);
    }
  }

  /** `get_min_vaddr`; None is the fatal exit. `sizeMax` is the snapshotter's `SIZE_MAX`. */
  method GetMinVaddr(info: ElfInfo, sizeMax: nat) returns (minVaddr: Option<nat>)
    ensures var addresses := LoadAddresses(info, info.Phnum());
            && (minVaddr.Some? <==> addresses.Some?)
            && (minVaddr.Some? ==> minVaddr.value == Least(addresses.value, sizeMax))
    ensures forall ps :: HasHeaders(info.ehdr, info.file, ps) ==>
              minVaddr.Some? && LeastLoad(ps, minVaddr.value, sizeMax)
  {
    hide HasHeaders, LeastLoad, ReadPhdr;
    forall ps | HasHeaders(info.ehdr, info.file, ps)
      ensures LoadAddresses(info, info.Phnum()) == Some(LoadVaddrs(ps))
      ensures LeastLoad(ps, Least(LoadVaddrs(ps), sizeMax), sizeMax)
    {
      HeadersGiveAddresses(info, ps);
      LeastOfHeaders(ps, sizeMax);
    }
    var least := sizeMax;
    for i := 0 to info.Phnum()
      invariant LoadAddresses(info, i).Some?
      invariant least == Least(LoadAddresses(info, i).value, sizeMax)
    {
      var p := ReadPhdr(info, i);
      if p.None? {
        LoadAddressesPrefix(info, i + 1, info.Phnum());
        return None;
      }
      ghost var before, after := LoadAddresses(info, i).value, LoadAddresses(info, i + 1).value;
      assert p.value.kind == PT_LOAD ==> after[..|after| - 1] == before;
      if p.value.kind == PT_LOAD && p.value.vaddr < least {
        least := p.value.vaddr;
      }
    }
    return Some(least);
  }

  /** The start addresses of the mappings of the file at `path`. */
  function StartsOf(es: seq<MapsEntry>, path: seq<byte>): seq<nat>
  {
    if es == [] then []
    else (if es[0].Path() == path then [es[0].start] else []) + StartsOf(es[1..], path)
  }

  lemma {:induction false} LeastAppend(a: seq<nat>, b: seq<nat>, sizeMax: nat)
    ensures Least(a + b, sizeMax) == if Least(a, sizeMax) <= Least(b, sizeMax) then Least(a, sizeMax) else Least(b, sizeMax)
    decreases |b|
  {
    if b == [] {
      assert a + b == a;
    } else {
      var c := b[..|b| - 1];
      assert (a + b)[..|a + b| - 1] == a + c;
      LeastAppend(a, c, sizeMax);
    }
  }

  function OptionSeq(start: Option<nat>): seq<nat> {
    match start case None => [] case Some(a) => [a]
  }

  /** The next entry, and its start address if it is a mapping of the file at `path`. */
  method NextStart(iter: MapsIter, path: seq<byte>) returns (r: NextResult, start: Option<nat>)
    requires iter.Valid()
    modifies iter, iter.entry, iter.entry.path
    ensures iter.Valid()
    ensures r == End ==> old(iter.Pending()) == Some([]) && start == None
    ensures r == Fatal ==> old(iter.Pending()) == None && start == None
    ensures r == Entry ==>
              && |iter.file| < |old(iter.file)|
              && (old(iter.Pending()).Some? <==> iter.Pending().Some?)
              && (iter.Pending().Some? ==>
                    StartsOf(old(iter.Pending()).value, path) == OptionSeq(start) + StartsOf(iter.Pending().value, path))
  {
    ghost var todo := iter.Pending();
    start := None;
    r := iter.Next();
    if r == Entry {
      var e := iter.entry.Snapshot();
      if e.Path() == path {
        start := Some(e.start);
      }
      if todo.Some? {
        StartsStep(todo.value, e, iter.Pending().value, path);
      }
    }
  }

  lemma StartsStep(todo: seq<MapsEntry>, e: MapsEntry, rest: seq<MapsEntry>, path: seq<byte>)
    requires todo == [e] + rest
    ensures StartsOf(todo, path) == (if e.Path() == path then [e.start] else []) + StartsOf(rest, path)
  {
    assert todo[1..] == rest;
  }

  /** One comparison of the loop, against the minimum of what is still to come. */
  lemma KeepMinimum(all: seq<nat>, start: Option<nat>, rest: seq<nat>, sizeMax: nat, min: nat, next: nat)
    requires all == OptionSeq(start) + rest
    requires next == if start.Some? && min > start.value then start.value else min
    ensures Smaller(min, Least(all, sizeMax)) == Smaller(next, Least(rest, sizeMax))
  {
    LeastAppend(OptionSeq(start), rest, sizeMax);
    if start.Some? {
      assert [start.value][..0] == [];
    }
  }

  /** The loop over the maps file; None is the fatal exit on a malformed line. */
  method MinMapsAddress(iter: MapsIter, path: seq<byte>, sizeMax: nat) returns (least: Option<nat>)
    requires iter.Valid()
    modifies iter, iter.entry, iter.entry.path
    ensures least.Some? <==> old(iter.Pending()).Some?
    ensures least.Some? ==> least.value == Least(StartsOf(old(iter.Pending()).value, path), sizeMax)
  {
    var minAddress: nat := sizeMax;
    var more := true;
    ghost var todo := iter.Pending();
    ghost var target := if todo.Some? then Least(StartsOf(todo.value, path), sizeMax) else 0;
    while more
      invariant iter.Valid() && minAddress <= sizeMax
      invariant todo.Some? <==> old(iter.Pending()).Some?
      invariant more ==> todo == iter.Pending()
      invariant !more ==> todo == Some([])
      invariant todo.Some? ==> target == Smaller(minAddress, Least(StartsOf(todo.value, path), sizeMax))
      decreases more, |iter.file|
    {
      var r, start := NextStart(iter, path);
      if r == Fatal {
        return None;
      }
      more := r == Entry;
      ghost var before: nat := minAddress;
      if start.Some? && minAddress > start.value {
        minAddress := start.value;
      }
      if more {
        ghost var rest := iter.Pending();
        if todo.Some? {
          KeepMinimum(StartsOf(todo.value, path), start, StartsOf(rest.value, path), sizeMax, before, minAddress);
        }
        todo := rest;
      }
    }
    return Some(minAddress);
  }

  function Smaller(a: nat, b: nat): nat { if a <= b then a else b }

  /** Subtraction of 64-bit unsigned integers. */
  function Minus64(a: nat, b: nat): nat { (a - b) % 0x1_0000_0000_0000_0000 }

  /** The image base, from the entries of the maps text; None is the fatal exit. */
  function ImageBase(info: ElfInfo, es: Option<seq<MapsEntry>>, sizeMax: nat): Option<nat> {
    if info.Type() == ET_EXEC then Some(0)
    else if info.Type() != ET_DYN then None
    else
      var vaddrs :- LoadAddresses(info, info.Phnum());
      var entries :- es;
      var lowest := Least(StartsOf(entries, info.path), sizeMax);
      if lowest == sizeMax then None else Some(Minus64(lowest, Least(vaddrs, sizeMax)))
  }

  /** `get_image_base_via_elf_info`; None is the fatal exit. */
  method GetImageBase(info: ElfInfo, iter: MapsIter, sizeMax: nat) returns (base: Option<nat>)
    requires iter.Valid()
    requires sizeMax == TWO32 - 1 || sizeMax == TWO64 - 1
    modifies iter, iter.entry, iter.entry.path
    ensures info.Type() == ET_EXEC ==> base == Some(0)
    ensures info.Type() != ET_EXEC && info.Type() != ET_DYN ==> base == None
    ensures info.Type() == ET_DYN ==>
              var addresses, es := LoadAddresses(info, info.Phnum()), old(iter.Pending());
              && (base.Some? <==> addresses.Some? && es.Some? && Least(StartsOf(es.value, info.path), sizeMax) != sizeMax)
              && (base.Some? ==>
                    base.value == Minus64(Least(StartsOf(es.value, info.path), sizeMax), Least(addresses.value, sizeMax)))
  {
    if info.Type() != ET_DYN && info.Type() != ET_EXEC {
      return None;
    }
    if info.Type() != ET_DYN {
      return Some(0);
    }
    var minVaddr := GetMinVaddr(info, sizeMax);
    if minVaddr.None? {
      return None;
    }
    var minAddress := MinMapsAddress(iter, info.path, sizeMax);
    if minAddress.None? || minAddress.value == sizeMax {
      return None;
    }
    return Some(Minus64(minAddress.value, minVaddr.value));
  }

  // ------------------------------------------------------------------ the load bias

  function PageStart(a: nat): nat { a - a % 0x1000 }

  ghost predicate AboveSomeSegment(start: nat, vaddrs: seq<nat>, bias: nat) {
    exists v :: v in vaddrs && start >= PageStart(bias + v)
  }

  /**
    What is assumed of the kernel's mapping of an image with load bias `bias`: no mapping of the
    file starts below the page of every segment, and the lowest segment's page starts one.
   */
  ghost predicate MappedWithBias(starts: seq<nat>, vaddrs: seq<nat>, bias: nat, low: nat) {
    && bias % 0x1000 == 0
    && (forall a :: a in starts ==> AboveSomeSegment(a, vaddrs, bias))
    && PageStart(bias + low) in starts
  }

  /**
    The two minima give the page of the lowest segment minus its address, so they give the bias
    exactly when that address is page-aligned.
   */
  lemma LoadBias(starts: seq<nat>, vaddrs: seq<nat>, bias: nat, sizeMax: nat)
    requires vaddrs != [] && MappedWithBias(starts, vaddrs, bias, Least(vaddrs, sizeMax))
    requires forall v :: v in vaddrs ==> bias + v < sizeMax
    ensures var low := Least(vaddrs, sizeMax);
            && low in vaddrs
            && Least(starts, sizeMax) == PageStart(bias + low) < sizeMax
            && (PageStart(bias + low) - low == bias <==> low % 0x1000 == 0)
  {
    var low, least := Least(vaddrs, sizeMax), Least(starts, sizeMax);
    LeastIsMinimum(vaddrs, sizeMax);
    LeastIsMinimum(starts, sizeMax);
    assert vaddrs[0] in vaddrs;
    PageStartOfSum(bias, low);
    assert PageStart(bias + low) in starts;
    LowestStart(starts, vaddrs, bias, low, least);
  }

  lemma LowestStart(starts: seq<nat>, vaddrs: seq<nat>, bias: nat, low: nat, least: nat)
    requires MappedWithBias(starts, vaddrs, bias, low)
    requires least in starts && forall v :: v in vaddrs ==> low <= v
    ensures PageStart(bias + low) <= least
  {
    assert AboveSomeSegment(least, vaddrs, bias);
    var v :| v in vaddrs && least >= PageStart(bias + v);
    PageStartMonotone(bias + low, bias + v);
  }

  lemma PageStartMonotone(a: nat, b: nat)
    requires a <= b
    ensures PageStart(a) <= PageStart(b)
  {
  }

  lemma PageStartOfSum(bias: nat, low: nat)
    requires bias % 0x1000 == 0
    ensures PageStart(bias + low) == bias + PageStart(low)
  {
  }

  /** A lowest segment that starts inside a page: the minima miss the bias by its offset there. */
  lemma UnalignedSegmentMissesBias()
    ensures var starts, vaddrs, bias: nat, sizeMax: nat := [0x1000], [0x234], 0x1000, 0xFFFF_FFFF_FFFF_FFFF;
            && Least(vaddrs, sizeMax) == 0x234 && MappedWithBias(starts, vaddrs, bias, 0x234)
            && (forall v :: v in vaddrs ==> bias + v < sizeMax)
            && Minus64(Least(starts, sizeMax), Least(vaddrs, sizeMax)) == 0xDCC != bias
  {
    var starts: seq<nat>, vaddrs: seq<nat> := [0x1000], [0x234];
    assert starts[..0] == [] && vaddrs[..0] == [];
    assert 0x234 in vaddrs && 0x1000 >= PageStart(0x1000 + 0x234);
  }

  // ------------------------------------------------------------------ the hook

  /** `SIZE_MAX` of the build. */
  function SizeMax(mode: Mode): (m: nat)
    ensures m == TWO32 - 1 || m == TWO64 - 1
  {
    if mode == Mode64 then 0xFFFF_FFFF_FFFF_FFFF else 0xFFFF_FFFF
  }

  /** `image_base + addr` of `main`: the image base is cut to a `uintptr_t`, and so is the sum. */
  function HookOf(mode: Mode, base: nat, addr: nat): nat {
    Wrap(mode, Wrap(mode, base) + addr)
  }

  lemma HookOfBase(mode: Mode, base: nat, addr: nat)
    ensures HookOf(mode, base, addr) == Wrap(mode, base + addr)
    ensures base + addr < WordModulus(mode) ==> HookOf(mode, base, addr) == base + addr
  {
    WrapSum(mode, base, addr);
    WrapFits(mode, base + addr);
    hide Wrap;
  }

  lemma WrapFits(mode: Mode, a: nat)
    ensures a < WordModulus(mode) ==> Wrap(mode, a) == a
  {
  }

  lemma HookOfZero(mode: Mode, offset: nat)
    ensures HookOf(mode, 0, Wrap(mode, offset)) == Wrap(mode, offset)
  {
  }

  /** The image is loaded with `bias`, and its lowest segment starts a page. */
  ghost predicate LoadedWithBias(starts: seq<nat>, vaddrs: seq<nat>, bias: nat, sizeMax: nat) {
    && vaddrs != [] && MappedWithBias(starts, vaddrs, bias, Least(vaddrs, sizeMax))
    && (forall v :: v in vaddrs ==> bias + v < sizeMax)
    && Least(vaddrs, sizeMax) % 0x1000 == 0
  }

  /** The lowest mapping is the lowest segment, moved by the bias. */
  lemma LowestIsMoved(starts: seq<nat>, vaddrs: seq<nat>, bias: nat, sizeMax: nat)
    requires LoadedWithBias(starts, vaddrs, bias, sizeMax)
    ensures Least(starts, sizeMax) == bias + Least(vaddrs, sizeMax) < sizeMax
  {
    LoadBias(starts, vaddrs, bias, sizeMax);
  }

  lemma DifferenceIsBias(least: nat, low: nat, bias: nat)
    requires least == bias + low < TWO64
    ensures Minus64(least, low) == bias
  {
  }

  /** Image base plus offset is the run-time address of that ELF address, in the word of the build. */
  lemma HookAddress(mode: Mode, starts: seq<nat>, vaddrs: seq<nat>, bias: nat, sizeMax: nat, addr: nat)
    requires LoadedWithBias(starts, vaddrs, bias, sizeMax) && sizeMax <= TWO64
    ensures var base := Minus64(Least(starts, sizeMax), Least(vaddrs, sizeMax));
            && base == bias
            && HookOf(mode, base, addr) == Wrap(mode, bias + addr)
            && (bias + addr < WordModulus(mode) ==> HookOf(mode, base, addr) == bias + addr)
  {
    hide Minus64, HookOf, Wrap, LoadedWithBias, WordModulus;
    LowestIsMoved(starts, vaddrs, bias, sizeMax);
    DifferenceIsBias(Least(starts, sizeMax), Least(vaddrs, sizeMax), bias);
    HookOfBase(mode, bias, addr);
  }

  /** The hook for an executable and the entries of the maps text; None is the fatal exit. */
  function HookIn(mode: Mode, info: ElfInfo, es: Option<seq<MapsEntry>>, offset: u64): Option<nat> {
    match ImageBase(info, es, SizeMax(mode))
    case None => None
    case Some(base) => Some(HookOf(mode, base, Wrap(mode, offset)))
  }

  /** From the executable and the maps text to the hook. */
  method FindHook(mode: Mode, info: ElfInfo, iter: MapsIter, offset: u64) returns (hook: Option<nat>)
    requires iter.Valid()
    modifies iter, iter.entry, iter.entry.path
    ensures hook == HookIn(mode, info, old(iter.Pending()), offset)
  {
    hide HookOf, Wrap, SizeMax, Minus64;
    var base := GetImageBase(info, iter, SizeMax(mode));
    return if base.None? then None else Some(HookOf(mode, base.value, Wrap(mode, offset)));
  }

  /** An executable of type ET_EXEC is not relocated: its hook is the offset. */
  lemma FixedHook(mode: Mode, info: ElfInfo, es: Option<seq<MapsEntry>>, offset: u64)
    requires HasType(info.ehdr, 2)
    ensures HookIn(mode, info, es, offset) == Some(Wrap(mode, offset))
  {
    hide HookOf, Wrap;
    HookOfZero(mode, offset);
  }

  /** A file that is neither ET_EXEC nor ET_DYN is fatal. */
  lemma OtherTypesAreFatal(mode: Mode, info: ElfInfo, es: Option<seq<MapsEntry>>, offset: u64)
    requires !HasType(info.ehdr, 2) && !HasType(info.ehdr, 3)
    ensures HookIn(mode, info, es, offset) == None
  {
  }

  lemma BiasedHook(mode: Mode, info: ElfInfo, es: seq<MapsEntry>, vaddrs: seq<nat>, offset: u64, bias: nat)
    requires info.Type() == ET_DYN && LoadAddresses(info, info.Phnum()) == Some(vaddrs)
    requires LoadedWithBias(StartsOf(es, info.path), vaddrs, bias, SizeMax(mode))
    ensures HookIn(mode, info, Some(es), offset) == Some(Wrap(mode, bias + Wrap(mode, offset)))
  {
    hide HookOf, Wrap, LoadedWithBias, Minus64, SizeMax;
    var starts, sizeMax, addr := StartsOf(es, info.path), SizeMax(mode), Wrap(mode, offset);
    LowestIsMoved(starts, vaddrs, bias, sizeMax);
    HookAddress(mode, starts, vaddrs, bias, sizeMax, addr);
  }
}
