/**
  The loader's restore of an i386 register state: the descriptor table with the thread's TLS
  segments, the general registers, an IRET through a scratch page to reach level 3, and last the
  data segment registers that the IRET does not preserve.
 */
module CpuStateI386 {
  import opened Bytes
  import opened Bits
  import opened SnapshotFormat
  import opened Descriptors
  import opened Engine
  import opened RecordLoader
  import opened GdtTable

  const COMPATIBILITY_USER_CS: nat := 4
  const TRUE_USER_CS: nat := 14
  const TRAMPOLINE_ADDR: nat := 0x2000
  const TRAMPOLINE_SIZE: nat := 0x1000
  const FRAME_ADDR: nat := 0x2800
  const IRET_OPCODE: byte := 0xCF

  /** The selector sets `dump_gdt` does not refuse. */
  predicate Accepts(r: RegsI386) {
    && !LocalTable(r.xcs) && !LocalTable(r.xds) && !LocalTable(r.xes)
    && !LocalTable(r.xfs) && !LocalTable(r.xgs) && !LocalTable(r.xss)
    && (r.xcs / 8 == COMPATIBILITY_USER_CS || r.xcs / 8 == TRUE_USER_CS)
  }

  /** In the bits of the selectors: the table indicator is bit 2, the slot is above it. */
  lemma AcceptsIff(r: RegsI386)
    ensures Accepts(r) <==>
              && r.xcs / 4 % 2 == 0 && r.xss / 4 % 2 == 0 && r.xds / 4 % 2 == 0
              && r.xes / 4 % 2 == 0 && r.xfs / 4 % 2 == 0 && r.xgs / 4 % 2 == 0
              && (r.xcs / 8 == 4 || r.xcs / 8 == 14)
  {
  }

  /** The table indices taken from the file are inside the table. */
  predicate InTable(st: I386State) {
    && st.regs.xss / 8 < GDT_SLOTS
    && forall k :: 0 <= k < TLS_ENTRIES ==> st.tls[k].entry_number < GDT_SLOTS
  }

  /** Slot `i` after the first `n` TLS descriptors were written: later writes win. */
  function SlotAfter(st: I386State, n: nat, i: nat): bv64
    requires n <= TLS_ENTRIES
    decreases n
  {
    if n > 0 then
      if i == st.tls[n - 1].entry_number then UserDescWord(st.tls[n - 1]) else SlotAfter(st, n - 1, i)
    else if i == st.regs.xss / 8 then FLAT_DATA
    else if i == st.regs.xcs / 8 then CODE32
    else 0
  }

  function SlotI386(st: I386State, i: nat): bv64 { SlotAfter(st, TLS_ENTRIES, i) }

  function SlotsFrom(st: I386State, i: nat): (t: seq<bv64>)
    requires i <= GDT_SLOTS
    ensures |t| == GDT_SLOTS - i
    decreases GDT_SLOTS - i
  {
    if i == GDT_SLOTS then [] else [SlotI386(st, i)] + SlotsFrom(st, i + 1)
  }

  function TableI386(st: I386State): Table { SlotsFrom(st, 0) }

  lemma {:induction false} SlotsFromAt(st: I386State, i: nat, k: nat, j: nat)
    requires j == i + k < GDT_SLOTS
    ensures SlotsFrom(st, i)[k] == SlotI386(st, j)
    decreases k
  {
    hide SlotI386;
    if k > 0 {
      SlotsFromAt(st, i + 1, k - 1, j);
    }
  }

  lemma TableSlots(st: I386State)
    ensures forall i :: 0 <= i < GDT_SLOTS ==> TableI386(st)[i] == SlotI386(st, i)
  {
    forall i | 0 <= i < GDT_SLOTS ensures TableI386(st)[i] == SlotI386(st, i) {
      SlotsFromAt(st, 0, i, i);
    }
  }

  // ------------------------------------------------------------------ dump_gdt

  /** The loop over the TLS entries; false is a write past the table. */
  method StoreTls(gdt: array<bv64>, st: I386State) returns (ok: bool)
    requires gdt.Length == GDT_SLOTS
    requires forall i :: 0 <= i < GDT_SLOTS ==> gdt[i] == SlotAfter(st, 0, i)
    modifies gdt
    ensures ok <==> forall k :: 0 <= k < TLS_ENTRIES ==> st.tls[k].entry_number < GDT_SLOTS
    ensures ok ==> forall i :: 0 <= i < GDT_SLOTS ==> gdt[i] == SlotI386(st, i)
  {
    for k := 0 to TLS_ENTRIES
      invariant forall j :: 0 <= j < k ==> st.tls[j].entry_number < GDT_SLOTS
      invariant forall i :: 0 <= i < GDT_SLOTS ==> gdt[i] == SlotAfter(st, k, i)
    {
      if st.tls[k].entry_number >= GDT_SLOTS {
        return false;
      }
      gdt[st.tls[k].entry_number] := UserDescWord(st.tls[k]);
    }
    return true;
  }

  /** The code, stack and TLS descriptors; false is a write past the table. */
  method BuildTable(st: I386State) returns (ok: bool, gdt: array<bv64>)
    requires Accepts(st.regs)
    ensures fresh(gdt) && gdt.Length == GDT_SLOTS
    ensures ok <==> InTable(st)
    ensures ok ==> gdt[..] == TableI386(st)
  {
    gdt := new bv64[GDT_SLOTS](_ => 0);
    gdt[st.regs.xcs / 8] := CODE32;
    if st.regs.xss / 8 >= GDT_SLOTS {
      return false, gdt;
    }
    gdt[st.regs.xss / 8] := FLAT_DATA;
    ok := StoreTls(gdt, st);
    TableSlots(st);
  }

  method DumpGdt(uc: UcEngine, st: I386State) returns (r: Outcome<()>)
    requires uc.Valid()
    modifies uc`regions, uc`gdtr
    ensures uc.Valid()
    ensures r.Done? <==> GdtFits(old(uc.regions)) && Accepts(st.regs) && InTable(st)
    ensures r.Overrun? <==> GdtFits(old(uc.regions)) && Accepts(st.regs) && !InTable(st)
    ensures r.Done? ==> uc.regions == old(uc.regions) + [GdtRegion(TableI386(st))] && uc.gdtr == LoadedGdtr()
  {
    var ok := uc.MemMap(GDT_ADDR, GDT_SIZE, READ_WRITE);
    if !ok {
      return Fatal;
    }
    if LocalTable(st.regs.xcs) || LocalTable(st.regs.xds) || LocalTable(st.regs.xes)
       || LocalTable(st.regs.xfs) || LocalTable(st.regs.xgs) || LocalTable(st.regs.xss) {
      return Fatal;
    }
    if st.regs.xcs / 8 != COMPATIBILITY_USER_CS && st.regs.xcs / 8 != TRUE_USER_CS {
      return Fatal;
    }
    var gdt;
    ok, gdt := BuildTable(st);
    if !ok {
      return Overrun;
    }
    ok := StoreTable(uc, gdt, old(uc.regions));
    return Done(());
  }

  // ------------------------------------------------------------------ the trampoline

  function FrameBytes(r: RegsI386): (s: seq<byte>)
    ensures |s| == 20
  {
    LittleEndian(4, r.eip) + LittleEndian(4, r.xcs) + LittleEndian(4, r.eflags)
    + LittleEndian(4, r.esp) + LittleEndian(4, r.xss)
  }

  /** The scratch page when the IRET starts: the opcode at its start, the frame in the middle. */
  function TrampolinePage(r: RegsI386): (s: seq<byte>)
    ensures |s| == TRAMPOLINE_SIZE
  {
    Overwrite(Overwrite(Zeros(TRAMPOLINE_SIZE), 0, [IRET_OPCODE]), 0x800, FrameBytes(r))
  }

  const TRAMPOLINE_PERMS: Perms := Perms(true, true, true)

  function Trampoline(r: RegsI386): Region { Region(TRAMPOLINE_ADDR, TrampolinePage(r), TRAMPOLINE_PERMS) }

  function CapturedFrame(r: RegsI386): IretFrame {
    IretFrame(r.eip, r.xcs % 0x1_0000, r.eflags, r.esp, r.xss % 0x1_0000)
  }

  lemma FrameSlice(r: RegsI386, j: nat, at: nat, v: u32)
    requires j < 5 && at == 0x800 + 4 * j
    requires v == [r.eip, r.xcs, r.eflags, r.esp, r.xss][j]
    ensures TrampolinePage(r)[at..at + 4] == LittleEndian(4, v)
  {
    var page, frame := TrampolinePage(r), FrameBytes(r);
    assert page[at..at + 4] == frame[4 * j..4 * j + 4];
    assert frame[4 * j..4 * j + 4] == LittleEndian(4, v);
  }

  lemma FrameWord(regions: Regions, k: nat, r: RegsI386, j: nat, address: nat, v: u32)
    requires ValidRegions(regions) && k < |regions| && regions[k] == Trampoline(r)
    requires j < 5 && address == FRAME_ADDR + 4 * j
    requires v == [r.eip, r.xcs, r.eflags, r.esp, r.xss][j]
    ensures ReadWord(regions, address) == Some(v)
  {
    hide TrampolinePage, ValidRegions;
    var at := 0x800 + 4 * j;
    FrameSlice(r, j, at, v);
    FindUnique(regions, k, address, 4);
    Word32RoundTrip(v);
  }

  lemma OpcodeOnPage(regions: Regions, k: nat, r: RegsI386)
    requires ValidRegions(regions) && k < |regions| && regions[k] == Trampoline(r)
    ensures FetchesIret(regions, TRAMPOLINE_ADDR)
  {
    FindUnique(regions, k, TRAMPOLINE_ADDR, 1);
  }

  lemma FramesOnPage(regions: Regions, k: nat, r: RegsI386)
    requires ValidRegions(regions) && k < |regions| && regions[k] == Trampoline(r)
    ensures OuterFrame(regions, FRAME_ADDR) == Some(CapturedFrame(r))
    ensures InnerFrame(regions, FRAME_ADDR) == Some(CapturedFrame(r).(esp := FRAME_ADDR + 12, ss := 0))
    ensures FetchesIret(regions, TRAMPOLINE_ADDR)
  {
    hide ReadWord, Trampoline, ValidRegions;
    FrameWord(regions, k, r, 0, FRAME_ADDR, r.eip);
    FrameWord(regions, k, r, 1, FRAME_ADDR + 4, r.xcs);
    FrameWord(regions, k, r, 2, FRAME_ADDR + 8, r.eflags);
    FrameWord(regions, k, r, 3, FRAME_ADDR + 12, r.esp);
    FrameWord(regions, k, r, 4, FRAME_ADDR + 16, r.xss);
    OpcodeOnPage(regions, k, r);
  }

  // ------------------------------------------------------------------ when the IRET goes through

  /** The condition on the captured state under which the processor takes the frame. */
  predicate EntersUserLevel(st: I386State)
    requires InTable(st) && st.regs.xcs / 8 < GDT_SLOTS
  {
    var r, t := st.regs, TableI386(st);
    && r.xcs % 4 == 3 && CodeSegmentFor(t[r.xcs / 8], 3) && InSegment(t[r.xcs / 8], Bits32(r.eip))
    && r.xss % 4 == 3 && r.xss / 4 != 0 && StackSegmentFor(t[r.xss / 8], 3)
    && !VirtualMode(r.eflags)
  }

  /** A captured state whose SS is the null selector. */
  function NullStack(): I386State {
    I386State(RegsI386(0, 0, 0, 0, 0, 0, 0, 0, 0, 0, 0, 0, 0, 0x73, 0, 0, 0),
              [UserDesc(6, 0, 0, 0), UserDesc(7, 0, 0, 0), UserDesc(8, 0, 0, 0)])
  }

  /** `dump_gdt` builds a table for it, which the IRET then refuses. */
  lemma NullStackIsRefused()
    ensures Accepts(NullStack().regs) && InTable(NullStack())
    ensures !EntersUserLevel(NullStack())
  {
  }

  lemma UserDescLevel(base: bv32, limit: bv32, bits: bv32, rpl: nat)
    requires rpl < 3
    ensures !CodeSegmentFor(PackUserDesc(base, limit, bits), rpl)
  {
  }

  /** Whatever the TLS entries say, no slot of the table is code for a level below 3. */
  lemma {:induction false} SlotLevel(st: I386State, n: nat, i: nat, rpl: nat)
    requires n <= TLS_ENTRIES && rpl < 3
    ensures !CodeSegmentFor(SlotAfter(st, n, i), rpl)
    decreases n
  {
    LoaderSegments(rpl);
    if n > 0 {
      var d := st.tls[n - 1];
      UserDescLevel(Bits32(d.base_addr), Bits32(d.limit), Bits32(d.flags), rpl);
      SlotLevel(st, n - 1, i, rpl);
    }
  }

  lemma CodeNeedsLevelThree(st: I386State)
    requires InTable(st) && Accepts(st.regs) && st.regs.xcs % 4 != 3
    ensures !CodeSegmentFor(TableI386(st)[st.regs.xcs / 8], st.regs.xcs % 4)
  {
    TableSlots(st);
    SlotLevel(st, TLS_ENTRIES, st.regs.xcs / 8, st.regs.xcs % 4);
  }

  lemma FrameSelectors(st: I386State, cs: nat, ss: nat)
    requires InTable(st) && Accepts(st.regs)
    requires cs == st.regs.xcs % 0x1_0000 && ss == st.regs.xss % 0x1_0000
    ensures cs == st.regs.xcs < 0x1000 && cs / 4 != 0 && ss == st.regs.xss < 0x1000
  {
  }

  /** The processor's checks on the two selectors of the frame, read off the table. */
  lemma SelectorChecks(st: I386State, regions: Regions, g: nat, cs: nat, ss: nat, eip: u32)
    requires InTable(st) && Accepts(st.regs)
    requires ValidRegions(regions) && g < |regions| && regions[g] == GdtRegion(TableI386(st))
    requires cs == st.regs.xcs % 0x1_0000 && ss == st.regs.xss % 0x1_0000
    ensures cs == st.regs.xcs < 0x1000 && ss == st.regs.xss < 0x1000
    ensures CodeSelectorOk(regions, LoadedGdtr(), cs, eip) <==>
              CodeSegmentFor(TableI386(st)[cs / 8], cs % 4) && InSegment(TableI386(st)[cs / 8], Bits32(eip))
    ensures StackSelectorOk(regions, LoadedGdtr(), ss, 3) <==>
              ss % 4 == 3 && ss / 4 != 0 && StackSegmentFor(TableI386(st)[ss / 8], 3)
  {
    FrameSelectors(st, cs, ss);
    CodeSelectorInTable(regions, g, TableI386(st), cs, eip);
    StackSelectorInTable(regions, g, TableI386(st), ss, 3);
  }

  lemma EntersIff(st: I386State, regions: Regions, g: nat, cs: nat, ss: nat)
    requires InTable(st) && Accepts(st.regs)
    requires ValidRegions(regions) && g < |regions| && regions[g] == GdtRegion(TableI386(st))
    requires cs == st.regs.xcs % 0x1_0000 && ss == st.regs.xss % 0x1_0000
    ensures cs % 4 != 3 ==> !CodeSelectorOk(regions, LoadedGdtr(), cs, st.regs.eip)
    ensures EntersUserLevel(st) <==>
              && !VirtualMode(st.regs.eflags) && cs % 4 == 3
              && CodeSelectorOk(regions, LoadedGdtr(), cs, st.regs.eip) && StackSelectorOk(regions, LoadedGdtr(), ss, 3)
  {
    SelectorChecks(st, regions, g, cs, ss, st.regs.eip);
    if st.regs.xcs % 4 != 3 {
      CodeNeedsLevelThree(st);
    }
  }

  /** An IRET from level 0 whose code selector can only be accepted for level 3. */
  lemma IretFromLevelZero(regs: RegFile, regions: Regions, gdtr: Gdtr, esp: nat, inner: IretFrame, f: IretFrame)
    requires esp == RegValue(regs, ESP) && RegValue(regs, CS) % 4 == 0
    requires InnerFrame(regions, esp) == Some(inner) && OuterFrame(regions, esp) == Some(f)
    requires inner.eip == f.eip && inner.cs == f.cs && inner.eflags == f.eflags
    requires f.cs % 4 != 3 ==> !CodeSelectorOk(regions, gdtr, f.cs, f.eip)
    ensures Iret(regs, regions, gdtr)
         == if !VirtualMode(f.eflags) && f.cs % 4 == 3 && CodeSelectorOk(regions, gdtr, f.cs, f.eip)
               && StackSelectorOk(regions, gdtr, f.ss, 3)
            then Some(Returned(regs, f, true)) else None
  {
  }

  lemma IretFromTrampoline(st: I386State, regs: RegFile, regions: Regions, g: nat, k: nat)
    requires InTable(st) && Accepts(st.regs)
    requires ValidRegions(regions) && g < |regions| && regions[g] == GdtRegion(TableI386(st))
    requires k < |regions| && regions[k] == Trampoline(st.regs)
    requires RegValue(regs, ESP) == FRAME_ADDR && RegValue(regs, CS) % 4 == 0
    ensures Iret(regs, regions, LoadedGdtr())
         == if EntersUserLevel(st) then Some(Returned(regs, CapturedFrame(st.regs), true)) else None
  {
    var f := CapturedFrame(st.regs);
    FramesOnPage(regions, k, st.regs);
    EntersIff(st, regions, g, f.cs, f.ss);
    IretFromLevelZero(regs, regions, LoadedGdtr(), FRAME_ADDR, f.(esp := FRAME_ADDR + 12, ss := 0), f);
  }

  // ------------------------------------------------------------------ dump_regs

  ghost predicate GeneralRestored(f: RegFile, r: RegsI386) {
    && RegValue(f, EBX) == r.ebx && RegValue(f, ECX) == r.ecx && RegValue(f, EDX) == r.edx
    && RegValue(f, ESI) == r.esi && RegValue(f, EDI) == r.edi && RegValue(f, EBP) == r.ebp
    && RegValue(f, EAX) == r.eax
  }

  ghost predicate ControlRestored(f: RegFile, r: RegsI386) {
    && RegValue(f, EIP) == r.eip && RegValue(f, CS) == r.xcs && RegValue(f, EFLAGS) == r.eflags
    && RegValue(f, ESP) == r.esp && RegValue(f, SS) == r.xss
  }

  ghost predicate DataSelectorsRestored(f: RegFile, r: RegsI386) {
    && RegValue(f, DS) == r.xds && RegValue(f, ES) == r.xes && RegValue(f, FS) == r.xfs && RegValue(f, GS) == r.xgs
  }

  /** Every captured register but `orig_eax`, which the processor does not have. */
  ghost predicate Restored(f: RegFile, r: RegsI386) {
    GeneralRestored(f, r) && ControlRestored(f, r) && DataSelectorsRestored(f, r)
  }

  predicate NarrowData(r: RegsI386) {
    r.xds < 0x1_0000 && r.xes < 0x1_0000 && r.xfs < 0x1_0000 && r.xgs < 0x1_0000
  }

  method DumpGeneralRegs(uc: UcEngine, r: RegsI386)
    modifies uc`regs
    ensures GeneralRestored(uc.regs, r)
    ensures RegValue(uc.regs, CS) == old(RegValue(uc.regs, CS))
  {
    uc.RegWrite(EBX, r.ebx);
    uc.RegWrite(ECX, r.ecx);
    uc.RegWrite(EDX, r.edx);
    uc.RegWrite(ESI, r.esi);
    uc.RegWrite(EDI, r.edi);
    uc.RegWrite(EBP, r.ebp);
    uc.RegWrite(EAX, r.eax);
  }

  lemma ReturnedGeneral(regs: RegFile, r: RegsI386, f: IretFrame)
    requires GeneralRestored(regs, r)
    ensures GeneralRestored(Returned(regs, f, true), r)
  {
  }

  lemma ReturnedControl(regs: RegFile, r: RegsI386)
    requires r.xcs < 0x1000 && r.xss < 0x1000
    ensures ControlRestored(Returned(regs, CapturedFrame(r), true), r)
  {
  }

  /** The scratch page's part of the memory story: mapped, filled, and gone again. */
  ghost predicate TrampolineFits(regions: Regions) {
    Fits(regions, Region(TRAMPOLINE_ADDR, Zeros(TRAMPOLINE_SIZE), TRAMPOLINE_PERMS))
  }

  /** Both pages by their addresses. */
  lemma PagesOfLoader(regions: Regions)
    ensures TrampolineFits(regions) <==> Clear(regions, 0x2000, 0x1000)
    ensures GdtFits(regions) <==> Clear(regions, 0x3000, 0x1000)
  {
  }

  method PrepareTrampoline(uc: UcEngine, r: RegsI386) returns (ok: bool)
    requires uc.Valid()
    modifies uc`regions
    ensures uc.Valid()
    ensures ok <==> TrampolineFits(old(uc.regions))
    ensures ok ==> uc.regions == old(uc.regions) + [Trampoline(r)]
  {
    ok := uc.MemMap(TRAMPOLINE_ADDR, TRAMPOLINE_SIZE, TRAMPOLINE_PERMS);
    if !ok {
      return;
    }
    ghost var k := |old(uc.regions)|;
    FindUnique(uc.regions, k, TRAMPOLINE_ADDR, 1);
    ok := uc.MemWrite(TRAMPOLINE_ADDR, [IRET_OPCODE]);
    FindUnique(uc.regions, k, FRAME_ADDR, 20);
    ok := uc.MemWrite(FRAME_ADDR, FrameBytes(r));
    assert uc.regions[k] == Trampoline(r);
    assert uc.regions[..k] == old(uc.regions);
    assert uc.regions == uc.regions[..k] + [uc.regions[k]];
  }

  method RemoveTrampoline(uc: UcEngine, r: RegsI386, ghost before: Regions) returns (ok: bool)
    requires uc.Valid() && uc.regions == before + [Trampoline(r)]
    modifies uc`regions
    ensures uc.Valid() && ok && uc.regions == before
  {
    ghost var k := |before|;
    FindUnique(uc.regions, k, TRAMPOLINE_ADDR, TRAMPOLINE_SIZE);
    ok := uc.MemUnmap(TRAMPOLINE_ADDR, TRAMPOLINE_SIZE);
    assert uc.regions == before;
  }

  lemma TrampolineRegs(st: I386State, regs: RegFile)
    requires InTable(st) && Accepts(st.regs) && GeneralRestored(regs, st.regs)
    ensures var after := Returned(regs, CapturedFrame(st.regs), true);
            GeneralRestored(after, st.regs) && ControlRestored(after, st.regs)
  {
    FrameSelectors(st, st.regs.xcs % 0x1_0000, st.regs.xss % 0x1_0000);
    hide GeneralRestored, ControlRestored, Returned, InTable, Accepts;
    ReturnedGeneral(regs, st.regs, CapturedFrame(st.regs));
    ReturnedControl(regs, st.regs);
  }

  /** The single step over the scratch page: when it goes through, and what it leaves. */
  lemma TrampolineStep(st: I386State, regs: RegFile, regions: Regions, g: nat, k: nat)
    requires InTable(st) && Accepts(st.regs)
    requires ValidRegions(regions) && g < |regions| && regions[g] == GdtRegion(TableI386(st))
    requires k < |regions| && regions[k] == Trampoline(st.regs)
    requires GeneralRestored(regs, st.regs)
    requires RegValue(regs, ESP) == FRAME_ADDR && RegValue(regs, CS) % 4 == 0
    ensures FetchesIret(regions, TRAMPOLINE_ADDR)
    ensures var after := Iret(regs, regions, LoadedGdtr());
            && (after.Some? <==> EntersUserLevel(st))
            && (after.Some? ==> GeneralRestored(after.value, st.regs) && ControlRestored(after.value, st.regs))
  {
    IretFromTrampoline(st, regs, regions, g, k);
    FramesOnPage(regions, k, st.regs);
    TrampolineRegs(st, regs);
  }

  /** The stack pointer to the frame, and the step. */
  method RunTrampoline(uc: UcEngine, st: I386State, ghost g: nat, ghost k: nat) returns (ok: bool)
    requires uc.Valid() && uc.mode == Mode32 && uc.gdtr == LoadedGdtr()
    requires InTable(st) && Accepts(st.regs)
    requires g < |uc.regions| && uc.regions[g] == GdtRegion(TableI386(st))
    requires k < |uc.regions| && uc.regions[k] == Trampoline(st.regs)
    requires GeneralRestored(uc.regs, st.regs) && RegValue(uc.regs, CS) % 4 == 0
    modifies uc`regs
    ensures ok <==> EntersUserLevel(st)
    ensures ok ==> GeneralRestored(uc.regs, st.regs) && ControlRestored(uc.regs, st.regs)
  {
    hide Iret, EntersUserLevel, FetchesIret, TableI386, GdtRegion, Trampoline, InTable, Accepts, ControlRestored, LoadedGdtr;
    uc.RegWrite(ESP, FRAME_ADDR);
    TrampolineStep(st, uc.regs, uc.regions, g, k);
    ok := uc.EmuStartOne(TRAMPOLINE_ADDR);
  }

  /** `enter_ring3`: although ESP is overwritten on the way, the frame brings the captured one. */
  method EnterRing3(uc: UcEngine, st: I386State, ghost g: nat) returns (ok: bool)
    requires uc.Valid() && uc.mode == Mode32 && uc.gdtr == LoadedGdtr()
    requires InTable(st) && Accepts(st.regs)
    requires g < |uc.regions| && uc.regions[g] == GdtRegion(TableI386(st))
    requires GeneralRestored(uc.regs, st.regs) && RegValue(uc.regs, CS) % 4 == 0
    modifies uc`regions, uc`regs
    ensures uc.Valid()
    ensures ok <==> TrampolineFits(old(uc.regions)) && EntersUserLevel(st)
    ensures ok ==> uc.regions == old(uc.regions)
    ensures ok ==> GeneralRestored(uc.regs, st.regs) && ControlRestored(uc.regs, st.regs)
  {
    ok := PrepareTrampoline(uc, st.regs);
    if !ok {
      return;
    }
    ok := RunTrampoline(uc, st, g, |old(uc.regions)|);
    if !ok {
      return;
    }
    ok := RemoveTrampoline(uc, st.regs, old(uc.regions));
  }

  /** Writing the data selectors leaves the rest of the register file alone. */
  lemma FrameRegsKept(before: RegFile, after: RegFile, r: RegsI386)
    requires GeneralRestored(before, r) && ControlRestored(before, r)
    requires forall q: Reg :: q < DS ==> RegValue(after, q) == RegValue(before, q)
    ensures GeneralRestored(after, r) && ControlRestored(after, r)
  {
  }

  method DumpDataSelectors(uc: UcEngine, r: RegsI386)
    requires GeneralRestored(uc.regs, r) && ControlRestored(uc.regs, r)
    modifies uc`regs
    ensures GeneralRestored(uc.regs, r) && ControlRestored(uc.regs, r)
    ensures DataSelectorsRestored(uc.regs, r) <==> NarrowData(r)
    ensures RegValue(uc.regs, FS_BASE) == HiddenBase(uc.regions, uc.gdtr, r.xfs % 0x1_0000)
    ensures RegValue(uc.regs, GS_BASE) == HiddenBase(uc.regions, uc.gdtr, r.xgs % 0x1_0000)
  {
    hide HiddenBase;
    uc.RegWrite(DS, r.xds);
    uc.RegWrite(ES, r.xes);
    uc.SegmentWrite(FS, r.xfs);
    uc.SegmentWrite(GS, r.xgs);
    FrameRegsKept(old(uc.regs), uc.regs, r);
  }

  /** `dump_i386_cpu_state`. The engine starts at level 0. */
  method DumpCpuState(uc: UcEngine, st: I386State) returns (entry: Outcome<nat>)
    requires uc.Valid() && uc.mode == Mode32
    requires RegValue(uc.regs, CS) % 4 == 0
    modifies uc`regions, uc`regs, uc`gdtr
    ensures uc.Valid()
    ensures entry.Done? <==> GdtFits(old(uc.regions)) && TrampolineFits(old(uc.regions))
                             && Accepts(st.regs) && InTable(st) && EntersUserLevel(st)
    ensures entry.Overrun? <==> GdtFits(old(uc.regions)) && Accepts(st.regs) && !InTable(st)
    ensures var r := st.regs;
            || r.xcs / 4 % 2 == 1 || r.xss / 4 % 2 == 1 || r.xds / 4 % 2 == 1
            || r.xes / 4 % 2 == 1 || r.xfs / 4 % 2 == 1 || r.xgs / 4 % 2 == 1
            || (r.xcs / 8 != 4 && r.xcs / 8 != 14)
            ==> entry.Fatal?
    ensures entry.Done? ==>
              && entry.value == st.regs.eip
              && uc.regions == old(uc.regions) + [GdtRegion(TableI386(st))] && uc.gdtr == LoadedGdtr()
              && (Restored(uc.regs, st.regs) <==> NarrowData(st.regs))
              && RegValue(uc.regs, FS_BASE) == HiddenBase(uc.regions, uc.gdtr, st.regs.xfs % 0x1_0000)
              && RegValue(uc.regs, GS_BASE) == HiddenBase(uc.regions, uc.gdtr, st.regs.xgs % 0x1_0000)
  {
    hide EntersUserLevel, Accepts, InTable, TableI386, HiddenBase, GdtFits, ValidRegions, NarrowData;
    AcceptsIff(st.regs);
    var stored := DumpGdt(uc, st);
    if stored.Fatal? {
      return Fatal;
    } else if stored.Overrun? {
      return Overrun;
    }
    DumpGeneralRegs(uc, st.regs);
    TrampolineBesideGdt(old(uc.regions), GdtRegion(TableI386(st)));
    var ok := EnterRing3(uc, st, |old(uc.regions)|);
    if !ok {
      return Fatal;
    }
    DumpDataSelectors(uc, st.regs);
    var eip := uc.RegRead(EIP);
    return Done(eip);
  }

  lemma TrampolineBesideGdt(before: Regions, gdt: Region)
    requires gdt.base == GDT_ADDR && |gdt.data| == GDT_SIZE
    ensures TrampolineFits(before + [gdt]) <==> TrampolineFits(before)
  {
    var all := before + [gdt];
    assert all[|before|] == gdt;
    assert forall i :: 0 <= i < |before| ==> all[i] == before[i];
  }
}
