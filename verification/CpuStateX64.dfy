/** The loader's restore of an x86_64 register state. */
module CpuStateX64 {
  import opened Bytes
  import opened SnapshotFormat
  import opened Descriptors
  import opened Engine
  import opened GdtTable

  const USER_DS: nat := 5
  const USER_CS: nat := 6

  /** The selector sets `dump_gdt` does not refuse. */
  predicate Accepts(r: RegsX64) {
    && !LocalTable(r.cs) && !LocalTable(r.ds) && !LocalTable(r.es)
    && !LocalTable(r.fs) && !LocalTable(r.gs) && !LocalTable(r.ss)
    && r.cs / 8 == USER_CS && r.ss / 8 == USER_DS
    && (r.ds / 8 == 0 || r.ds / 8 == USER_DS)
    && (r.es / 8 == 0 || r.es / 8 == USER_DS)
  }

  /** In the bits of the selectors: the table indicator is bit 2, the slot is above it. */
  lemma AcceptsIff(r: RegsX64)
    ensures Accepts(r) <==>
              && r.cs / 4 % 2 == 0 && r.ss / 4 % 2 == 0 && r.ds / 4 % 2 == 0
              && r.es / 4 % 2 == 0 && r.fs / 4 % 2 == 0 && r.gs / 4 % 2 == 0
              && r.cs / 8 == 6 && r.ss / 8 == 5
              && (r.ds / 8 == 0 || r.ds / 8 == 5) && (r.es / 8 == 0 || r.es / 8 == 5)
  {
  }

  function SlotX64(i: nat): bv64 {
    if i == USER_CS then CODE64 else if i == USER_DS then FLAT_DATA else 0
  }

  function TableX64(): (t: Table)
    ensures forall i :: 0 <= i < GDT_SLOTS ==> t[i] == SlotX64(i)
  {
    seq(GDT_SLOTS, i requires 0 <= i => SlotX64(i))
  }

  /**
    What the processor finds in an engine with the table: 64-bit code in slot 6, flat data in slot
    5, and nothing in any other slot.
   */
  lemma SegmentsX64(regions: Regions, k: nat, selector: nat)
    requires ValidRegions(regions) && k < |regions| && regions[k] == GdtRegion(TableX64())
    requires selector < 0x1000
    ensures DescriptorBytes(regions, Gdtr(0x3000, 0xFFF), selector) == Some(
              if selector / 8 == 6 then [0xFF, 0xFF, 0, 0, 0, 0xFB, 0xAF, 0]
              else if selector / 8 == 5 then [0xFF, 0xFF, 0, 0, 0, 0xF3, 0xCF, 0]
              else [0, 0, 0, 0, 0, 0, 0, 0])
  {
    DescriptorFromTable(regions, k, TableX64(), selector);
    SegmentBytes();
    assert TableX64()[selector / 8] == SlotX64(selector / 8);
  }

  method DumpGdt(uc: UcEngine, r: RegsX64) returns (ok: bool)
    requires uc.Valid()
    modifies uc`regions, uc`gdtr
    ensures uc.Valid()
    ensures ok <==> GdtFits(old(uc.regions)) && Accepts(r)
    ensures ok ==> uc.regions == old(uc.regions) + [GdtRegion(TableX64())] && uc.gdtr == LoadedGdtr()
  {
    ok := uc.MemMap(GDT_ADDR, GDT_SIZE, READ_WRITE);
    if !ok {
      return;
    }
    var gdt := new bv64[GDT_SLOTS](_ => 0);
    if LocalTable(r.cs) || LocalTable(r.ds) || LocalTable(r.es)
       || LocalTable(r.fs) || LocalTable(r.gs) || LocalTable(r.ss) {
      return false;
    }
    if r.cs / 8 != USER_CS {
      return false;
    }
    gdt[USER_CS] := CODE64;
    if r.ss / 8 != USER_DS {
      return false;
    }
    gdt[USER_DS] := FLAT_DATA;
    if r.ds / 8 != 0 && r.ds / 8 != USER_DS {
      return false;
    }
    if r.es / 8 != 0 && r.es / 8 != USER_DS {
      return false;
    }
    assert gdt[..] == TableX64();
    ok := StoreTable(uc, gdt, old(uc.regions));
  }

  // The captured values a register file holds, in the order the loader writes them.
  ghost predicate LegacyRestored(f: RegFile, r: RegsX64) {
    && RegValue(f, RAX) == r.rax && RegValue(f, RBX) == r.rbx && RegValue(f, RCX) == r.rcx
    && RegValue(f, RDX) == r.rdx && RegValue(f, RSI) == r.rsi && RegValue(f, RDI) == r.rdi
    && RegValue(f, RBP) == r.rbp && RegValue(f, RSP) == r.rsp
  }

  ghost predicate ExtendedRestored(f: RegFile, r: RegsX64) {
    && RegValue(f, R8) == r.r8 && RegValue(f, R9) == r.r9 && RegValue(f, R10) == r.r10
    && RegValue(f, R11) == r.r11 && RegValue(f, R12) == r.r12 && RegValue(f, R13) == r.r13
    && RegValue(f, R14) == r.r14 && RegValue(f, R15) == r.r15
  }

  ghost predicate ControlRestored(f: RegFile, r: RegsX64) {
    RegValue(f, RIP) == r.rip && RegValue(f, EFLAGS) == r.eflags
  }

  ghost predicate SelectorsRestored(f: RegFile, r: RegsX64) {
    && RegValue(f, CS) == r.cs && RegValue(f, SS) == r.ss && RegValue(f, DS) == r.ds && RegValue(f, ES) == r.es
    && RegValue(f, FS) == r.fs && RegValue(f, GS) == r.gs
  }

  ghost predicate BasesRestored(f: RegFile, r: RegsX64) {
    RegValue(f, FS_BASE) == r.fs_base && RegValue(f, GS_BASE) == r.gs_base
  }

  /** Every captured register but `orig_rax`, which the processor does not have. */
  ghost predicate Restored(f: RegFile, r: RegsX64) {
    LegacyRestored(f, r) && ExtendedRestored(f, r) && ControlRestored(f, r)
    && SelectorsRestored(f, r) && BasesRestored(f, r)
  }

  /** The state with the FS and GS selectors cut to the 16 bits a segment register has. */
  function Narrowed(r: RegsX64): RegsX64 { r.(fs := r.fs % 0x1_0000, gs := r.gs % 0x1_0000) }

  method DumpLegacyRegs(uc: UcEngine, r: RegsX64)
    modifies uc`regs
    ensures LegacyRestored(uc.regs, r)
  {
    uc.RegWrite(RAX, r.rax);
    uc.RegWrite(RBX, r.rbx);
    uc.RegWrite(RCX, r.rcx);
    uc.RegWrite(RDX, r.rdx);
    uc.RegWrite(RSI, r.rsi);
    uc.RegWrite(RDI, r.rdi);
    uc.RegWrite(RBP, r.rbp);
    uc.RegWrite(RSP, r.rsp);
  }

  lemma LegacyKept(before: RegFile, after: RegFile, r: RegsX64)
    requires LegacyRestored(before, r) && forall q: Reg :: q <= RSP ==> RegValue(after, q) == RegValue(before, q)
    ensures LegacyRestored(after, r)
  {
  }

  method DumpExtendedRegs(uc: UcEngine, r: RegsX64)
    modifies uc`regs
    ensures ExtendedRestored(uc.regs, r)
    ensures forall q: Reg :: q <= RSP ==> RegValue(uc.regs, q) == old(RegValue(uc.regs, q))
  {
    uc.RegWrite(R8, r.r8);
    uc.RegWrite(R9, r.r9);
    uc.RegWrite(R10, r.r10);
    uc.RegWrite(R11, r.r11);
    uc.RegWrite(R12, r.r12);
    uc.RegWrite(R13, r.r13);
    uc.RegWrite(R14, r.r14);
    uc.RegWrite(R15, r.r15);
  }

  ghost predicate GeneralRestored(f: RegFile, r: RegsX64) {
    LegacyRestored(f, r) && ExtendedRestored(f, r) && ControlRestored(f, r)
  }

  lemma SmallSelectors(r: RegsX64)
    requires Accepts(r)
    ensures r.cs < 0x1_0000 && r.ss < 0x1_0000 && r.ds < 0x1_0000 && r.es < 0x1_0000
  {
  }

  method DumpFlatSelectors(uc: UcEngine, r: RegsX64)
    requires r.cs < 0x1_0000 && r.ss < 0x1_0000 && r.ds < 0x1_0000 && r.es < 0x1_0000
    requires GeneralRestored(uc.regs, r)
    modifies uc`regs
    ensures GeneralRestored(uc.regs, r)
    ensures RegValue(uc.regs, CS) == r.cs && RegValue(uc.regs, SS) == r.ss
    ensures RegValue(uc.regs, DS) == r.ds && RegValue(uc.regs, ES) == r.es
  {
    uc.RegWrite(CS, r.cs);
    uc.RegWrite(SS, r.ss);
    uc.RegWrite(DS, r.ds);
    uc.RegWrite(ES, r.es);
  }

  lemma GeneralKept(before: RegFile, after: RegFile, r: RegsX64)
    requires GeneralRestored(before, r)
    requires forall q :: q != FS && q != FS_BASE && q != GS && q != GS_BASE ==> RegValue(after, q) == RegValue(before, q)
    ensures GeneralRestored(after, r)
    ensures RegValue(after, CS) == RegValue(before, CS) && RegValue(after, SS) == RegValue(before, SS)
    ensures RegValue(after, DS) == RegValue(before, DS) && RegValue(after, ES) == RegValue(before, ES)
  {
  }

  method DumpBasedSelectors(uc: UcEngine, r: RegsX64)
    requires GeneralRestored(uc.regs, r)
    requires RegValue(uc.regs, CS) == r.cs && RegValue(uc.regs, SS) == r.ss
    requires RegValue(uc.regs, DS) == r.ds && RegValue(uc.regs, ES) == r.es
    modifies uc`regs
    ensures GeneralRestored(uc.regs, r) && SelectorsRestored(uc.regs, Narrowed(r))
  {
    uc.SegmentWrite(FS, r.fs);
    uc.SegmentWrite(GS, r.gs);
    GeneralKept(old(uc.regs), uc.regs, r);
  }

  method DumpBases(uc: UcEngine, r: RegsX64)
    requires GeneralRestored(uc.regs, r) && SelectorsRestored(uc.regs, Narrowed(r))
    modifies uc`regs
    ensures GeneralRestored(uc.regs, r) && SelectorsRestored(uc.regs, Narrowed(r)) && BasesRestored(uc.regs, r)
  {
    uc.RegWrite(FS_BASE, r.fs_base);
    uc.RegWrite(GS_BASE, r.gs_base);
  }

  lemma RestoredIffNarrow(f: RegFile, r: RegsX64)
    requires GeneralRestored(f, r) && SelectorsRestored(f, Narrowed(r)) && BasesRestored(f, r)
    ensures Restored(f, r) <==> r.fs < 0x1_0000 && r.gs < 0x1_0000
  {
  }

  /** A captured state whose FS does not fit a segment register. */
  function WideFs(): RegsX64 {
    RegsX64(0, 0, 0, 0, 0, 0, 0, 0, 0, 0, 0, 0, 0, 0, 0, 0, 0, 0x33, 0, 0, 0x2B, 0, 0, 0, 0, 0x1_0000, 0)
  }

  lemma WideFsSelectors()
    ensures var r := WideFs();
            r.cs == 0x33 && r.ss == 0x2B && r.ds == 0 && r.es == 0 && r.fs == 0x1_0000 && r.gs == 0
  {
  }

  /** It is accepted, and yet FS reads 0 after the restore. */
  lemma WideFsIsLost()
    ensures Accepts(WideFs())
    ensures Stored(FS, WideFs().fs) == 0 != WideFs().fs
  {
    WideFsSelectors();
    hide WideFs;
  }

  /**
    `dump_regs`. Selectors come before bases: loading FS or GS replaces the hidden base, so only
    this order keeps the captured bases. A selector wider than 16 bits cannot come back.
   */
  method DumpRegs(uc: UcEngine, r: RegsX64)
    requires Accepts(r)
    modifies uc`regs
    ensures Restored(uc.regs, r) <==> r.fs < 0x1_0000 && r.gs < 0x1_0000
    ensures RegValue(uc.regs, RIP) == r.rip
  {
    DumpLegacyRegs(uc, r);
    ghost var legacy := uc.regs;
    DumpExtendedRegs(uc, r);
    LegacyKept(legacy, uc.regs, r);
    uc.RegWrite(RIP, r.rip);
    uc.RegWrite(EFLAGS, r.eflags);
    SmallSelectors(r);
    DumpFlatSelectors(uc, r);
    DumpBasedSelectors(uc, r);
    DumpBases(uc, r);
    RestoredIffNarrow(uc.regs, r);
  }

  /** `dump_x86_64_cpu_state`; None is the fatal exit. */
  method DumpCpuState(uc: UcEngine, r: RegsX64) returns (entry: Option<nat>)
    requires uc.Valid()
    modifies uc`regions, uc`regs, uc`gdtr
    ensures uc.Valid()
    ensures entry.Some? <==> GdtFits(old(uc.regions)) && Accepts(r)
    ensures || r.cs / 4 % 2 == 1 || r.ss / 4 % 2 == 1 || r.ds / 4 % 2 == 1
            || r.es / 4 % 2 == 1 || r.fs / 4 % 2 == 1 || r.gs / 4 % 2 == 1
            || r.cs / 8 != 6 || r.ss / 8 != 5 || r.ds / 8 !in {0, 5} || r.es / 8 !in {0, 5}
            ==> entry == None
    ensures entry.Some? ==>
              && entry.value == r.rip
              && uc.regions == old(uc.regions) + [GdtRegion(TableX64())] && uc.gdtr == LoadedGdtr()
              && (Restored(uc.regs, r) <==> r.fs < 0x1_0000 && r.gs < 0x1_0000)
  {
    hide Accepts, Restored, GdtRegion, TableX64, GdtFits, ValidRegions;
    AcceptsIff(r);
    var ok := DumpGdt(uc, r);
    if !ok {
      return None;
    }
    DumpRegs(uc, r);
    var rip := uc.RegRead(RIP);
    return Some(rip);
  }
}
