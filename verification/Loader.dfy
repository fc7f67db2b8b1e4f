/** The loader's `dump_snapshot`: state, mapping records, then the processor state. */
module Loader {
  import opened Bytes
  import opened SnapshotFormat
  import opened Engine
  import opened RecordLoader
  import opened GdtTable
  import X64 = CpuStateX64
  import opened StateLayout
  import I386 = CpuStateI386

  function InstructionPointer(st: ProcessState): nat {
    match st case X8664(r) => r.rip case I386(i) => i.regs.eip
  }

  function TableOf(st: ProcessState): Table {
    match st case X8664(_) => X64.TableX64() case I386(i) => I386.TableI386(i)
  }

  /** When the processor half of the restore goes through, given what memory already holds. */
  ghost predicate CpuAccepted(st: ProcessState, regions: Regions) {
    GdtFits(regions)
    && match st
       case X8664(r) => X64.Accepts(r)
       case I386(i) =>
         I386.TrampolineFits(regions) && I386.Accepts(i.regs) && I386.InTable(i) && I386.EntersUserLevel(i)
  }

  /** When it writes past the table instead. */
  ghost predicate CpuOverruns(st: ProcessState, regions: Regions) {
    st.I386? && GdtFits(regions) && I386.Accepts(st.i386.regs) && !I386.InTable(st.i386)
  }

  ghost predicate CpuRestored(f: RegFile, st: ProcessState) {
    match st case X8664(r) => X64.Restored(f, r) case I386(i) => I386.Restored(f, i.regs)
  }

  /** The selectors that are written to 16-bit registers fit them. */
  predicate Narrow(st: ProcessState) {
    match st
    case X8664(r) => r.fs < 0x1_0000 && r.gs < 0x1_0000
    case I386(i) => I386.NarrowData(i.regs)
  }

  function TlsSelectors(st: ProcessState): (nat, nat)
    requires st.I386?
  {
    (st.i386.regs.xfs % 0x1_0000, st.i386.regs.xgs % 0x1_0000)
  }

  /** The processor half of a restore: from `before` to `after`, the registers and GDTR. */
  ghost predicate CpuInstalled(st: ProcessState, before: Regions, after: Regions, f: RegFile, gdtr: Gdtr, entry: nat) {
    && entry == InstructionPointer(st)
    && after == before + [GdtRegion(TableOf(st))]
    && gdtr == LoadedGdtr()
    && (CpuRestored(f, st) <==> Narrow(st))
    && (st.I386? ==>
          && RegValue(f, FS_BASE) == HiddenBase(after, gdtr, TlsSelectors(st).0)
          && RegValue(f, GS_BASE) == HiddenBase(after, gdtr, TlsSelectors(st).1))
  }

  /** `dump_cpu_state`, which dispatches on the engine's mode. */
  method DumpCpuState(uc: UcEngine, st: ProcessState) returns (entry: Outcome<nat>)
    requires uc.Valid() && st.Mode() == uc.mode
    requires uc.mode == Mode32 ==> RegValue(uc.regs, CS) % 4 == 0
    modifies uc`regions, uc`regs, uc`gdtr
    ensures uc.Valid()
    ensures entry.Done? <==> CpuAccepted(st, old(uc.regions))
    ensures entry.Overrun? <==> CpuOverruns(st, old(uc.regions))
    ensures entry.Done? ==> CpuInstalled(st, old(uc.regions), uc.regions, uc.regs, uc.gdtr, entry.value)
  {
    match st
    case X8664(r) =>
      var ip := X64.DumpCpuState(uc, r);
      entry := if ip.Some? then Done(ip.value) else Fatal;
    case I386(i) => entry := I386.DumpCpuState(uc, i);
  }

  /** The captured state and the regions, if the whole file is well formed and can be placed. */
  function ParseAndPlace(regions: Regions, mode: Mode, data: seq<byte>): Option<(ProcessState, Regions)> {
    if |data| < StateSize(mode) then None
    else
      match LoadFrom(regions, data[StateSize(mode)..])
      case None => None
      case Some(placed) => Some((DecodeState(mode, data[..StateSize(mode)]), placed))
  }

  /** The first half of `dump_snapshot`, up to the processor state. */
  method LoadStateAndRecords(uc: UcEngine, data: seq<byte>) returns (state: Option<ProcessState>)
    requires uc.Valid()
    modifies uc`regions
    ensures uc.Valid()
    ensures state.Some? <==> ParseAndPlace(old(uc.regions), uc.mode, data).Some?
    ensures state.Some? ==> ParseAndPlace(old(uc.regions), uc.mode, data) == Some((state.value, uc.regions))
  {
    if |data| == 0 {
      return None;
    }
    var read, stateBytes, offset := ReadBytes(data, 0, StateSize(uc.mode));
    if !read {
      return None;
    }
    var loaded, count := LoadRecords(uc, data, offset);
    if !loaded {
      return None;
    }
    return Some(DecodeState(uc.mode, stateBytes));
  }

  /**
    `dump_snapshot`, on any file. A normal return means that the whole file was well formed,
    every record has its region, and the processor holds the captured state.
   */
  method DumpSnapshot(uc: UcEngine, data: seq<byte>) returns (entry: Outcome<nat>)
    requires uc.Valid()
    requires uc.mode == Mode32 ==> RegValue(uc.regs, CS) % 4 == 0
    modifies uc`regions, uc`regs, uc`gdtr
    ensures uc.Valid()
    ensures var loaded := ParseAndPlace(old(uc.regions), uc.mode, data);
            && (entry.Done? <==> loaded.Some? && CpuAccepted(loaded.value.0, loaded.value.1))
            && (entry.Overrun? <==> loaded.Some? && CpuOverruns(loaded.value.0, loaded.value.1))
            && (entry.Done? ==>
                  CpuInstalled(loaded.value.0, loaded.value.1, uc.regions, uc.regs, uc.gdtr, entry.value))
  {
    var state := LoadStateAndRecords(uc, data);
    if state.None? {
      return Fatal;
    }
    StateHasMode(old(uc.regions), uc.mode, data);
    entry := DumpCpuState(uc, state.value);
  }

  lemma StateHasMode(regions: Regions, mode: Mode, data: seq<byte>)
    ensures ParseAndPlace(regions, mode, data).Some? ==> ParseAndPlace(regions, mode, data).value.0.Mode() == mode
  {
  }

  /** Which bytes of a file with state `r` each restored register has, in the layout of the C structure. */
  lemma X64RegistersFromFile(data: seq<byte>, r: RegsX64, f: RegFile)
    requires data == EncodeState(X8664(r)) && X64.Restored(f, r)
    ensures |data| == 216
    ensures
      && data[0..8] == LittleEndian(8, RegValue(f, R15)) && data[8..16] == LittleEndian(8, RegValue(f, R14))
      && data[16..24] == LittleEndian(8, RegValue(f, R13)) && data[24..32] == LittleEndian(8, RegValue(f, R12))
      && data[32..40] == LittleEndian(8, RegValue(f, RBP)) && data[40..48] == LittleEndian(8, RegValue(f, RBX))
      && data[48..56] == LittleEndian(8, RegValue(f, R11)) && data[56..64] == LittleEndian(8, RegValue(f, R10))
      && data[64..72] == LittleEndian(8, RegValue(f, R9)) && data[72..80] == LittleEndian(8, RegValue(f, R8))
      && data[80..88] == LittleEndian(8, RegValue(f, RAX)) && data[88..96] == LittleEndian(8, RegValue(f, RCX))
      && data[96..104] == LittleEndian(8, RegValue(f, RDX)) && data[104..112] == LittleEndian(8, RegValue(f, RSI))
      && data[112..120] == LittleEndian(8, RegValue(f, RDI)) && data[128..136] == LittleEndian(8, RegValue(f, RIP))
      && data[136..144] == LittleEndian(8, RegValue(f, CS)) && data[144..152] == LittleEndian(8, RegValue(f, EFLAGS))
      && data[152..160] == LittleEndian(8, RegValue(f, RSP)) && data[160..168] == LittleEndian(8, RegValue(f, SS))
      && data[168..176] == LittleEndian(8, RegValue(f, FS_BASE)) && data[176..184] == LittleEndian(8, RegValue(f, GS_BASE))
      && data[184..192] == LittleEndian(8, RegValue(f, DS)) && data[192..200] == LittleEndian(8, RegValue(f, ES))
      && data[200..208] == LittleEndian(8, RegValue(f, FS)) && data[208..216] == LittleEndian(8, RegValue(f, GS))
  {
    hide EncodeState, LittleEndian;
    X64Layout(r);
  }

  lemma I386RegistersFromFile(data: seq<byte>, i: I386State, f: RegFile)
    requires data == EncodeState(ProcessState.I386(i)) && I386.Restored(f, i.regs)
    ensures |data| == 116
    ensures
      && data[0..4] == LittleEndian(4, RegValue(f, EBX)) && data[4..8] == LittleEndian(4, RegValue(f, ECX))
      && data[8..12] == LittleEndian(4, RegValue(f, EDX)) && data[12..16] == LittleEndian(4, RegValue(f, ESI))
      && data[16..20] == LittleEndian(4, RegValue(f, EDI)) && data[20..24] == LittleEndian(4, RegValue(f, EBP))
      && data[24..28] == LittleEndian(4, RegValue(f, EAX)) && data[28..32] == LittleEndian(4, RegValue(f, DS))
      && data[32..36] == LittleEndian(4, RegValue(f, ES)) && data[36..40] == LittleEndian(4, RegValue(f, FS))
      && data[40..44] == LittleEndian(4, RegValue(f, GS)) && data[48..52] == LittleEndian(4, RegValue(f, EIP))
      && data[52..56] == LittleEndian(4, RegValue(f, CS)) && data[56..60] == LittleEndian(4, RegValue(f, EFLAGS))
      && data[60..64] == LittleEndian(4, RegValue(f, ESP)) && data[64..68] == LittleEndian(4, RegValue(f, SS))
  {
    hide EncodeState, LittleEndian;
    I386Layout(i);
  }
}
