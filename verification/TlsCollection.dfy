/**
  The i386 snapshotter's collection of TLS segments for either kernel layout, and what the
  loader's table then holds.
 */
module TlsCollection {
  import opened Bytes
  import opened Bits
  import opened SnapshotFormat
  import opened Descriptors
  import opened Engine
  import opened GdtTable
  import opened CpuStateI386

  const TLS_MIN_TRUE_I386: nat := 6
  const TLS_MIN_COMPATIBILITY: nat := 12

  /** `PTRACE_GET_THREAD_AREA` by index; None is its -1. */
  type ThreadArea = nat -> Option<UserDesc>

  function TlsMin(area: ThreadArea): nat {
    if area(6).Some? then TLS_MIN_TRUE_I386 else TLS_MIN_COMPATIBILITY
  }

  /** The answer for the k-th TLS slot of the layout that was detected. */
  function TlsAnswer(area: ThreadArea, k: nat): Option<UserDesc> { area(TlsMin(area) + k) }

  /** The TLS part of `create_snapshot`; false is the fatal exit. */
  method CollectTls(area: ThreadArea, tls: array<UserDesc>) returns (ok: bool)
    requires tls.Length == TLS_ENTRIES
    modifies tls
    ensures ok <==> forall k :: 0 <= k < TLS_ENTRIES ==> TlsAnswer(area, k).Some?
    ensures ok ==> forall k :: 0 <= k < TLS_ENTRIES ==> TlsAnswer(area, k) == Some(tls[k])
  {
    var start, min := TLS_MIN_TRUE_I386 + 1, TLS_MIN_TRUE_I386;
    var end := start + TLS_ENTRIES - 1;
    var first := area(min);
    if first.Some? {
      tls[0] := first.value;
    } else {
      min := TLS_MIN_COMPATIBILITY;
      start := TLS_MIN_COMPATIBILITY;
      end := start + TLS_ENTRIES;
    }
    for i := start to end
      invariant forall k :: 0 <= k < i - min ==> TlsAnswer(area, k) == Some(tls[k])
    {
      var d := area(i);
      if d.None? {
        assert TlsAnswer(area, i - min).None?;
        return false;
      }
      tls[i - min] := d.value;
    }
    return true;
  }

  /** The answers that were collected: those for the slots of the layout that was detected. */
  ghost predicate Answered(area: ThreadArea, tls: TlsArray) {
    forall k :: 0 <= k < TLS_ENTRIES ==> TlsAnswer(area, k) == Some(tls[k])
  }

  /** `create_snapshot` on i386: the registers, then the TLS entries; None is the fatal exit. */
  method CreateSnapshot(regs: RegsI386, area: ThreadArea, garbage: TlsArray) returns (st: Option<I386State>)
    ensures st.Some? <==> forall k :: 0 <= k < TLS_ENTRIES ==> TlsAnswer(area, k).Some?
    ensures st.Some? ==> st.value.regs == regs && Answered(area, st.value.tls)
  {
    var tls := new UserDesc[TLS_ENTRIES](i requires 0 <= i < TLS_ENTRIES => garbage[i]);
    var ok := CollectTls(area, tls);
    return if ok then Some(I386State(regs, tls[..])) else None;
  }

  // ------------------------------------------------------------------ the two kernel layouts

  datatype Layout = TrueI386 | Compatibility
  {
    function Min(): nat { if TrueI386? then 6 else 12 }
    function CodeSlot(): nat { if TrueI386? then 14 else 4 }
    function StackSlot(): nat { if TrueI386? then 15 else 5 }

    /** Which TLS entry slot `i` belongs to. */
    function TlsIndex(i: nat): Option<nat> {
      if Min() <= i < Min() + TLS_ENTRIES then Some(i - Min()) else None
    }
  }

  /** A kernel of this layout answers for its three TLS slots, naming each, and for no other. */
  ghost predicate Answers(layout: Layout, area: ThreadArea) {
    forall i: nat :: (area(i).Some? <==> layout.TlsIndex(i).Some?)
                     && (area(i).Some? ==> area(i).value.entry_number == i)
  }

  /** The selectors of code and stack at user level under such a kernel. */
  predicate UserSelectors(layout: Layout, r: RegsI386) {
    r.xcs == 8 * layout.CodeSlot() + 3 && r.xss == 8 * layout.StackSlot() + 3
  }

  /** A state captured from a user-level thread under such a kernel. */
  ghost predicate Collected(layout: Layout, st: I386State) {
    && (forall k :: 0 <= k < TLS_ENTRIES ==> st.tls[k].entry_number == layout.Min() + k)
    && UserSelectors(layout, st.regs)
  }

  /** Collection succeeds under both kernels and brings the entries of that kernel's slots. */
  lemma CollectionFindsLayout(layout: Layout, area: ThreadArea, k: nat)
    requires Answers(layout, area) && k < TLS_ENTRIES
    ensures TlsMin(area) == layout.Min()
    ensures TlsAnswer(area, k).Some? && TlsAnswer(area, k).value.entry_number == layout.Min() + k
  {
    assert area(6).Some? <==> layout.TlsIndex(6).Some?;
    var i := layout.Min() + k;
    assert area(i).Some? <==> layout.TlsIndex(i).Some?;
  }

  /** What `create_snapshot` collects at user level is a collected state, entry by entry. */
  lemma AnsweredIsCollected(layout: Layout, area: ThreadArea, st: I386State)
    requires Answers(layout, area) && Answered(area, st.tls) && UserSelectors(layout, st.regs)
    ensures Collected(layout, st)
    ensures forall k :: 0 <= k < TLS_ENTRIES ==> area(layout.Min() + k) == Some(st.tls[k])
  {
    forall k | 0 <= k < TLS_ENTRIES
      ensures st.tls[k].entry_number == layout.Min() + k && area(layout.Min() + k) == Some(st.tls[k])
    {
      CollectionFindsLayout(layout, area, k);
    }
  }

  /** The table a collected state is meant to get: no two families of slots collide. */
  function CollectedWord(layout: Layout, st: I386State, i: nat): bv64 {
    if layout.TlsIndex(i).Some? then UserDescWord(st.tls[layout.TlsIndex(i).value])
    else if i == layout.StackSlot() then FLAT_DATA
    else if i == layout.CodeSlot() then CODE32
    else 0
  }

  lemma CollectedSlot(layout: Layout, st: I386State, i: nat)
    requires Collected(layout, st)
    ensures SlotI386(st, i) == CollectedWord(layout, st, i)
  {
    hide UserDescWord;
    SlotUnfolds(st, i);
  }

  /** Three TLS descriptors, code and data at their selectors, and zero in every other slot. */
  lemma CollectedTable(layout: Layout, st: I386State)
    requires Collected(layout, st)
    ensures InTable(st)
    ensures forall i :: 0 <= i < GDT_SLOTS ==> TableI386(st)[i] == CollectedWord(layout, st, i)
  {
    TableSlots(st);
    forall i | 0 <= i < GDT_SLOTS
      ensures TableI386(st)[i] == CollectedWord(layout, st, i)
    {
      CollectedSlot(layout, st, i);
    }
  }

  lemma SlotUnfolds(st: I386State, i: nat)
    ensures SlotI386(st, i) ==
              if i == st.tls[2].entry_number then UserDescWord(st.tls[2])
              else if i == st.tls[1].entry_number then UserDescWord(st.tls[1])
              else if i == st.tls[0].entry_number then UserDescWord(st.tls[0])
              else SlotAfter(st, 0, i)
  {
    assert SlotAfter(st, 3, i) == if i == st.tls[2].entry_number then UserDescWord(st.tls[2]) else SlotAfter(st, 2, i);
    assert SlotAfter(st, 2, i) == if i == st.tls[1].entry_number then UserDescWord(st.tls[1]) else SlotAfter(st, 1, i);
  }

  lemma CollectedSelectors(layout: Layout, st: I386State)
    requires Collected(layout, st)
    ensures layout.CodeSlot() == st.regs.xcs / 8 && st.regs.xcs % 4 == 3
    ensures layout.StackSlot() == st.regs.xss / 8 && st.regs.xss % 4 == 3
  {
  }

  lemma CollectedFlatSlots(layout: Layout, st: I386State)
    requires Collected(layout, st)
    ensures TableI386(st)[layout.CodeSlot()] == CODE32 && TableI386(st)[layout.StackSlot()] == FLAT_DATA
  {
    TableSlots(st);
    CollectedSlot(layout, st, layout.CodeSlot());
    CollectedSlot(layout, st, layout.StackSlot());
  }

  lemma CollectedTlsSlot(layout: Layout, st: I386State, k: nat, slot: nat)
    requires Collected(layout, st) && k < TLS_ENTRIES && slot == layout.Min() + k
    ensures TableI386(st)[slot] == UserDescWord(st.tls[k])
  {
    TableSlots(st);
    CollectedSlot(layout, st, slot);
  }

  /** What the processor finds at the code and stack selectors: flat 32-bit segments of level 3. */
  lemma CollectedSegments(layout: Layout, st: I386State, regions: Regions, g: nat)
    requires Collected(layout, st)
    requires ValidRegions(regions) && g < |regions| && regions[g] == GdtRegion(TableI386(st))
    ensures DescriptorBytes(regions, Gdtr(0x3000, 0xFFF), st.regs.xcs) == Some([0xFF, 0xFF, 0, 0, 0, 0xFB, 0xCF, 0])
    ensures DescriptorBytes(regions, Gdtr(0x3000, 0xFFF), st.regs.xss) == Some([0xFF, 0xFF, 0, 0, 0, 0xF3, 0xCF, 0])
  {
    hide ValidRegions, TableI386, GdtRegion, DescriptorBytes;
    CollectedSelectors(layout, st);
    CollectedFlatSlots(layout, st);
    DescriptorFromTable(regions, g, TableI386(st), st.regs.xcs);
    DescriptorFromTable(regions, g, TableI386(st), st.regs.xss);
    SegmentBytes();
  }

  lemma FlatSegmentsEnter(st: I386State, cs: nat, ss: nat)
    requires InTable(st) && Accepts(st.regs)
    requires cs == st.regs.xcs / 8 && TableI386(st)[cs] == CODE32 && st.regs.xcs % 4 == 3
    requires ss == st.regs.xss / 8 && TableI386(st)[ss] == FLAT_DATA && st.regs.xss % 4 == 3 && ss != 0
    ensures EntersUserLevel(st) <==> !VirtualMode(st.regs.eflags)
  {
    LoaderSegments(3);
    FlatCodeHasAll(Bits32(st.regs.eip));
  }

  /** The processor takes the IRET frame of every collected state that is not in virtual mode. */
  lemma CollectedEnters(layout: Layout, st: I386State)
    requires Collected(layout, st) && InTable(st) && Accepts(st.regs)
    ensures EntersUserLevel(st) <==> !VirtualMode(st.regs.eflags)
  {
    CollectedSelectors(layout, st);
    CollectedFlatSlots(layout, st);
    FlatSegmentsEnter(st, layout.CodeSlot(), layout.StackSlot());
  }

  /** A restored thread finds its TLS block: the hidden base is the one the tracee had. */
  lemma TlsBaseRestored(layout: Layout, st: I386State, regions: Regions, g: nat, selector: nat, k: nat)
    requires Collected(layout, st) && InTable(st) && k < TLS_ENTRIES
    requires ValidRegions(regions) && g < |regions| && regions[g] == GdtRegion(TableI386(st))
    requires selector / 8 == layout.Min() + k
    ensures HiddenBase(regions, LoadedGdtr(), selector) == st.tls[k].base_addr
  {
    var slot := layout.Min() + k;
    CollectedTlsSlot(layout, st, k, slot);
    HiddenBaseFromTable(regions, g, TableI386(st), selector, slot);
    BaseOfUserDesc(st.tls[k]);
  }
}
