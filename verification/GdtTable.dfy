/** The 512-slot descriptor table both loaders build, store in the engine and point GDTR at. */
module GdtTable {
  import opened Bytes
  import opened Bits
  import opened Descriptors
  import opened Engine
  import opened RecordLoader

  const GDT_ADDR: nat := 0x3000
  const GDT_SIZE: nat := 0x1000
  const GDT_SLOTS: nat := 512
  const READ_ONLY: Perms := Perms(true, false, false)
  const READ_WRITE: Perms := Perms(true, true, false)

  type Table = t: seq<bv64> | |t| == GDT_SLOTS witness seq(GDT_SLOTS, _ => 0)

  /** The table as the bytes that go to `uc_mem_write`. */
  function TableBytes(t: seq<bv64>): (s: seq<byte>)
    ensures |s| == 8 * |t|
  {
    if t == [] then [] else WordBytes(t[0]) + TableBytes(t[1..])
  }

  lemma {:induction false} SlotBytes(t: seq<bv64>, i: nat, at: nat)
    requires i < |t| && at == 8 * i
    ensures at + 8 <= |TableBytes(t)| && TableBytes(t)[at..at + 8] == WordBytes(t[i])
  {
    var s := TableBytes(t);
    if i == 0 {
      assert s[0..8] == WordBytes(t[0]);
    } else {
      SlotBytes(t[1..], i - 1, at - 8);
      assert s[8..] == TableBytes(t[1..]);
      assert s[at..at + 8] == s[8..][at - 8..at];
    }
  }

  predicate LocalTable(selector: nat) { (selector / 4) % 2 == 1 }

  ghost predicate GdtFits(regions: Regions) { Fits(regions, Region(GDT_ADDR, Zeros(GDT_SIZE), READ_WRITE)) }

  /**
    How a restore ends. `Fatal` leaves the process; `Overrun` is a write past the table at an index
    taken from the file, which the code does not check and after which nothing is promised.
   */
  datatype Outcome<+T> = Done(value: T) | Fatal | Overrun

  function GdtRegion(t: Table): Region { Region(GDT_ADDR, TableBytes(t), READ_ONLY) }

  function LoadedGdtr(): Gdtr { Gdtr(GDT_ADDR, GDT_SIZE - 1) }

  /** The page by its address, size and permissions: the processor and the program can only read it. */
  lemma GdtPage(t: Table)
    ensures var page := GdtRegion(t);
            page.base == 0x3000 && |page.data| == 0x1000
            && page.perms.read && !page.perms.write && !page.perms.exec
  {
  }

  /** The end of both `dump_gdt`s: the table into its page, the page read-only, GDTR to it. */
  method StoreTable(uc: UcEngine, gdt: array<bv64>, ghost before: Regions)
    returns (ok: bool)
    requires uc.Valid() && gdt.Length == GDT_SLOTS
    requires uc.regions == before + [Region(GDT_ADDR, Zeros(GDT_SIZE), READ_WRITE)]
    modifies uc`regions, uc`gdtr
    ensures uc.Valid()
    ensures ok && uc.regions == before + [GdtRegion(gdt[..])]
    ensures uc.gdtr == LoadedGdtr()
  {
    ghost var k := |before|;
    var bytes := TableBytes(gdt[..]);
    FindUnique(uc.regions, k, GDT_ADDR, GDT_SIZE);
    ok := uc.MemWrite(GDT_ADDR, bytes);
    assert uc.regions[k].data == bytes;
    FindUnique(uc.regions, k, GDT_ADDR, GDT_SIZE);
    ok := uc.MemProtect(GDT_ADDR, GDT_SIZE, READ_ONLY);
    assert uc.regions[..k] == before;
    assert uc.regions == uc.regions[..k] + [uc.regions[k]];
    uc.GdtrWrite(GDT_ADDR, GDT_SIZE - 1);
  }

  /** In an engine that holds the table, the processor finds slot `selector / 8` of it. */
  lemma DescriptorFromTable(regions: Regions, k: nat, t: Table, selector: nat)
    requires ValidRegions(regions) && k < |regions| && regions[k] == GdtRegion(t)
    requires selector < 0x1000
    ensures DescriptorBytes(regions, LoadedGdtr(), selector) == Some(WordBytes(t[selector / 8]))
  {
    var i := selector / 8;
    var at := 8 * i;
    SlotBytes(t, i, at);
    FindUnique(regions, k, GDT_ADDR + at, 8);
  }

  lemma CodeSelectorInTable(regions: Regions, k: nat, t: Table, selector: nat, eip: u32)
    requires ValidRegions(regions) && k < |regions| && regions[k] == GdtRegion(t)
    requires selector < 0x1000
    ensures CodeSelectorOk(regions, LoadedGdtr(), selector, eip) <==>
              selector / 4 != 0 && CodeSegmentFor(t[selector / 8], selector % 4)
              && InSegment(t[selector / 8], Bits32(eip))
  {
    DescriptorFromTable(regions, k, t, selector);
    WordRoundTrip(t[selector / 8]);
  }

  lemma StackSelectorInTable(regions: Regions, k: nat, t: Table, selector: nat, level: nat)
    requires ValidRegions(regions) && k < |regions| && regions[k] == GdtRegion(t)
    requires selector < 0x1000
    ensures StackSelectorOk(regions, LoadedGdtr(), selector, level) <==>
              selector / 4 != 0 && selector % 4 == level && StackSegmentFor(t[selector / 8], level)
  {
    DescriptorFromTable(regions, k, t, selector);
    WordRoundTrip(t[selector / 8]);
  }

  lemma HiddenBaseFromTable(regions: Regions, k: nat, t: Table, selector: nat, slot: nat)
    requires ValidRegions(regions) && k < |regions| && regions[k] == GdtRegion(t)
    requires slot == selector / 8 && 0 < slot < GDT_SLOTS
    ensures HiddenBase(regions, LoadedGdtr(), selector) == BaseAt(WordBytes(t[slot]))
  {
    DescriptorFromTable(regions, k, t, selector);
  }
}
