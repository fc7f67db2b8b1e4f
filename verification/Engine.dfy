/**
  The emulator, reduced to the rules the loader relies on. These rules are assumptions about
  Unicorn and the processor, not part of the repository:
   - `uc_mem_map` fails on an empty, misaligned, wrapping or overlapping range, else adds a
     zero-filled region;
   - `uc_mem_write` needs a region that holds the whole range, `uc_mem_protect` and
     `uc_mem_unmap` are only modelled on a whole region, which is all the loader passes;
   - writing a segment register keeps 16 bits and, for FS and GS, replaces the hidden base by
     that of the descriptor; register writes do not fail;
   - one step of an IRET at level 0 follows section "IRET" of the Intel SDM Volume 2A.
 */
module Engine {
  import opened Bytes
  import opened Bits
  import opened Descriptors
  import opened SnapshotFormat

  // ------------------------------------------------------------------ memory

  datatype Perms = Perms(read: bool, write: bool, exec: bool)

  datatype Region = Region(base: nat, data: seq<byte>, perms: Perms)
  {
    predicate Contains(address: nat, n: nat) { base <= address && address + n <= base + |data| }
  }

  type Regions = seq<Region>

  predicate Apart(a: nat, n: nat, b: nat, m: nat) { a + n <= b || b + m <= a }

  predicate Placeable(address: nat, size: nat) {
    size > 0 && address % 0x1000 == 0 && size % 0x1000 == 0 && address + size <= TWO64
  }

  predicate Clear(regions: Regions, address: nat, size: nat) {
    forall i :: 0 <= i < |regions| ==> Apart(address, size, regions[i].base, |regions[i].data|)
  }

  /** Aligned, non-empty and pairwise disjoint: what `uc_mem_map` maintains. */
  ghost predicate ValidRegions(regions: Regions) {
    && (forall i :: 0 <= i < |regions| ==> Placeable(regions[i].base, |regions[i].data|))
    && (forall i, j :: 0 <= i < j < |regions| ==>
          Apart(regions[i].base, |regions[i].data|, regions[j].base, |regions[j].data|))
  }

  /** The first region that holds all of `address .. address + n`. */
  function Find(regions: Regions, address: nat, n: nat): (i: Option<nat>)
    ensures i.Some? ==> i.value < |regions| && regions[i.value].Contains(address, n)
    ensures i.None? ==> forall j :: 0 <= j < |regions| ==> !regions[j].Contains(address, n)
  {
    if regions == [] then None
    else if regions[0].Contains(address, n) then Some(0)
    else match Find(regions[1..], address, n)
      case None => None
      case Some(k) => Some(k + 1)
  }

  lemma FindUnique(regions: Regions, i: nat, address: nat, n: nat)
    requires ValidRegions(regions) && i < |regions|
    requires n > 0 && regions[i].Contains(address, n)
    ensures Find(regions, address, n) == Some(i)
  {
    forall k | 0 <= k < |regions| && k != i
      ensures !regions[k].Contains(address, n)
    {
      OverlapExcluded(regions, if k < i then k else i, if k < i then i else k);
    }
  }

  lemma OverlapExcluded(regions: Regions, i: nat, j: nat)
    requires ValidRegions(regions) && i < j < |regions|
    ensures Apart(regions[i].base, |regions[i].data|, regions[j].base, |regions[j].data|)
  {
  }

  function Read(regions: Regions, address: nat, n: nat): (s: Option<seq<byte>>)
    ensures s.Some? ==> |s.value| == n
  {
    match Find(regions, address, n)
    case None => None
    case Some(i) =>
      var at := address - regions[i].base;
      Some(regions[i].data[at..at + n])
  }

  function Overwrite(data: seq<byte>, at: nat, bytes: seq<byte>): (r: seq<byte>)
    requires at + |bytes| <= |data|
    ensures |r| == |data|
  {
    data[..at] + bytes + data[at + |bytes|..]
  }

  // ------------------------------------------------------------------ registers

  /** Register identifiers, numbered as in an enumeration. */
  type Reg = nat

  const RAX: Reg := 0
  const RBX: Reg := 1
  const RCX: Reg := 2
  const RDX: Reg := 3
  const RSI: Reg := 4
  const RDI: Reg := 5
  const RBP: Reg := 6
  const RSP: Reg := 7
  const R8: Reg := 8
  const R9: Reg := 9
  const R10: Reg := 10
  const R11: Reg := 11
  const R12: Reg := 12
  const R13: Reg := 13
  const R14: Reg := 14
  const R15: Reg := 15
  const RIP: Reg := 16
  const EAX: Reg := 17
  const EBX: Reg := 18
  const ECX: Reg := 19
  const EDX: Reg := 20
  const ESI: Reg := 21
  const EDI: Reg := 22
  const EBP: Reg := 23
  const ESP: Reg := 24
  const EIP: Reg := 25
  const EFLAGS: Reg := 26
  const CS: Reg := 27
  const SS: Reg := 28
  const DS: Reg := 29
  const ES: Reg := 30
  const FS: Reg := 31
  const GS: Reg := 32
  const FS_BASE: Reg := 33
  const GS_BASE: Reg := 34

  /** Registers written so far; any other still has its reset value 0. */
  type RegFile = map<Reg, nat>

  function RegValue(regs: RegFile, r: Reg): nat { if r in regs then regs[r] else 0 }

  datatype Gdtr = Gdtr(base: nat, limit: nat)

  function DescriptorBytes(regions: Regions, gdtr: Gdtr, selector: nat): (s: Option<seq<byte>>)
    ensures s.Some? ==> |s.value| == 8
  {
    if 8 * (selector / 8) + 7 <= gdtr.limit then Read(regions, gdtr.base + 8 * (selector / 8), 8) else None
  }

  /** The hidden base after loading a selector; 0 for the null selector. */
  function HiddenBase(regions: Regions, gdtr: Gdtr, selector: nat): nat {
    if selector / 4 == 0 then 0
    else match DescriptorBytes(regions, gdtr, selector)
      case None => 0
      case Some(s) => BaseAt(s)
  }

  predicate IsSelector(r: Reg) { r == CS || r == SS || r == DS || r == ES || r == FS || r == GS }

  /** What a register holds after `v` was written to it: selectors have 16 bits. */
  function Stored(r: Reg, v: nat): nat { if IsSelector(r) then v % 0x1_0000 else v }

  /** The hidden base that a load of `r` replaces. */
  function BaseReg(r: Reg): Option<Reg> {
    if r == FS then Some(FS_BASE) else if r == GS then Some(GS_BASE) else None
  }

  predicate VirtualMode(eflags: nat) { (eflags / 0x2_0000) % 2 == 1 }

  /** The checks on the code segment returned to, the one on the new EIP included. */
  predicate CodeSelectorOk(regions: Regions, gdtr: Gdtr, selector: nat, eip: u32) {
    var s := DescriptorBytes(regions, gdtr, selector);
    && selector / 4 != 0 && s.Some?
    && CodeSegmentFor(WordAt(s.value), selector % 4) && InSegment(WordAt(s.value), Bits32(eip))
  }

  predicate StackSelectorOk(regions: Regions, gdtr: Gdtr, selector: nat, level: nat) {
    var s := DescriptorBytes(regions, gdtr, selector);
    selector / 4 != 0 && selector % 4 == level && s.Some? && StackSegmentFor(WordAt(s.value), level)
  }

  function ReadWord(regions: Regions, address: nat): Option<u32> {
    match Read(regions, address, 4)
    case None => None
    case Some(s) => Some(Word32(s))
  }

  /** The words IRET pops; the last two only on a return to an outer level. */
  datatype IretFrame = IretFrame(eip: u32, cs: nat, eflags: u32, esp: u32, ss: nat)

  function OuterFrame(regions: Regions, esp: nat): Option<IretFrame> {
    var eip :- ReadWord(regions, esp);
    var cs :- ReadWord(regions, esp + 4);
    var eflags :- ReadWord(regions, esp + 8);
    var newEsp :- ReadWord(regions, esp + 12);
    var ss :- ReadWord(regions, esp + 16);
    Some(IretFrame(eip, cs % 0x1_0000, eflags, newEsp, ss % 0x1_0000))
  }

  function InnerFrame(regions: Regions, esp: nat): Option<IretFrame> {
    var eip :- ReadWord(regions, esp);
    var cs :- ReadWord(regions, esp + 4);
    var eflags :- ReadWord(regions, esp + 8);
    Some(IretFrame(eip, cs % 0x1_0000, eflags, (esp + 12) % TWO32, 0))
  }

  /** The registers after a return: on the way out the data segment registers do not survive. */
  function Returned(regs: RegFile, f: IretFrame, outer: bool): RegFile {
    var near := regs[EIP := f.eip][CS := f.cs][EFLAGS := f.eflags][ESP := f.esp];
    if outer then near[SS := f.ss][DS := 0][ES := 0][FS := 0][GS := 0][FS_BASE := 0][GS_BASE := 0] else near
  }

  /**
    One IRET in 32-bit protected mode; None is a fault, or a return to virtual-8086 mode, which
    is not modelled.
   */
  function Iret(regs: RegFile, regions: Regions, gdtr: Gdtr): Option<RegFile>
  {
    var esp, level := RegValue(regs, ESP), RegValue(regs, CS) % 4;
    match InnerFrame(regions, esp)
    case None => None
    case Some(f) =>
      if VirtualMode(f.eflags) || f.cs % 4 < level || !CodeSelectorOk(regions, gdtr, f.cs, f.eip) then None
      else if f.cs % 4 == level then Some(Returned(regs, f, false))
      else
        match OuterFrame(regions, esp)
        case None => None
        case Some(g) =>
          if StackSelectorOk(regions, gdtr, g.ss, g.cs % 4) then Some(Returned(regs, g, true)) else None
  }

  predicate FetchesIret(regions: Regions, address: nat) {
    match Find(regions, address, 1)
    case None => false
    case Some(i) => regions[i].perms.exec && regions[i].data[address - regions[i].base] == 0xCF
  }

  // ------------------------------------------------------------------ the engine

  class UcEngine {
    const mode: Mode
    var regions: Regions
    var regs: RegFile
    var gdtr: Gdtr

    ghost predicate Valid()
      reads this
    {
      ValidRegions(regions)
    }

    constructor (mode: Mode)
      ensures Valid() && this.mode == mode && regions == [] && regs == map[]
    {
      this.mode := mode;
      regions, regs, gdtr := [], map[], Gdtr(0, 0);
    }

    method MemMap(address: nat, size: nat, perms: Perms) returns (ok: bool)
      requires Valid()
      modifies this`regions
      ensures Valid()
      ensures ok <==> Placeable(address, size) && Clear(old(regions), address, size)
      ensures regions == if ok then old(regions) + [Region(address, Zeros(size), perms)] else old(regions)
    {
      ok := Placeable(address, size) && Clear(regions, address, size);
      if ok {
        regions := regions + [Region(address, Zeros(size), perms)];
      }
    }

    method MemWrite(address: nat, bytes: seq<byte>) returns (ok: bool)
      requires Valid()
      modifies this`regions
      ensures Valid()
      ensures ok <==> Find(old(regions), address, |bytes|).Some?
      ensures !ok ==> regions == old(regions)
      ensures ok ==>
                var i := Find(old(regions), address, |bytes|).value;
                var r := old(regions)[i];
                regions == old(regions)[i := r.(data := Overwrite(r.data, address - r.base, bytes))]
    {
      var found := Find(regions, address, |bytes|);
      ok := found.Some?;
      if ok {
        var r := regions[found.value];
        regions := regions[found.value := r.(data := Overwrite(r.data, address - r.base, bytes))];
      }
    }

    method MemProtect(address: nat, size: nat, perms: Perms) returns (ok: bool)
      requires Valid()
      modifies this`regions
      ensures Valid()
      ensures var found := Find(old(regions), address, size);
              && (ok <==> found.Some? && old(regions)[found.value].base == address
                          && |old(regions)[found.value].data| == size)
              && regions == if ok then old(regions)[found.value := old(regions)[found.value].(perms := perms)]
                            else old(regions)
    {
      var found := Find(regions, address, size);
      ok := found.Some? && regions[found.value].base == address && |regions[found.value].data| == size;
      if ok {
        regions := regions[found.value := regions[found.value].(perms := perms)];
      }
    }

    method MemUnmap(address: nat, size: nat) returns (ok: bool)
      requires Valid()
      modifies this`regions
      ensures Valid()
      ensures var found := Find(old(regions), address, size);
              && (ok <==> found.Some? && old(regions)[found.value].base == address
                          && |old(regions)[found.value].data| == size)
              && regions == if ok then old(regions)[..found.value] + old(regions)[found.value + 1..]
                            else old(regions)
    {
      var found := Find(regions, address, size);
      ok := found.Some? && regions[found.value].base == address && |regions[found.value].data| == size;
      if ok {
        regions := regions[..found.value] + regions[found.value + 1..];
      }
    }

    /** `uc_reg_write` of a register without a hidden part the loader depends on. */
    method RegWrite(r: Reg, v: nat)
      requires BaseReg(r).None?
      modifies this`regs
      ensures forall q :: RegValue(regs, q) == if q == r then Stored(r, v) else old(RegValue(regs, q))
    {
      regs := regs[r := Stored(r, v)];
    }

    /** `uc_reg_write` of FS or GS. */
    method SegmentWrite(r: Reg, v: nat)
      requires BaseReg(r).Some?
      modifies this`regs
      ensures RegValue(regs, r) == Stored(r, v)
      ensures RegValue(regs, BaseReg(r).value) == HiddenBase(regions, gdtr, Stored(r, v))
      ensures forall q :: q != r && q != BaseReg(r).value ==> RegValue(regs, q) == old(RegValue(regs, q))
    {
      regs := regs[r := Stored(r, v)][BaseReg(r).value := HiddenBase(regions, gdtr, Stored(r, v))];
    }

    method RegRead(r: Reg) returns (v: nat)
      ensures v == RegValue(regs, r)
    {
      v := RegValue(regs, r);
    }

    method GdtrWrite(base: nat, limit: nat)
      modifies this`gdtr
      ensures gdtr == Gdtr(base, limit)
    {
      gdtr := Gdtr(base, limit);
    }

    /** `uc_emu_start` for one instruction; only IRET from executable memory is modelled. */
    method EmuStartOne(begin: nat) returns (ok: bool)
      requires mode == Mode32
      modifies this`regs
      ensures ok <==> FetchesIret(regions, begin) && Iret(old(regs), regions, gdtr).Some?
      ensures ok ==> Iret(old(regs), regions, gdtr) == Some(regs)
      ensures !ok ==> regs == old(regs)
    {
      var after := Iret(regs, regions, gdtr);
      ok := FetchesIret(regions, begin) && after.Some?;
      if ok {
        regs := after.value;
      }
    }
  }
}
