/**
  Segment descriptors: the two packings of `gdt_utils.h`, and the layout of section 3.4.5 of the
  Intel SDM Volume 3A that both have to produce.
 */
module Descriptors {
  import opened Bytes
  import opened Bits
  import opened SnapshotFormat

  // ------------------------------------------------------------------ the processor's layout

  /** The fields of a segment descriptor; single-bit fields are 0 or 1. */
  datatype Descriptor = Descriptor(base: bv32, limit: bv32, kind: bv64, system: bv64, dpl: bv64, present: bv64,
                                   available: bv64, long: bv64, big: bv64, granularity: bv64)

  function BaseOf(w: bv64): bv32 {
    (((w >> 16) & 0xFF_FFFF) | (((w >> 56) & 0xFF) << 24)) as bv32
  }

  function LimitOf(w: bv64): bv32 {
    ((w & 0xFFFF) | (((w >> 48) & 0xF) << 16)) as bv32
  }

  function Decode(w: bv64): Descriptor {
    Descriptor(BaseOf(w), LimitOf(w), (w >> 40) & 0xF, (w >> 44) & 1, (w >> 45) & 3, (w >> 47) & 1,
               (w >> 52) & 1, (w >> 53) & 1, (w >> 54) & 1, (w >> 55) & 1)
  }

  // ------------------------------------------------------------------ GDT_ENTRY_INIT

  const DESC_DATA: bv64 := 0x10 | 0x80 | 0x01 | 0x02
  const DESC_CODE: bv64 := 0x10 | 0x80 | 0x01 | 0x02 | 0x08
  const DESC_CODE32: bv64 := DESC_CODE | 0x8000 | 0x4000
  const DESC_DATA64: bv64 := DESC_DATA | 0x8000 | 0x4000
  const DESC_CODE64: bv64 := DESC_CODE | 0x8000 | 0x2000
  const DESC_USER: bv64 := 3 << 5

  function GdtEntryInit(flags: bv64, base: bv64, limit: bv64): bv64 {
    (limit & 0xFFFF)
    | ((base & 0xFFFF) << 16)
    | ((base & 0xFF_0000) << 16)
    | ((flags & 0x000F) << 40)
    | ((flags & 0x0010) << 40)
    | ((flags & 0x0060) << 40)
    | ((flags & 0x0080) << 40)
    | ((limit & 0xF_0000) << 32)
    | ((flags & 0x1000) << 40)
    | ((flags & 0x2000) << 40)
    | ((flags & 0x4000) << 40)
    | ((flags & 0x8000) << 40)
    | ((base & 0xFF00_0000) << 32)
  }

  /** The segments the loader gives the code and the stack: flat, 4 GiB, user level. */
  const CODE32: bv64 := GdtEntryInit(DESC_CODE32 | DESC_USER, 0, 0xF_FFFF)
  const CODE64: bv64 := GdtEntryInit(DESC_CODE64 | DESC_USER, 0, 0xF_FFFF)
  const FLAT_DATA: bv64 := GdtEntryInit(DESC_DATA64 | DESC_USER, 0, 0xF_FFFF)

  /** All sixteen attribute bits, base and 20-bit limit land where the processor looks for them. */
  lemma GdtEntryInitLayout(flags: bv64, base: bv32, limit: bv32)
    ensures var w := GdtEntryInit(flags, base as bv64, limit as bv64);
            Decode(w) == Descriptor(base, limit & 0xF_FFFF, flags & 0xF, (flags >> 4) & 1, (flags >> 5) & 3,
                                    (flags >> 7) & 1, (flags >> 12) & 1, (flags >> 13) & 1,
                                    (flags >> 14) & 1, (flags >> 15) & 1)
  {
  }

  // ------------------------------------------------------------------ USER_DESC_TO_REAL_DESC

  // The bit fields of `struct user_desc`, as the compiler lays them out in its last word.
  function Seg32Bit(bits: bv32): bv64 { (bits & 1) as bv64 }
  function ContentsField(bits: bv32): bv64 { ((bits >> 1) & 3) as bv64 }
  function ReadExecOnly(bits: bv32): bv64 { ((bits >> 3) & 1) as bv64 }
  function LimitInPages(bits: bv32): bv64 { ((bits >> 4) & 1) as bv64 }
  function SegNotPresent(bits: bv32): bv64 { ((bits >> 5) & 1) as bv64 }
  function Useable(bits: bv32): bv64 { ((bits >> 6) & 1) as bv64 }

  function PackUserDesc(base: bv32, limit: bv32, bits: bv32): bv64 {
    ((limit & 0xFFFF) as bv64)
    | (((base & 0xFFFF) as bv64) << 16)
    | ((((base >> 16) as bv64) & 0xFF) << 32)
    | ((((ReadExecOnly(bits) ^ 1) << 1) | (ContentsField(bits) << 2) | 1) << 40)
    | ((1 as bv64) << 44) | ((3 as bv64) << 45)
    | ((SegNotPresent(bits) ^ 1) << 47)
    | ((((limit >> 16) as bv64) & 0xF) << 48)
    | (Useable(bits) << 52)
    | (Seg32Bit(bits) << 54)
    | (LimitInPages(bits) << 55)
    | ((((base >> 24) as bv64) & 0xFF) << 56)
  }

  function UserDescWord(d: UserDesc): bv64 {
    PackUserDesc(Bits32(d.base_addr), Bits32(d.limit), Bits32(d.flags))
  }

  /** Nothing of a `user_desc` is lost but the limit above 20 bits; the level is always 3. */
  lemma PackUserDescLossless(base: bv32, limit: bv32, bits: bv32)
    ensures Decode(PackUserDesc(base, limit, bits))
         == Descriptor(base, limit & 0xF_FFFF,
                       ((ReadExecOnly(bits) ^ 1) << 1) | (ContentsField(bits) << 2) | 1,
                       1, 3, SegNotPresent(bits) ^ 1,
                       Useable(bits), 0, Seg32Bit(bits), LimitInPages(bits))
  {
  }

  /** The attribute word that `GDT_ENTRY_INIT` would be given for the same segment. */
  function AttributesOf(bits: bv32): bv64 {
    ((ReadExecOnly(bits) ^ 1) << 1) | (ContentsField(bits) << 2) | 1 | 0x10 | (3 << 5)
    | ((SegNotPresent(bits) ^ 1) << 7) | (Useable(bits) << 12) | (Seg32Bit(bits) << 14) | (LimitInPages(bits) << 15)
  }

  lemma PackingsAgree(base: bv32, limit: bv32, bits: bv32)
    ensures PackUserDesc(base, limit, bits) == GdtEntryInit(AttributesOf(bits), base as bv64, limit as bv64)
  {
  }

  /** Reads the `user_desc` bit fields back out of a descriptor word. */
  function UserBitsOf(w: bv64): bv32 {
    ((((w >> 54) & 1) | (((w >> 42) & 3) << 1) | ((((w >> 41) & 1) ^ 1) << 3) | (((w >> 55) & 1) << 4)
      | ((((w >> 47) & 1) ^ 1) << 5) | (((w >> 52) & 1) << 6)) & 0x7F) as bv32
  }

  /** The packing has an inverse, so two segments with the same word are the same segment. */
  lemma UnpackUserDesc(base: bv32, limit: bv32, bits: bv32)
    ensures var w := PackUserDesc(base, limit, bits);
            BaseOf(w) == base && LimitOf(w) == limit & 0xF_FFFF && UserBitsOf(w) == bits & 0x7F
  {
  }

  // ------------------------------------------------------------------ descriptors in memory

  /** The base address in a descriptor's eight bytes. */
  function BaseAt(s: seq<byte>): u32
    requires |s| == 8
  {
    Number32(BaseOf(WordAt(s)))
  }

  /** What the processor takes from a packed `user_desc` as base is what the tracee had. */
  lemma BaseOfUserDesc(d: UserDesc)
    ensures BaseAt(WordBytes(UserDescWord(d))) == d.base_addr
  {
    WordRoundTrip(UserDescWord(d));
    PackUserDescLossless(Bits32(d.base_addr), Bits32(d.limit), Bits32(d.flags));
    Number32RoundTrip(d.base_addr);
  }

  function LevelBits(level: nat): bv64 {
    if level == 0 then 0 else if level == 1 then 1 else if level == 2 then 2 else 3
  }

  /** The eight bytes of the three segments, as the processor finds them in memory. */
  lemma SegmentBytes()
    ensures WordBytes(CODE64) == [0xFF, 0xFF, 0, 0, 0, 0xFB, 0xAF, 0]
    ensures WordBytes(CODE32) == [0xFF, 0xFF, 0, 0, 0, 0xFB, 0xCF, 0]
    ensures WordBytes(FLAT_DATA) == [0xFF, 0xFF, 0, 0, 0, 0xF3, 0xCF, 0]
    ensures WordBytes(0) == [0, 0, 0, 0, 0, 0, 0, 0]
  {
  }

  /** What they mean: flat 4 GiB segments of level 3, 64-bit code, 32-bit code and data. */
  lemma SegmentFields()
    ensures Decode(WordAt([0xFF, 0xFF, 0, 0, 0, 0xFB, 0xAF, 0])) == Descriptor(0, 0xF_FFFF, 0xB, 1, 3, 1, 0, 1, 0, 1)
    ensures Decode(WordAt([0xFF, 0xFF, 0, 0, 0, 0xFB, 0xCF, 0])) == Descriptor(0, 0xF_FFFF, 0xB, 1, 3, 1, 0, 0, 1, 1)
    ensures Decode(WordAt([0xFF, 0xFF, 0, 0, 0, 0xF3, 0xCF, 0])) == Descriptor(0, 0xF_FFFF, 3, 1, 3, 1, 0, 0, 1, 1)
  {
    SegmentBytes();
    WordRoundTrip(CODE64);
    WordRoundTrip(CODE32);
    WordRoundTrip(FLAT_DATA);
  }

  /** A descriptor IRET accepts for CS with requested level `rpl`. */
  predicate CodeSegmentFor(w: bv64, rpl: nat) {
    var d := Decode(w);
    && d.present == 1 && d.system == 1 && d.kind & 8 == 8
    && (if d.kind & 4 == 4 then d.dpl <= LevelBits(rpl) else d.dpl == LevelBits(rpl))
  }

  /** A descriptor IRET accepts for SS at level `rpl`: a writable data segment of that level. */
  predicate StackSegmentFor(w: bv64, rpl: nat) {
    var d := Decode(w);
    d.present == 1 && d.system == 1 && d.kind & 8 == 0 && d.kind & 2 == 2 && d.dpl == LevelBits(rpl)
  }

  /** The last byte of a segment: the limit counts bytes or, with the granularity bit, pages. */
  function LastByte(w: bv64): bv32 {
    if (w >> 55) & 1 == 1 then (LimitOf(w) << 12) | 0xFFF else LimitOf(w)
  }

  predicate InSegment(w: bv64, offset: bv32) { offset <= LastByte(w) }

  lemma FlatCodeHasAll(offset: bv32)
    ensures InSegment(CODE32, offset)
  {
  }

  lemma LoaderSegments(rpl: nat)
    requires rpl < 4
    ensures CodeSegmentFor(CODE32, rpl) <==> rpl == 3
    ensures StackSegmentFor(FLAT_DATA, rpl) <==> rpl == 3
    ensures !CodeSegmentFor(FLAT_DATA, rpl) && !StackSegmentFor(CODE32, rpl)
    ensures !CodeSegmentFor(0, rpl) && !StackSegmentFor(0, rpl)
  {
  }
}
