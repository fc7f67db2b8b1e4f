/**
  The parts of an ELF file that the load bias depends on, as the System V gABI lays them out: the
  fields of the ELF header that are used, and the table of program headers.
 */
module ElfFile {
  import opened Bytes

  datatype ElfClass = Elf32 | Elf64

  /** The header as read from the file: the fields that are used, in the widths of the class. */
  datatype Ehdr =
    | E32(type32: u16, phoff32: u32, phentsize32: u16, phnum32: u16)
    | E64(type64: u16, phoff64: u64, phentsize64: u16, phnum64: u16)

  predicate HasType(ehdr: Ehdr, t: nat) {
    match ehdr case E32(e_type, _, _, _) => e_type == t case E64(e_type, _, _, _) => e_type == t
  }

  datatype ProgramHeader = ProgramHeader(p_type: u32, p_flags: u32, p_offset: u64, p_vaddr: u64, p_paddr: u64,
                                         p_filesz: u64, p_memsz: u64, p_align: u64)
  {
    /** Addresses, offsets and sizes of a 32-bit file have 32 bits. */
    predicate Narrow() {
      && p_offset < TWO32 && p_vaddr < TWO32 && p_paddr < TWO32
      && p_filesz < TWO32 && p_memsz < TWO32 && p_align < TWO32
    }
  }

  /** `Elf32_Phdr`. */
  function Phdr32Bytes(p: ProgramHeader): (s: seq<byte>)
    ensures |s| == 32
  {
    LittleEndian(4, p.p_type) + LittleEndian(4, p.p_offset) + LittleEndian(4, p.p_vaddr) + LittleEndian(4, p.p_paddr)
    + LittleEndian(4, p.p_filesz) + LittleEndian(4, p.p_memsz) + LittleEndian(4, p.p_flags) + LittleEndian(4, p.p_align)
  }

  /** `Elf64_Phdr`. */
  function Phdr64Bytes(p: ProgramHeader): (s: seq<byte>)
    ensures |s| == 56
  {
    LittleEndian(4, p.p_type) + LittleEndian(4, p.p_flags) + LittleEndian(8, p.p_offset) + LittleEndian(8, p.p_vaddr)
    + LittleEndian(8, p.p_paddr) + LittleEndian(8, p.p_filesz) + LittleEndian(8, p.p_memsz) + LittleEndian(8, p.p_align)
  }

  predicate HoldsAt(file: seq<byte>, at: nat, bytes: seq<byte>) {
    at + |bytes| <= |file| && file[at..at + |bytes|] == bytes
  }

  /** Where header `i` of the table is. */
  function HeaderOffset(ehdr: Ehdr, i: nat): nat {
    match ehdr
    case E32(_, phoff, phentsize, _) => phoff + i * phentsize
    case E64(_, phoff, phentsize, _) => phoff + i * phentsize
  }

  /** A header that ends inside the file. */
  predicate InFile(ehdr: Ehdr, file: seq<byte>, i: nat) {
    HeaderOffset(ehdr, i) + (if ehdr.E32? then 32 else 56) <= |file|
  }

  predicate HoldsHeader(ehdr: Ehdr, file: seq<byte>, p: ProgramHeader, at: nat) {
    match ehdr
    case E32(_, _, _, _) => p.Narrow() && HoldsAt(file, at, Phdr32Bytes(p))
    case E64(_, _, _, _) => HoldsAt(file, at, Phdr64Bytes(p))
  }

  /** The file has the program headers `ps`, where and as its ELF header says. */
  ghost predicate HasHeaders(ehdr: Ehdr, file: seq<byte>, ps: seq<ProgramHeader>) {
    |file| < 0x8000_0000_0000_0000
    && (match ehdr case E32(_, _, _, phnum) => |ps| == phnum case E64(_, _, _, phnum) => |ps| == phnum)
    && forall i :: 0 <= i < |ps| ==> HoldsHeader(ehdr, file, ps[i], HeaderOffset(ehdr, i))
  }

  /** `m` is the least address of a PT_LOAD header, or the starting value if there is no smaller one. */
  ghost predicate LeastLoad(ps: seq<ProgramHeader>, m: nat, sizeMax: nat) {
    && (forall i :: 0 <= i < |ps| && ps[i].p_type == 1 ==> m <= ps[i].p_vaddr)
    && m <= sizeMax
    && (m < sizeMax ==> exists i :: 0 <= i < |ps| && ps[i].p_type == 1 && ps[i].p_vaddr == m)
  }

  lemma Slice(file: seq<byte>, at: nat, bytes: seq<byte>, from: nat, to: nat)
    requires HoldsAt(file, at, bytes) && from <= to <= |bytes|
    ensures at + to <= |file| && file[at + from..at + to] == bytes[from..to]
  {
    forall k | 0 <= k < to - from
      ensures file[at + from..at + to][k] == bytes[from..to][k]
    {
      assert file[at..at + |bytes|][from + k] == bytes[from + k];
    }
  }

  lemma Phdr32Fields(p: ProgramHeader)
    ensures Phdr32Bytes(p)[0..4] == LittleEndian(4, p.p_type) && Phdr32Bytes(p)[8..12] == LittleEndian(4, p.p_vaddr)
  {
  }

  lemma Phdr64Fields(p: ProgramHeader)
    ensures Phdr64Bytes(p)[0..4] == LittleEndian(4, p.p_type) && Phdr64Bytes(p)[16..24] == LittleEndian(8, p.p_vaddr)
  {
  }
}
