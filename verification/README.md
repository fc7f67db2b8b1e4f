# process-bridge: a verified model of the snapshot pipeline

process-bridge stops a native Linux process at a breakpoint, streams its registers and memory to
a flat file, and rebuilds the process from that file in an emulator. This Dafny project models
the pipeline from the maps text and the tracee's memory to the registers and regions of the
emulator, and proves that the restored machine is the traced machine at the chosen instruction.

`dafny verify dfyconfig.toml` checks everything.

## How the model is built

| file | part of the system |
|---|---|
| `Bytes.dfy`, `Bits.dfy` | bytes, little-endian words, C strings; bit-vector words and their bytes |
| `SnapshotFormat.dfy`, `StateLayout.dfy` | the file: state layouts of 216 and 116 bytes, the packed 4124-byte header, records; every field by name and offset |
| `MapsParser.dfy`, `KernelMaps.dfy` | the `sscanf` format and the iterator with its reused entry; the kernel's line format |
| `MappingsReader.dfy`, `SnapshotDump.dfy` | the chunked copy through one reused buffer; the writer of the file |
| `Engine.dfy` | the rules assumed of the emulator, and an engine class that follows them |
| `Descriptors.dfy`, `GdtTable.dfy`, `TlsCollection.dfy` | descriptor packings, the 512-slot table, TLS slots of both kernel layouts |
| `RecordLoader.dfy`, `CpuStateX64.dfy`, `CpuStateI386.dfy`, `Loader.dfy` | the loader: records, processor state, the whole restore |
| `Breakpoint.dfy` | arming, running and restoring, over a machine with an arbitrary instruction set |
| `ElfFile.dfy`, `ProcessInfo.dfy`, `ElfImage.dfy` | program headers as the gABI lays them out; the two minima and the load bias; the hook from the bytes of both files |
| `EndToEnd.dfy` | writer to reader, and from the breakpoint on |

Imperative code is imperative here: the entry, the copy buffer and the descriptor table are
updated in place, and each such method is proved against a function of its inputs or of the old
state; the properties are then lemmas about those functions.

`LOG_FATAL` leaves the process (utilities/log/include/log.h:40-44), so the `goto cleanup` after
it is dead code. A fatal path is an outcome (`None`, `false` or `Fatal`) with no promise about
the state behind it. So is `Overrun`, a write past the descriptor table at an index from the
file, which the i386 loader does not check.

### Assumptions

- Emulator. `uc_mem_map` fails exactly on an empty, misaligned, wrapping or overlapping range.
  `uc_mem_write` needs one region that holds the range. `uc_mem_protect` and `uc_mem_unmap` are
  modelled on whole regions. Register writes succeed; a segment register keeps 16 bits, and
  loading FS or GS replaces its hidden base by the base in the descriptor table. A fresh engine
  runs at level 0.
- IRET. The rules of the Intel SDM Volume 2A: the checks on the CS and SS descriptors and on the
  new EIP against the limit of the code segment, five words popped on a return to an outer level,
  and the data segment registers not preserved by it. The flags are loaded as they are in the
  frame; a frame with the VM flag is not modelled.
- `process_vm_readv`. An arbitrary answer for each call; only a full one promises the bytes, and
  it needs the whole range mapped. Any other may leave garbage in the buffer.
- Kernel. Maps lines have the format of proc_pid_maps(5), with tokens free of white space and
  newlines escaped in paths. `PTRACE_GET_THREAD_AREA` answers for its layout's three slots and
  names each in `entry_number`.
- Tracee. A deterministic machine in which an instruction depends on memory only through the
  addresses it touches.

### Where the code does less than it seems to promise

Each of these is proved as an if-and-only-if, with a lemma that gives an input on which the
property fails.

- A tracee that is already at the hook is single-stepped before the word is restored, so it
  executes the INT3 and resumes one byte behind the hook (`Breakpoint.AlreadyAtHookSkipsAByte`).
  What stops is the plain run from there (`StopFromHook`). For a hook byte that is no INT3 of its
  own and is left alone, the tracee stops in the state of the plain run if and only if it does
  not start at the hook and the rest of the word is left alone too (`StopAtHookIff`). With an INT3
  of its own it may come back to the hook (`Breakpoint.Int3UnderHookStops`).
- Restoring pokes back the whole saved word, so the tracee is the one of the plain run exactly
  when the run left the other bytes of the word as they were (`Breakpoint.BreakpointCell.StopAtHook`,
  failing in `Breakpoint.StoreBehindHookIsLost`).
- A path that begins with white space, or has more than 4095 bytes, does not come back from its
  line; every other does (`KernelMaps.ParseKernelLine`, failing in `KernelMaps.LongPathIsLost`).
- The image base is the load bias exactly when the lowest PT_LOAD address is page-aligned
  (`ProcessInfo.LoadBias`, failing in `ProcessInfo.UnalignedSegmentMissesBias`).
- On i386 the snapshotter computes sizes in 32 bits and the loader in 64, so they agree about a
  record exactly when the size fits 32 bits (`MappingsReader.RecordWellFormedIff`, failing in
  `MappingsReader.HugeEntryIsRefused`).
- Data selectors are restored exactly when they fit 16 bits (`CpuStateX64.DumpRegs`,
  `CpuStateI386.DumpDataSelectors`, failing in `CpuStateX64.WideFsIsLost`).
- `dump_gdt` for i386 checks neither the requested levels nor the slot of SS. The restore then
  goes through exactly when the IRET is accepted by the table as written (`EntersUserLevel` in
  `CpuStateI386.DumpCpuState`, failing in `CpuStateI386.NullStackIsRefused`).

## Model

| member | source | states |
|---|---|---|
| SnapshotFormat.DecodeEncodeHeader | common/include/linux/maps_entry.h:8-20 | a packed header read back gives every field, whatever the flag and path bytes are |
| SnapshotFormat.EncodeDecodeHeader | common/include/linux/maps_entry.h:22-23 | every 4124 bytes are the header of exactly one entry: nothing is padding |
| SnapshotFormat.DecodeEncodeState | common/include/linux/x86_64/process_state.h:6-38 | reading back the written register state of either architecture gives it unchanged |
| SnapshotFormat.EncodeDecodeState | common/include/linux/i386/process_state.h:9-32 | any 216 or 116 bytes re-serialise to themselves, including the padding bits of the TLS entries |
| SnapshotFormat.RegisterOffset | snapshotter/include/linux/arch.h:16-71 | register `k` is the little-endian word at byte offset `8k`, on i386 `4k` |
| StateLayout.X64Layout | common/include/linux/x86_64/process_state.h:6-34 | each of the 27 fields is at its literal offset in the 216 bytes, `rip` at 128 and `rsp` at 152 |
| StateLayout.I386Layout | common/include/linux/i386/process_state.h:9-27 | each of the 17 fields is at its literal offset, `eip` at 48 and `esp` at 60 |
| StateLayout.TlsLayout | common/include/linux/i386/process_state.h:29-32 | from byte 68 on, three `user_desc` of 16 bytes: entry number, base, limit, flags |
| StateLayout.HeaderLayout | common/include/linux/maps_entry.h:8-23 | start at 0, end at 8, the four flags at 16 to 19, file offset at 20, path at 28 |
| SnapshotFormat.ParseFlatten | loader/src/dump.c:94-174 | the record loop recovers every list of records with contents of the claimed size, in order |
| SnapshotFormat.FlattenParse | loader/src/dump.c:94-127 | any accepted byte string re-serialises to itself, and each content has its header's 64-bit size |
| SnapshotFormat.RecordCountBound | loader/src/dump.c:172-173 | each record costs at least 4124 bytes of the file |
| SnapshotFormat.ParseSerialize | snapshotter/src/linux/snapshot_dump.c:14-18 | parsing the file the writer produces returns exactly its state and records |
| SnapshotFormat.SerializeParse | loader/src/dump.c:70-174 | every accepted file is the serialisation of what was read from it |
| SnapshotFormat.TruncatedSnapshot | loader/src/dump.c:94-101 | a file cut after `k` bytes is accepted if and only if the cut is at a record boundary, and gives the records before it |
| MapsParser.EntryCell.StorePath | snapshotter/src/linux/maps_parser.c:17-19 | storing a path writes the text and a NUL and no byte behind it |
| MapsParser.EntryCell.Parse | snapshotter/src/linux/maps_parser.c:10-40 | fatal exactly when fewer than four conversions match; otherwise every field of the reused entry is overwritten |
| MapsParser.PathForgetsBuffer | snapshotter/src/linux/maps_parser.c:29-30 | the path string of a filled entry does not depend on what the buffer held before |
| MapsParser.MapsIter.Next | snapshotter/src/linux/maps_parser.c:59-84 | each call takes one entry off the entries still to come, or reports the end or a malformed line |
| KernelMaps.ScanKernelLine | snapshotter/src/linux/maps_parser.c:17-19 | scanning a kernel line recovers addresses, permissions and offset, and the path without leading blanks |
| KernelMaps.ParseKernelLine | snapshotter/src/linux/maps_parser.c:17-35 | all fields come back for every mapping; the path comes back if and only if it fits and does not begin with white space |
| KernelMaps.LongPathIsLost | snapshotter/src/linux/maps_parser.c:17-19 | of a path of 4096 bytes the entry has the first 4095 |
| KernelMaps.ParseKernelFile | snapshotter/src/linux/maps_parser.c:59-84 | iterating over any maps file yields one entry for each mapping, in order, through the one reused entry; a path as far as it is scanned |
| MappingsReader.Kernel.Readv | snapshotter/src/linux/mappings_reader.c:61-68 | a full result means the buffer holds the remote bytes; nothing is promised otherwise |
| MappingsReader.CopyMapping | snapshotter/src/linux/mappings_reader.c:47-91 | for every length and every pattern of reads the loop appends exactly the content the byte-wise definition gives |
| MappingsReader.SliceIsRemoteOrZero | snapshotter/src/linux/mappings_reader.c:58-86 | each 1 MiB slice is wholly the remote bytes or wholly zero, by its own read alone |
| MappingsReader.FullReadsCopyExactly | snapshotter/src/linux/mappings_reader.c:58-91 | when all reads of a readable mapping are full, byte `i` is the tracee's byte at `start + i` |
| MappingsReader.UnreadableIsZero | snapshotter/src/linux/mappings_reader.c:50-56 | an unreadable mapping of any length is all zeros although the buffer is cleared once |
| MappingsReader.DumpMappingsContent | snapshotter/src/linux/mappings_reader.c:13-103 | the file grows by exactly the records of the parsed entries, and the counter is their number; fatal exactly on a malformed line |
| MappingsReader.RecordIff | snapshotter/src/linux/mappings_reader.c:35-41 | an entry gives no record if and only if its path is `[vvar]`, `[vsyscall]` or `[vvar_vclock]`, byte by byte |
| MappingsReader.RecordsAreKeptEntries | snapshotter/src/linux/mappings_reader.c:33-45 | one record for each entry that is not special, in order, and a file length that is the sum of 4124 plus size over them |
| MappingsReader.RecordWellFormedIff | snapshotter/src/linux/mappings_reader.c:47 | header and content agree on the size if and only if it fits the snapshotter's `size_t` |
| MappingsReader.HugeEntryIsRefused | loader/src/dump.c:115-127 | a 4 GiB mapping is written without content by a 32-bit snapshotter, and the loader refuses the record |
| SnapshotDump.DumpSnapshot | snapshotter/src/linux/snapshot_dump.c:8-25 | the written file is the serialisation of the state and the records |
| Descriptors.GdtEntryInitLayout | loader/include/gdt_utils.h:37-50 | base, 20-bit limit and all attribute bits land where section 3.4.5 of the Intel SDM Volume 3A puts them |
| Descriptors.SegmentBytes | loader/include/gdt_utils.h:22-50 | the eight bytes of the 64-bit code, 32-bit code and data descriptors |
| Descriptors.SegmentFields | loader/include/gdt_utils.h:22-50 | by section 3.4.5 they are flat 4 GiB segments of level 3, the code long or 32-bit, the data writable |
| Descriptors.PackUserDescLossless | loader/include/gdt_utils.h:52-65 | decoding a packed `user_desc` gives back base, 20-bit limit and every attribute, with level 3 |
| Descriptors.PackingsAgree | loader/include/gdt_utils.h:37-65 | both packings give the same word for the same segment |
| Descriptors.UnpackUserDesc | loader/include/gdt_utils.h:52-65 | the packing has a left inverse on base, limit and the seven flag bits |
| Descriptors.BaseOfUserDesc | loader/include/gdt_utils.h:52-65 | the base the processor finds in the eight stored bytes is the captured `base_addr` |
| RecordLoader.ReadBytes | loader/src/dump.c:13-22 | succeeds exactly when the bytes are in the file, and then advances the offset by the size |
| RecordLoader.LoadMapping | loader/src/dump.c:145-170 | map, write and protect succeed together exactly when the range is placeable and free, adding one region with content and permissions |
| RecordLoader.LoadRecords | loader/src/dump.c:93-174 | returns normally exactly when the rest of the file parses and places; at most one record for each 4124 bytes, whatever the sizes wrap to |
| RecordLoader.PlaceIff | loader/src/dump.c:145-152 | loading completes if and only if every record is aligned, non-empty and disjoint from all others; earlier regions are untouched |
| RecordLoader.PlaceKeepsValid | loader/src/dump.c:94-174 | the engine's regions stay aligned and pairwise disjoint |
| GdtTable.StoreTable | loader/src/x86_64/cpu_state_dump.c:60-77 | the page holds the table's bytes, read-only, and GDTR covers exactly it |
| GdtTable.GdtPage | loader/include/gdt_utils.h:5-6 | the descriptor page is the 4 KiB at 0x3000, readable and nothing else |
| GdtTable.DescriptorFromTable | loader/src/i386/cpu_state_dump.c:59-75 | through GDTR the processor finds slot `selector / 8` of the table for every selector |
| CpuStateX64.DumpGdt | loader/src/x86_64/cpu_state_dump.c:13-78 | accepted if and only if no LDT selector, CS slot 6, SS slot 5, DS and ES slots 0 or 5, and the page is free |
| CpuStateX64.AcceptsIff | loader/src/x86_64/cpu_state_dump.c:23-58 | acceptance in selector bits: bit 2 clear in all six, slot 6 in CS, 5 in SS, 0 or 5 in DS and ES |
| CpuStateX64.SegmentsX64 | loader/src/x86_64/cpu_state_dump.c:36-51 | through GDTR the processor finds 64-bit code in slot 6, data in slot 5 and zeros in every other slot |
| CpuStateX64.DumpRegs | loader/src/x86_64/cpu_state_dump.c:80-170 | every captured register is in place although loading FS and GS replaces their bases, if and only if FS and GS fit 16 bits |
| CpuStateX64.WideFsIsLost | loader/src/x86_64/cpu_state_dump.c:149-150 | a state with FS 0x10000 is accepted, and FS then holds 0 |
| CpuStateX64.DumpCpuState | loader/src/x86_64/cpu_state_dump.c:172-186 | memory gains exactly the descriptor page, the registers are the captured ones, the entry is RIP; a refused selector, stated in its bits, is fatal |
| CpuStateI386.BuildTable | loader/src/i386/cpu_state_dump.c:26-57 | the table filled by indexed writes holds in each slot the last of code, stack and TLS writes, zero elsewhere; it is overrun exactly when an index from the file is 512 or more |
| CpuStateI386.DumpGdt | loader/src/i386/cpu_state_dump.c:19-78 | accepted if and only if no LDT selector, CS slot 4 or 14, all indices in the table, and the page is free; overrun exactly when only an index is wrong |
| CpuStateI386.AcceptsIff | loader/src/i386/cpu_state_dump.c:28-46 | acceptance in selector bits: bit 2 clear in all six, and slot 4 or 14 in CS |
| CpuStateI386.PagesOfLoader | loader/src/i386/cpu_state_dump.c:16-17 | the two pages the loader needs are those at 0x2000 and 0x3000 |
| CpuStateI386.SlotLevel | loader/src/i386/cpu_state_dump.c:36-57 | no TLS entries can make a slot code for a level below 3 |
| CpuStateI386.IretFromTrampoline | loader/src/i386/cpu_state_dump.c:93-109 | the IRET takes the captured frame if and only if the table as written admits its selectors and its EIP |
| CpuStateI386.NullStackIsRefused | loader/src/i386/cpu_state_dump.c:50-52 | a state with a null SS passes `dump_gdt` and is refused by the IRET |
| CpuStateI386.EnterRing3 | loader/src/i386/cpu_state_dump.c:80-116 | EIP, ESP, EFLAGS, CS, SS and the general registers are the captured ones although ESP is overwritten, and memory is as before |
| CpuStateI386.DumpDataSelectors | loader/src/i386/cpu_state_dump.c:147-154 | the data selectors come back if and only if they fit 16 bits, and FS and GS get their descriptors' bases |
| CpuStateI386.DumpCpuState | loader/src/i386/cpu_state_dump.c:170-182 | succeeds if and only if both pages are free and the selectors, indices and the frame are accepted; memory gains exactly the descriptor page; a refused selector, stated in its bits, is fatal |
| TlsCollection.CollectTls | snapshotter/src/linux/i386/snapshot.c:21-47 | all three elements are filled, in bounds, from the slots of the detected layout; fatal exactly when one of them is missing |
| TlsCollection.CreateSnapshot | snapshotter/src/linux/i386/snapshot.c:13-47 | the captured state has the registers and the three entries of the detected layout; fatal exactly when one is missing |
| TlsCollection.CollectionFindsLayout | snapshotter/src/linux/i386/snapshot.c:25-34 | under either kernel the detection picks that kernel's slots and every collection succeeds |
| TlsCollection.AnsweredIsCollected | snapshotter/src/linux/i386/snapshot.c:21-47 | what is collected at user level has each TLS entry at its place, as the kernel reported that slot |
| TlsCollection.CollectedTable | loader/src/i386/cpu_state_dump.c:48-57 | for collected states no slots collide: code, stack and three TLS descriptors at their selectors, zero in all other slots |
| TlsCollection.CollectedSegments | loader/src/i386/cpu_state_dump.c:36-51 | through GDTR the processor finds flat 32-bit code and data of level 3 at the selectors of a collected state |
| TlsCollection.CollectedEnters | loader/src/i386/cpu_state_dump.c:80-116 | the IRET of a collected state is accepted, at any EIP, if and only if its flags do not ask for virtual-8086 mode |
| TlsCollection.TlsBaseRestored | loader/src/i386/cpu_state_dump.c:151-154 | loading a TLS selector gives the hidden base of that TLS entry |
| Loader.DumpCpuState | loader/src/cpu_state_dump.c:3-12 | the mode selects the restore, which installs the captured processor state |
| Loader.DumpSnapshot | loader/src/dump.c:24-192 | on any file: returns normally if and only if the whole file parses, every record can be placed and the state is accepted; then all of it is in the engine |
| Loader.X64RegistersFromFile | loader/src/dump.c:82-90 | after a restore each register has the bytes of the file at its field's literal offset |
| Loader.I386RegistersFromFile | loader/src/dump.c:74-81 | the same for i386 |
| Breakpoint.ArmChangesOneByte | snapshotter/src/linux/breakpoint.c:66-79 | peeking, patching and poking a word of any size changes exactly the hook byte, to INT3 |
| Breakpoint.RestoreUndoesArm | snapshotter/src/linux/breakpoint.c:172-178 | poking the saved word back after any writes outside it gives the memory of a run that was never armed |
| Breakpoint.RestoreIffSameWord | snapshotter/src/linux/breakpoint.c:172-173 | the poke restores never-armed memory if and only if that memory still has the saved word |
| Breakpoint.Lockstep | snapshotter/src/linux/breakpoint.c:132-140 | as long as the hook byte is not touched, the armed run is the plain run with that byte patched, after every number of instructions |
| Breakpoint.TrapsAtHook | snapshotter/src/linux/breakpoint.c:132-164 | the armed run traps right behind the hook, at the first arrival of the plain run there |
| Breakpoint.AlreadyAtHookSkipsAByte | snapshotter/src/linux/breakpoint.c:102-130 | from the hook, the single step executes the INT3 and the run resumes one byte behind the hook with memory restored |
| Breakpoint.NoTrapAtHook | snapshotter/src/linux/breakpoint.c:157-164 | a run that finds no INT3 at the hook and stores none there never traps there |
| Breakpoint.StoreBehindHookIsLost | snapshotter/src/linux/breakpoint.c:172-173 | a run that stores behind the hook byte loses that store when the word is poked back |
| Breakpoint.Int3UnderHookStops | snapshotter/src/linux/breakpoint.c:102-130 | a tracee that starts at an INT3 of its own under the hook can trap there again with nothing changed |
| Breakpoint.BreakpointCell.Create | snapshotter/src/linux/breakpoint.c:62-87 | saves the word and leaves the tracee as it was but for the hook byte; fatal exactly on an unmapped word |
| Breakpoint.BreakpointCell.ExecuteUpToBreakpoint | snapshotter/src/linux/breakpoint.c:89-182 | runs to the first trap, steps the instruction pointer back by one and pokes the saved word; the exits are exactly those of the single step and of the run |
| Breakpoint.BreakpointCell.StopAtHook | snapshotter/src/main.c:57-60 | the tracee stops in exactly the state of the plain run if and only if that run left the rest of the word alone |
| Breakpoint.BreakpointCell.StopFromHook | snapshotter/src/linux/breakpoint.c:102-178 | from the hook, what stops is the plain run from one byte behind it; it does not stop at the hook unless an INT3 is there |
| Breakpoint.BreakpointCell.StopAtHookIff | snapshotter/src/linux/breakpoint.c:102-178 | with the hook byte left alone, the tracee stops in the state of the plain run if and only if it does not start at the hook and the rest of the word is left alone |
| ProcessInfo.LeastIsMinimum | snapshotter/src/linux/process_info.c:141-143 | the value both loops keep is a lower bound and is attained, or is the starting value |
| ProcessInfo.GetMinVaddr | snapshotter/src/linux/process_info.c:110-153 | for a file whose table of program headers is laid out by the gABI, in either class, the least address among its PT_LOAD headers; fatal exactly when a header cannot be read |
| ProcessInfo.ReadsHeader | snapshotter/src/linux/process_info.c:118-139 | header `i` at its offset is read as its type and address, in the 32-bit and the 64-bit layout |
| ProcessInfo.TableIsReadable | snapshotter/src/linux/process_info.c:121-136 | no read fails if and only if every header ends inside the file |
| ProcessInfo.MinMapsAddress | snapshotter/src/linux/process_info.c:160-172 | the least start among the mappings of the file's path |
| ProcessInfo.GetImageBase | snapshotter/src/linux/process_info.c:155-182 | 0 for ET_EXEC, the wrapped difference of the minima for ET_DYN, fatal for other types and for an unmapped file |
| ProcessInfo.LoadBias | snapshotter/src/linux/process_info.c:155-182 | the difference is the load bias if and only if the lowest PT_LOAD address is page-aligned |
| ProcessInfo.UnalignedSegmentMissesBias | snapshotter/src/linux/process_info.c:181 | a lowest segment at 0x234 in its page gives a base 0x234 below the bias |
| ProcessInfo.HookAddress | snapshotter/src/main.c:53-58 | image base plus offset is the run-time address of that ELF address, modulo the word of the build |
| ProcessInfo.FindHook | snapshotter/src/main.c:27-58 | the hook is image base plus offset in `uintptr_t`, from the file and the maps text; fatal exactly where the image base is |
| ProcessInfo.FixedHook | snapshotter/src/main.c:53-58 | for type 2, ET_EXEC, the hook is the offset itself |
| ProcessInfo.OtherTypesAreFatal | snapshotter/src/linux/process_info.c:100-108 | a file that is neither type 2 nor type 3 is fatal |
| ElfImage.RelocatedHook | snapshotter/src/main.c:53-58 | from the bytes of an ET_DYN file and of the maps text: if the image is mapped with a bias and its lowest PT_LOAD address is page-aligned, the hook is bias plus offset |
| ElfImage.UnmappedIsFatal | snapshotter/src/linux/process_info.c:174-179 | without a mapping of the file's path there is no image base |
| EndToEnd.DescribedRecords | snapshotter/src/linux/mappings_reader.c:33-94 | along the whole maps file there is one readable record for each mapping that is not special, and it mirrors the mapping |
| EndToEnd.SnapshotIsPlaced | loader/src/dump.c:93-174 | the written snapshot of page-aligned, disjoint mappings parses and loads into exactly those mappings |
| EndToEnd.MemoryIsReproduced | snapshotter/src/linux/mappings_reader.c:47-91 | with a complete maps text and full reads the engine has the process's byte at every readable address, zero at unreadable ones, nothing elsewhere but the descriptor page |
| EndToEnd.SnapshotAndRestore | loader/src/dump.c:93-176 | restoring the written file succeeds, whatever the paths; the regions are the mappings that are not special and the descriptor page, byte for byte; the entry is the captured instruction pointer |
| EndToEnd.HookSnapshotAndRestore | snapshotter/src/main.c:57-65 | on x86_64 the engine ends up with the registers and instruction pointer of the unhooked run at its first arrival at the hook, and with its memory, mapping by mapping, or address by address where the maps text is complete and the reads are full |
| EndToEnd.HookSnapshotAndRestoreI386 | snapshotter/src/main.c:57-65 | the same for i386 over the collected TLS entries; FS and GS get the bases the kernel reported for the slots they name |
| EndToEnd.CollectedIsAccepted | loader/src/i386/cpu_state_dump.c:19-116 | under either kernel layout a collected state is accepted if and only if bit 2 is clear in DS, ES, FS and GS and the VM flag is clear |
| EndToEnd.ThreadPointerSurvives | loader/src/i386/cpu_state_dump.c:151-154 | after a restore FS and GS have the bases of the TLS entries their selectors name |

## Left out

- Process creation, wait-status decoding, argument handling and cleanup of the snapshotter: operating-system plumbing.
- Failures of opening, mapping, seeking, writing and closing files: files are byte sequences.
- Stops of the tracee that are not an INT3, such as other signals: the run stops by INT3 or by exit.
- The wrap of an instruction pointer at the top of the address space.
- Identification of ELF files and resolution of their path: the decoded header fields are given.
- `off_t` of the 32-bit build: program header offsets are taken in 64 bits.
- What a write past the descriptor table does: it is undefined in C, and an outcome of its own here.
- `uc_mem_write` and `uc_mem_protect` across or inside regions: the loader does not do it.
- The aliasing of 32-bit and 64-bit register names: each mode uses its own.
- `orig_rax` and `orig_eax`: they are in the file but are not processor registers.
- Logging, the counter of zeroed chunks that is only logged, the Python and Qiling wrappers, `pb_create_from_snapshot`.
- CpuStateI386.DumpCpuState: does not model a frame with the VM flag, on which the IRET would enter virtual-8086 mode.
