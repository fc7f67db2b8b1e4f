/**
  `dump_mappings_content`: every mapping of the stopped tracee that is not one of the three
  special ones goes to the snapshot file as a header and `end - start` content bytes, copied in
  1 MiB chunks through one reused buffer that falls back to zeros.
 */
module MappingsReader {
  import opened Bytes
  import opened SnapshotFormat
  import opened MapsParser

  const BUFFER_SIZE: nat := 0x10_0000

  // ------------------------------------------------------------------ reading the tracee

  /** One answer of `process_vm_readv`: its return value and what it left in the buffer. */
  datatype ReadAnswer = ReadAnswer(count: int, transferred: seq<byte>)

  /** A stopped tracee. `answers(k)` is how the kernel answers the k-th read. */
  datatype Remote = Remote(memory: map<nat, byte>, answers: nat -> ReadAnswer)
  {
    ghost predicate Mapped(address: nat, size: nat) {
      forall a :: address <= a < address + size ==> a in memory
    }

    /** The k-th read returns all the bytes asked for, which only happens on mapped memory. */
    ghost predicate ReadsFully(k: nat, address: nat, size: nat) {
      answers(k).count == size && Mapped(address, size)
    }
  }

  class Kernel {
    const remote: Remote
    var calls: nat

    constructor (remote: Remote)
      ensures this.remote == remote && calls == 0
    {
      this.remote := remote;
      calls := 0;
    }

    /** Only a full read promises the remote bytes; any other may leave garbage behind. */
    method Readv(buffer: array<byte>, address: nat, size: nat) returns (result: int)
      requires size <= buffer.Length
      modifies this, buffer
      ensures calls == old(calls) + 1
      ensures result == size <==> remote.ReadsFully(old(calls), address, size)
      ensures result == size ==> forall i :: 0 <= i < size ==> address + i in remote.memory && buffer[i] == remote.memory[address + i]
    {
      var answer := remote.answers(calls);
      calls := calls + 1;
      var mapped := true;
      for i := 0 to size
        modifies {}
        invariant mapped <==> remote.Mapped(address, i)
      {
        mapped := mapped && address + i in remote.memory;
      }
      if answer.count == size && mapped {
        for i := 0 to size
          modifies buffer
          invariant forall j :: 0 <= j < i ==> buffer[j] == remote.memory[address + j]
        {
          buffer[i] := remote.memory[address + i];
        }
        return size;
      }
      var n := if |answer.transferred| < size then |answer.transferred| else size;
      for i := 0 to n
        modifies buffer
      {
        buffer[i] := answer.transferred[i];
      }
      return if answer.count == size then -1 else answer.count;
    }
  }

  /** A file opened for writing; `fwrite` appends. */
  class OutFile {
    var contents: seq<byte>

    constructor ()
      ensures contents == []
    {
      contents := [];
    }

    method Write(bytes: seq<byte>)
      modifies this
      ensures contents == old(contents) + bytes
    {
      contents := contents + bytes;
    }
  }

  // ------------------------------------------------------------------ what is to be written

  function CopySize(mode: Mode, e: MapsEntry): nat { Wrap(mode, e.end - e.start) }

  function ChunkLength(size: nat, c: nat): nat
  {
    if size <= c * 0x10_0000 then 0
    else if size - c * 0x10_0000 > BUFFER_SIZE then BUFFER_SIZE
    else size - c * 0x10_0000
  }

  function ChunkAddress(mode: Mode, e: MapsEntry, c: nat): nat {
    Wrap(mode, e.start + c * 0x10_0000)
  }

  /** The reads a mapping costs: one for each chunk, none for an unreadable mapping. */
  function ReadCalls(mode: Mode, e: MapsEntry): nat {
    if e.read == 0 then 0 else (CopySize(mode, e) + 0xF_FFFF) / 0x10_0000
  }

  /**
    Byte `i` of the content of `e`, whose first read is the kernel's read number `call`: the
    remote byte where the read of its whole 1 MiB chunk was full, zero everywhere else.
   */
  ghost function ContentByte(mode: Mode, remote: Remote, e: MapsEntry, call: nat, i: nat): byte {
    var c := i / 0x10_0000;
    var address := ChunkAddress(mode, e, c);
    if e.read != 0 && i < CopySize(mode, e)
       && remote.ReadsFully(call + c, address, ChunkLength(CopySize(mode, e), c))
    then remote.memory[address + i % 0x10_0000]
    else 0
  }

  /** The content from byte `i` on. */
  ghost function ContentFrom(mode: Mode, remote: Remote, e: MapsEntry, call: nat, i: nat): (s: seq<byte>)
    requires i <= CopySize(mode, e)
    ensures |s| == CopySize(mode, e) - i
    decreases CopySize(mode, e) - i
  {
    if i == CopySize(mode, e) then []
    else [ContentByte(mode, remote, e, call, i)] + ContentFrom(mode, remote, e, call, i + 1)
  }

  ghost function Content(mode: Mode, remote: Remote, e: MapsEntry, call: nat): (s: seq<byte>)
    ensures |s| == CopySize(mode, e)
  {
    ContentFrom(mode, remote, e, call, 0)
  }

  lemma {:induction false} ContentFromAt(mode: Mode, remote: Remote, e: MapsEntry, call: nat, i: nat, k: nat, j: nat)
    requires j == i + k < CopySize(mode, e)
    ensures ContentFrom(mode, remote, e, call, i)[k] == ContentByte(mode, remote, e, call, j)
    decreases k
  {
    if k > 0 {
      ContentFromAt(mode, remote, e, call, i + 1, k - 1, j);
    }
  }

  lemma ContentAt(mode: Mode, remote: Remote, e: MapsEntry, call: nat, i: nat)
    requires i < CopySize(mode, e)
    ensures Content(mode, remote, e, call)[i] == ContentByte(mode, remote, e, call, i)
  {
    ContentFromAt(mode, remote, e, call, 0, i, i);
  }

  predicate Special(path: seq<byte>) {
    path == Ascii("[vvar]") || path == Ascii("[vsyscall]") || path == Ascii("[vvar_vclock]")
  }

  /** `[vvar]`, `[vsyscall]` and `[vvar_vclock]`, byte by byte. */
  predicate KernelPage(path: seq<byte>) {
    || path == [91, 118, 118, 97, 114, 93]
    || path == [91, 118, 115, 121, 115, 99, 97, 108, 108, 93]
    || path == [91, 118, 118, 97, 114, 95, 118, 99, 108, 111, 99, 107, 93]
  }

  lemma SpecialPaths(path: seq<byte>)
    ensures Special(path) <==> KernelPage(path)
  {
    assert Ascii("[vvar]") == [91, 118, 118, 97, 114, 93];
    assert Ascii("[vsyscall]") == [91, 118, 115, 121, 115, 99, 97, 108, 108, 93];
    assert Ascii("[vvar_vclock]") == [91, 118, 118, 97, 114, 95, 118, 99, 108, 111, 99, 107, 93];
  }

  /** The record one entry leads to, if it is not special. */
  ghost function EntryRecords(mode: Mode, remote: Remote, e: MapsEntry, call: nat): seq<Record> {
    if Special(e.Path()) then [] else [Record(e, Content(mode, remote, e, call))]
  }

  function EntryCalls(mode: Mode, e: MapsEntry): nat {
    if Special(e.Path()) then 0 else ReadCalls(mode, e)
  }

  /** The records for `es`, the first read being the kernel's read number `call`. */
  ghost function RecordsFrom(mode: Mode, remote: Remote, es: seq<MapsEntry>, call: nat): seq<Record>
  {
    if es == [] then []
    else EntryRecords(mode, remote, es[0], call) + RecordsFrom(mode, remote, es[1..], call + EntryCalls(mode, es[0]))
  }

  /** An entry gives no record if and only if it has one of the three names. */
  lemma RecordIff(mode: Mode, remote: Remote, e: MapsEntry, call: nat)
    ensures EntryRecords(mode, remote, e, call) == [] <==>
              || e.Path() == [91, 118, 118, 97, 114, 93]
              || e.Path() == [91, 118, 115, 121, 115, 99, 97, 108, 108, 93]
              || e.Path() == [91, 118, 118, 97, 114, 95, 118, 99, 108, 111, 99, 107, 93]
    ensures EntryRecords(mode, remote, e, call) != [] ==>
              EntryRecords(mode, remote, e, call) == [Record(e, Content(mode, remote, e, call))]
  {
    hide Special;
    SpecialPaths(e.Path());
  }

  lemma RecordsFromCons(mode: Mode, remote: Remote, all: seq<MapsEntry>, e: MapsEntry, rest: seq<MapsEntry>,
                        call: nat, next: nat)
    requires all == [e] + rest && next == call + EntryCalls(mode, e)
    ensures RecordsFrom(mode, remote, all, call)
         == EntryRecords(mode, remote, e, call) + RecordsFrom(mode, remote, rest, next)
  {
    assert all[1..] == rest;
  }

  // ------------------------------------------------------------------ the copy

  /** The start of the loop body: chunk `c` of the mapping is brought into the buffer. */
  method FetchChunk(mode: Mode, e: MapsEntry, buffer: array<byte>, kernel: Kernel,
                    address: nat, chunk: nat, ghost call: nat, ghost c: nat)
    requires chunk == ChunkLength(CopySize(mode, e), c) <= buffer.Length == BUFFER_SIZE
    requires address == ChunkAddress(mode, e, c)
    requires kernel.calls == call + if e.read == 0 then 0 else c
    requires e.read == 0 ==> forall i :: 0 <= i < chunk ==> buffer[i] == 0
    modifies buffer, kernel
    ensures forall i :: 0 <= i < chunk ==> buffer[i] == ContentByte(mode, kernel.remote, e, call, c * 0x10_0000 + i)
    ensures e.read == 0 ==> buffer[..] == old(buffer[..])
    ensures kernel.calls == old(kernel.calls) + if e.read == 0 then 0 else 1
  {
    if e.read != 0 {
      var result := kernel.Readv(buffer, address, chunk);
      if result == -1 || result != chunk {
        ZeroFill(buffer, chunk);
      }
    }
    forall i | 0 <= i < chunk
      ensures buffer[i] == ContentByte(mode, kernel.remote, e, call, c * 0x10_0000 + i)
    {
      assert (c * 0x10_0000 + i) / 0x10_0000 == c && (c * 0x10_0000 + i) % 0x10_0000 == i;
    }
  }

  lemma ContentPrefix(mode: Mode, remote: Remote, e: MapsEntry, call: nat, done: nat, bytes: seq<byte>, next: nat)
    requires next == done + |bytes| <= CopySize(mode, e)
    requires forall i :: 0 <= i < |bytes| ==> bytes[i] == ContentByte(mode, remote, e, call, done + i)
    ensures Content(mode, remote, e, call)[..done] + bytes == Content(mode, remote, e, call)[..next]
  {
    forall i | 0 <= i < |bytes|
      ensures bytes[i] == Content(mode, remote, e, call)[done + i]
    {
      ContentAt(mode, remote, e, call, done + i);
    }
  }

  lemma ContentGrows(mode: Mode, remote: Remote, e: MapsEntry, call: nat, before: seq<byte>,
                     done: nat, bytes: seq<byte>, next: nat)
    requires next == done + |bytes| <= CopySize(mode, e)
    requires forall i :: 0 <= i < |bytes| ==> bytes[i] == ContentByte(mode, remote, e, call, done + i)
    ensures before + Content(mode, remote, e, call)[..done] + bytes
         == before + Content(mode, remote, e, call)[..next]
  {
    ContentPrefix(mode, remote, e, call, done, bytes, next);
    Associate(before, Content(mode, remote, e, call)[..done], bytes);
  }

  /** `address += chunk` in the snapshotter's word size. */
  function Advance(mode: Mode, address: nat, chunk: nat): nat {
    Wrap(mode, address + chunk)
  }

  lemma AddressStep(mode: Mode, e: MapsEntry, c: nat, chunk: nat)
    ensures chunk == 0x10_0000 ==> Advance(mode, ChunkAddress(mode, e, c), chunk) == ChunkAddress(mode, e, c + 1)
  {
    WrapSum(mode, e.start + c * 0x10_0000, chunk);
  }

  lemma ChunkSteps(size: nat, c: nat, remaining: nat, chunk: nat)
    requires 0 < remaining <= size && size - remaining == c * 0x10_0000
    requires chunk == if remaining > BUFFER_SIZE then BUFFER_SIZE else remaining
    ensures chunk == ChunkLength(size, c) <= remaining
    ensures remaining != chunk ==> chunk == 0x10_0000 && size - (remaining - chunk) == (c + 1) * 0x10_0000
    ensures remaining == chunk ==> c + 1 == (size + 0xF_FFFF) / 0x10_0000
  {
  }

  lemma Associate<T>(a: seq<T>, b: seq<T>, c: seq<T>)
    ensures (a + b) + c == a + (b + c)
  {
  }

  /** Chunk `c` goes to the file, behind the first `done` content bytes. */
  method CopyChunk(mode: Mode, e: MapsEntry, buffer: array<byte>, kernel: Kernel, file: OutFile,
                   address: nat, chunk: nat, ghost before: seq<byte>, ghost call: nat, ghost c: nat,
                   ghost done: nat, ghost next: nat)
    requires chunk == ChunkLength(CopySize(mode, e), c) <= buffer.Length == BUFFER_SIZE
    requires address == ChunkAddress(mode, e, c)
    requires kernel.calls == call + if e.read == 0 then 0 else c
    requires e.read == 0 ==> forall i :: 0 <= i < chunk ==> buffer[i] == 0
    requires done == c * 0x10_0000 && next == done + chunk <= CopySize(mode, e)
    requires file.contents == before + Content(mode, kernel.remote, e, call)[..done]
    modifies buffer, kernel, file
    ensures file.contents == before + Content(mode, kernel.remote, e, call)[..next]
    ensures e.read == 0 ==> buffer[..] == old(buffer[..])
    ensures kernel.calls == old(kernel.calls) + if e.read == 0 then 0 else 1
  {
    hide ContentByte, ChunkAddress, ChunkLength, Content;
    FetchChunk(mode, e, buffer, kernel, address, chunk, call, c);
    var bytes := buffer[..chunk];
    ContentGrows(mode, kernel.remote, e, call, before, done, bytes, next);
    file.Write(bytes);
  }

  /** The `while (remaining != 0)` loop, with the clearing in front of it. */
  method CopyMapping(mode: Mode, e: MapsEntry, buffer: array<byte>, kernel: Kernel, file: OutFile)
    requires buffer.Length == BUFFER_SIZE
    modifies buffer, kernel, file
    ensures file.contents == old(file.contents) + Content(mode, kernel.remote, e, old(kernel.calls))
    ensures kernel.calls == old(kernel.calls) + ReadCalls(mode, e)
  {
    var size: nat := CopySize(mode, e);
    var remaining: nat := size;
    var address: nat := Wrap(mode, e.start);
    if e.read == 0 {
      ZeroFill(buffer, if BUFFER_SIZE > remaining then remaining else BUFFER_SIZE);
    }
    ghost var content, call := Content(mode, kernel.remote, e, kernel.calls), kernel.calls;
    ghost var c: nat, done: nat := 0, 0;
    while remaining != 0
      invariant remaining <= size == |content| && done + remaining == size
      invariant remaining != 0 ==> done == c * 0x10_0000 && address == ChunkAddress(mode, e, c)
      invariant remaining == 0 ==> c == (size + 0xF_FFFF) / 0x10_0000
      invariant kernel.calls == call + if e.read == 0 then 0 else c
      invariant e.read == 0 ==> forall i :: 0 <= i < BUFFER_SIZE && i < size ==> buffer[i] == 0
      invariant file.contents == old(file.contents) + content[..done]
    {
      var chunk: nat := if remaining > BUFFER_SIZE then BUFFER_SIZE else remaining;
      ChunkSteps(size, c, remaining, chunk);
      ghost var next: nat := done + chunk;
      CopyChunk(mode, e, buffer, kernel, file, address, chunk, old(file.contents), call, c, done, next);
      AddressStep(mode, e, c, chunk);
      address := Advance(mode, address, chunk);
      remaining := remaining - chunk;
      c, done := c + 1, next;
    }
    assert content[..size] == content;
  }

  method ZeroFill(buffer: array<byte>, n: nat)
    requires n <= buffer.Length
    modifies buffer
    ensures forall i :: 0 <= i < n ==> buffer[i] == 0
    ensures forall i :: n <= i < buffer.Length ==> buffer[i] == old(buffer[i])
  {
    for i := 0 to n
      invariant forall j :: 0 <= j < i ==> buffer[j] == 0
      invariant forall j :: i <= j < buffer.Length ==> buffer[j] == old(buffer[j])
    {
      buffer[i] := 0;
    }
  }

  lemma OneRecord(before: seq<byte>, r: Record)
    ensures before + EncodeHeader(r.header) + r.content == before + Flatten([r])
  {
    hide EncodeHeader;
    assert Flatten([r]) == r.Bytes() + [];
  }

  /** The body of the outer loop: filter, header, content. */
  method DumpEntry(mode: Mode, e: MapsEntry, buffer: array<byte>, kernel: Kernel, file: OutFile) returns (dumped: nat)
    requires buffer.Length == BUFFER_SIZE
    modifies buffer, kernel, file
    ensures file.contents == old(file.contents) + Flatten(EntryRecords(mode, kernel.remote, e, old(kernel.calls)))
    ensures kernel.calls == old(kernel.calls) + EntryCalls(mode, e)
    ensures dumped == |EntryRecords(mode, kernel.remote, e, old(kernel.calls))|
  {
    hide EncodeHeader, Content, ReadCalls;
    if Special(e.Path()) {
      return 0;
    }
    OneRecord(file.contents, Record(e, Content(mode, kernel.remote, e, kernel.calls)));
    file.Write(EncodeHeader(e));
    CopyMapping(mode, e, buffer, kernel, file);
    return 1;
  }

  /** The records still to be written; None if some maps line to come is malformed. */
  ghost function Owed(mode: Mode, iter: MapsIter, kernel: Kernel): Option<seq<Record>>
    requires iter.Valid()
    reads iter, iter.entry, iter.entry.path, kernel
  {
    match iter.Pending()
    case None => None
    case Some(es) => Some(RecordsFrom(mode, kernel.remote, es, kernel.calls))
  }

  /** One turn of the outer loop; `now` is what it adds to the file. */
  method DumpNext(mode: Mode, iter: MapsIter, buffer: array<byte>, kernel: Kernel, file: OutFile)
    returns (r: NextResult, dumped: nat, ghost now: seq<Record>)
    requires iter.Valid() && buffer.Length == BUFFER_SIZE
    requires buffer != iter.entry.path
    modifies iter, iter.entry, iter.entry.path, buffer, kernel, file
    ensures iter.Valid()
    ensures file.contents == old(file.contents) + Flatten(now) && dumped == |now|
    ensures r == End ==> old(Owed(mode, iter, kernel)) == Some([]) && now == []
    ensures r == Fatal ==> old(Owed(mode, iter, kernel)) == None && now == []
    ensures r == Entry ==>
              && |iter.file| < |old(iter.file)|
              && old(Owed(mode, iter, kernel)).Some? == Owed(mode, iter, kernel).Some?
              && (Owed(mode, iter, kernel).Some? ==>
                    old(Owed(mode, iter, kernel)).value == now + Owed(mode, iter, kernel).value)
  {
    hide EntryRecords, EntryCalls;
    ghost var todo, call := iter.Pending(), kernel.calls;
    r := iter.Next();
    dumped, now := 0, [];
    if r == Entry {
      var e := iter.entry.Snapshot();
      ghost var rest := iter.Pending();
      now := EntryRecords(mode, kernel.remote, e, call);
      dumped := DumpEntry(mode, e, buffer, kernel, file);
      assert iter.Pending() == rest;
      if rest.Some? {
        RecordsFromCons(mode, kernel.remote, todo.value, e, rest.value, call, kernel.calls);
      }
    } else {
      assert file.contents + [] == file.contents;
    }
  }

  /** What one turn adds, seen from the start of the loop. */
  lemma WrittenGrows(before: seq<byte>, written: seq<Record>, now: seq<Record>)
    ensures before + Flatten(written) + Flatten(now) == before + Flatten(written + now)
  {
    FlattenAppend(written, now);
    Associate(before, Flatten(written), Flatten(now));
  }

  /** The whole of `dump_mappings_content`; None is the fatal exit on a malformed line. */
  method DumpMappingsContent(mode: Mode, iter: MapsIter, kernel: Kernel, file: OutFile) returns (dumped: Option<nat>)
    requires iter.Valid()
    modifies iter, iter.entry, iter.entry.path, kernel, file
    ensures dumped.Some? <==> old(iter.Pending()).Some?
    ensures dumped.Some? ==>
              var records := RecordsFrom(mode, kernel.remote, old(iter.Pending()).value, old(kernel.calls));
              && file.contents == old(file.contents) + Flatten(records)
              && dumped.value == |records|
  {
    var buffer := new byte[BUFFER_SIZE];
    var count := 0;
    var r := Entry;
    ghost var all, written: seq<Record> := Owed(mode, iter, kernel), [];
    assert all.Some? <==> old(iter.Pending()).Some?;
    assert all.Some? ==> all.value == RecordsFrom(mode, kernel.remote, old(iter.Pending()).value, old(kernel.calls));
    assert old(file.contents) + [] == old(file.contents);
    hide Owed;
    while r == Entry
      invariant iter.Valid() && fresh(buffer) && buffer.Length == BUFFER_SIZE
      invariant r == Entry ==> (Owed(mode, iter, kernel).Some? <==> all.Some?)
      invariant r == Entry && all.Some? ==> all.value == written + Owed(mode, iter, kernel).value
      invariant r == Fatal ==> all.None?
      invariant r == End ==> all == Some(written)
      invariant file.contents == old(file.contents) + Flatten(written)
      invariant count == |written|
      decreases if r == Entry then 1 + |iter.file| else 0
    {
      var n;
      ghost var now;
      r, n, now := DumpNext(mode, iter, buffer, kernel, file);
      count := count + n;
      WrittenGrows(old(file.contents), written, now);
      if all.Some? && r == Entry {
        Associate(written, now, Owed(mode, iter, kernel).value);
      }
      written := written + now;
    }
    return if r == Fatal then None else Some(count);
  }

  // ------------------------------------------------------------------ what the file then holds

  /**
    Each 1 MiB slice is wholly the remote bytes or wholly zero, whatever garbage the other reads
    left in the buffer, and zero throughout for a mapping that is not readable.
   */
  lemma SliceIsRemoteOrZero(mode: Mode, remote: Remote, e: MapsEntry, call: nat, c: nat, from: nat, to: nat)
    requires from == c * 0x10_0000 < CopySize(mode, e) && to == from + ChunkLength(CopySize(mode, e), c)
    ensures to <= |Content(mode, remote, e, call)|
    ensures var slice := Content(mode, remote, e, call)[from..to];
            var address := ChunkAddress(mode, e, c);
            if e.read != 0 && remote.ReadsFully(call + c, address, |slice|)
            then forall i :: 0 <= i < |slice| ==> address + i in remote.memory && slice[i] == remote.memory[address + i]
            else slice == Zeros(|slice|)
  {
    forall i | 0 <= i < to - from
      ensures SliceByte(mode, remote, e, call, c, i, Content(mode, remote, e, call)[from..to][i])
    {
      ContentInChunk(mode, remote, e, call, c, i, from + i);
    }
  }

  /** `b` is what byte `i` of chunk `c` has to be. */
  ghost predicate SliceByte(mode: Mode, remote: Remote, e: MapsEntry, call: nat, c: nat, i: nat, b: byte) {
    var address := ChunkAddress(mode, e, c);
    if e.read != 0 && remote.ReadsFully(call + c, address, ChunkLength(CopySize(mode, e), c))
    then address + i in remote.memory && b == remote.memory[address + i]
    else b == 0
  }

  lemma ContentInChunk(mode: Mode, remote: Remote, e: MapsEntry, call: nat, c: nat, i: nat, k: nat)
    requires k == c * 0x10_0000 + i < CopySize(mode, e) && i < ChunkLength(CopySize(mode, e), c)
    ensures SliceByte(mode, remote, e, call, c, i, Content(mode, remote, e, call)[k])
  {
    assert k / 0x10_0000 == c && k % 0x10_0000 == i;
    ContentAt(mode, remote, e, call, k);
  }

  lemma ChunkAddressInside(mode: Mode, e: MapsEntry, c: nat, offset: nat)
    requires offset == c * 0x10_0000 && e.start + offset < WordModulus(mode)
    ensures ChunkAddress(mode, e, c) == e.start + offset
  {
  }

  /** A mapping inside the tracee's address space whose reads are all full is copied exactly. */
  lemma FullReadsCopyExactly(mode: Mode, remote: Remote, e: MapsEntry, call: nat, i: nat)
    requires e.read != 0 && e.start <= e.end <= WordModulus(mode) && i < e.end - e.start
    requires CopySize(mode, e) == e.end - e.start
    requires forall c :: 0 <= c < ReadCalls(mode, e) ==>
               remote.ReadsFully(call + c, ChunkAddress(mode, e, c), ChunkLength(CopySize(mode, e), c))
    ensures e.start + i in remote.memory
    ensures Content(mode, remote, e, call)[i] == remote.memory[e.start + i]
  {
    ContentAt(mode, remote, e, call, i);
    var c := i / 0x10_0000;
    var offset := c * 0x10_0000;
    assert offset <= i == offset + i % 0x10_0000;
    ChunkAddressInside(mode, e, c, offset);
    var n := ChunkLength(CopySize(mode, e), c);
    assert i % 0x10_0000 < n;
    assert 0 <= c < ReadCalls(mode, e);
    assert remote.ReadsFully(call + c, e.start + offset, n);
  }

  lemma UnreadableIsZero(mode: Mode, remote: Remote, e: MapsEntry, call: nat)
    requires e.read == 0
    ensures Content(mode, remote, e, call) == Zeros(CopySize(mode, e))
  {
    forall i | 0 <= i < CopySize(mode, e)
      ensures Content(mode, remote, e, call)[i] == 0
    {
      ContentAt(mode, remote, e, call, i);
    }
  }

  /** The entries that are not one of the three special mappings, in order. */
  function Keep(es: seq<MapsEntry>): seq<MapsEntry>
  {
    if es == [] then []
    else if KernelPage(es[0].Path()) then Keep(es[1..])
    else [es[0]] + Keep(es[1..])
  }

  function TotalSize(mode: Mode, kept: seq<MapsEntry>): nat
  {
    if kept == [] then 0 else HEADER_SIZE + CopySize(mode, kept[0]) + TotalSize(mode, kept[1..])
  }

  ghost predicate CarriesEntry(mode: Mode, r: Record, e: MapsEntry) {
    r.header == e && |r.content| == CopySize(mode, e)
  }

  /** Conservation: one record per kept entry, in order, and a file of exactly their sizes. */
  lemma {:induction false} RecordsAreKeptEntries(mode: Mode, remote: Remote, es: seq<MapsEntry>, call: nat)
    ensures var rs := RecordsFrom(mode, remote, es, call);
            && |rs| == |Keep(es)|
            && |Flatten(rs)| == TotalSize(mode, Keep(es))
            && forall i :: 0 <= i < |rs| ==> CarriesEntry(mode, rs[i], Keep(es)[i])
  {
    hide Content, EncodeHeader, EntryCalls, Special, KernelPage;
    if es != [] {
      var next := call + EntryCalls(mode, es[0]);
      var first, rest := EntryRecords(mode, remote, es[0], call), RecordsFrom(mode, remote, es[1..], next);
      RecordsFromCons(mode, remote, es, es[0], es[1..], call, next);
      RecordsAreKeptEntries(mode, remote, es[1..], next);
      FlattenAppend(first, rest);
      SpecialPaths(es[0].Path());
      if Special(es[0].Path()) {
        assert first + rest == rest;
      } else {
        assert Flatten(first) == first[0].Bytes() + Flatten([]);
      }
    }
  }

  /**
    The loader finds the record of entry `e` as long as the header claims exactly when the size
    fits the snapshotter's `size_t`.
   */
  lemma RecordWellFormedIff(mode: Mode, remote: Remote, e: MapsEntry, call: nat)
    ensures Record(e, Content(mode, remote, e, call)).WellFormed() <==>
              e.Size() < if mode == Mode64 then 0x1_0000_0000_0000_0000 else 0x1_0000_0000
  {
  }

  lemma HeaderAloneIsRefused(e: MapsEntry)
    requires e.Size() > 0
    ensures ParseRecords(EncodeHeader(e)) == None
  {
    hide EncodeHeader, DecodeHeader;
    DecodeEncodeHeader(e);
    assert EncodeHeader(e)[..HEADER_SIZE] == EncodeHeader(e);
  }

  /** A mapping of 4 GiB, whose size is 0 in a 32-bit `size_t`. */
  function HugeEntry(path: PathBuffer): MapsEntry { MapsEntry(0, 0x1_0000_0000, 1, 1, 0, 0, 0, path) }

  /** A 32-bit snapshotter writes it without content, and the loader refuses what was written. */
  lemma HugeEntryIsRefused(remote: Remote, call: nat, path: PathBuffer)
    ensures var r := Record(HugeEntry(path), Content(Mode32, remote, HugeEntry(path), call));
            r.content == [] && !r.WellFormed() && ParseRecords(r.Bytes()) == None
  {
    hide EncodeHeader, DecodeHeader;
    var e := HugeEntry(path);
    assert Content(Mode32, remote, e, call) == [];
    assert EncodeHeader(e) + [] == EncodeHeader(e);
    HeaderAloneIsRefused(e);
  }
}
