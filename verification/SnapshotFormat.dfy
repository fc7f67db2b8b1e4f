/**
  The snapshot file: the fixed-size register state followed by mapping records. Shared by the
  snapshotter, which writes it, and the loader, which parses it.
 */
module SnapshotFormat {
  import opened Bytes

  // ------------------------------------------------------------------ mapping headers

  const PATH_SIZE: nat := 4096
  const HEADER_SIZE: nat := 28 + PATH_SIZE

  type PathBuffer = s: seq<byte> | |s| == PATH_SIZE witness Zeros(PATH_SIZE)

  /** The packed `maps_entry_t`. The four flags are whole bytes; `path` is the raw buffer. */
  datatype MapsEntry = MapsEntry(start: u64, end: u64,
                                 read: byte, write: byte, exec: byte, shared: byte,
                                 fileOffset: u64, path: PathBuffer)
  {
    function Path(): seq<byte> { CString(path) }

    /** `end - start` in 64-bit unsigned arithmetic. */
    function Size(): u64 { (end - start) % 0x1_0000_0000_0000_0000 }
  }

  function EncodeHeader(e: MapsEntry): (s: seq<byte>)
    ensures |s| == HEADER_SIZE
  {
    LittleEndian(8, e.start) + LittleEndian(8, e.end) + [e.read, e.write, e.exec, e.shared]
    + LittleEndian(8, e.fileOffset) + e.path
  }

  function DecodeHeader(s: seq<byte>): MapsEntry
    requires |s| == HEADER_SIZE
  {
    MapsEntry(Word64(s[..8]), Word64(s[8..16]), s[16], s[17], s[18], s[19], Word64(s[20..28]), s[28..])
  }

  lemma DecodeEncodeHeader(e: MapsEntry)
    ensures DecodeHeader(EncodeHeader(e)) == e
  {
    var s := EncodeHeader(e);
    assert s[..8] == LittleEndian(8, e.start);
    assert s[8..16] == LittleEndian(8, e.end);
    assert s[20..28] == LittleEndian(8, e.fileOffset);
    assert s[28..] == e.path;
    Word64RoundTrip(e.start);
    Word64RoundTrip(e.end);
    Word64RoundTrip(e.fileOffset);
  }

  lemma EncodeDecodeHeader(s: seq<byte>)
    requires |s| == HEADER_SIZE
    ensures EncodeHeader(DecodeHeader(s)) == s
  {
    LittleEndianOfValue(s[..8]);
    LittleEndianOfValue(s[8..16]);
    LittleEndianOfValue(s[20..28]);
    SplitHeader(s);
  }

  lemma SplitHeader(s: seq<byte>)
    requires |s| == HEADER_SIZE
    ensures s == s[..8] + s[8..16] + [s[16], s[17], s[18], s[19]] + s[20..28] + s[28..]
  {
  }

  // ------------------------------------------------------------------ register state

  datatype Mode = Mode32 | Mode64

  /** `size_t` and `uintptr_t` of the snapshotter, which is built for the tracee's architecture. */
  function WordModulus(mode: Mode): nat { if mode == Mode64 then TWO64 else TWO32 }

  function Wrap(mode: Mode, a: int): nat {
    if mode == Mode64 then a % 0x1_0000_0000_0000_0000 else a % 0x1_0000_0000
  }

  /** A sum may be wrapped on the way. */
  lemma WrapSum(mode: Mode, a: nat, b: nat)
    ensures Wrap(mode, Wrap(mode, a) + b) == Wrap(mode, a + b)
  {
    if mode == Mode64 {
      WrapTwice64(a, b);
    } else {
      WrapTwice32(a, b);
    }
  }

  lemma WrapTwice64(x: nat, k: nat)
    ensures (x % 0x1_0000_0000_0000_0000 + k) % 0x1_0000_0000_0000_0000 == (x + k) % 0x1_0000_0000_0000_0000
  {
  }

  lemma WrapTwice32(x: nat, k: nat)
    ensures (x % 0x1_0000_0000 + k) % 0x1_0000_0000 == (x + k) % 0x1_0000_0000
  {
  }

  /** `struct pb_x86_64_regs`, fields in file order. */
  datatype RegsX64 = RegsX64(
    r15: u64, r14: u64, r13: u64, r12: u64, rbp: u64, rbx: u64, r11: u64,
    r10: u64, r9: u64, r8: u64, rax: u64, rcx: u64, rdx: u64, rsi: u64,
    rdi: u64, orig_rax: u64, rip: u64, cs: u64, eflags: u64, rsp: u64, ss: u64,
    fs_base: u64, gs_base: u64, ds: u64, es: u64, fs: u64, gs: u64)
  {
    function Words(): seq<nat> {
      [r15, r14, r13, r12, rbp, rbx, r11, r10, r9, r8, rax, rcx, rdx, rsi,
       rdi, orig_rax, rip, cs, eflags, rsp, ss, fs_base, gs_base, ds, es, fs, gs]
    }
  }

  /** `struct pb_i386_regs`, fields in file order. */
  datatype RegsI386 = RegsI386(
    ebx: u32, ecx: u32, edx: u32, esi: u32, edi: u32, ebp: u32, eax: u32,
    xds: u32, xes: u32, xfs: u32, xgs: u32, orig_eax: u32, eip: u32, xcs: u32,
    eflags: u32, esp: u32, xss: u32)
  {
    function Words(): seq<nat> {
      [ebx, ecx, edx, esi, edi, ebp, eax, xds, xes, xfs, xgs, orig_eax, eip, xcs, eflags, esp, xss]
    }
  }

  /** `struct user_desc`; `flags` is the word of bit fields with its padding. */
  datatype UserDesc = UserDesc(entry_number: u32, base_addr: u32, limit: u32, flags: u32)
  {
    function Words(): seq<nat> { [entry_number, base_addr, limit, flags] }
  }

  const TLS_ENTRIES: nat := 3

  type TlsArray = s: seq<UserDesc> | |s| == TLS_ENTRIES
    witness [UserDesc(0, 0, 0, 0), UserDesc(0, 0, 0, 0), UserDesc(0, 0, 0, 0)]

  datatype I386State = I386State(regs: RegsI386, tls: TlsArray)

  datatype ProcessState = X8664(x64: RegsX64) | I386(i386: I386State)
  {
    function Mode(): Mode { if X8664? then Mode64 else Mode32 }
  }

  function StateSize(mode: Mode): nat { if mode == Mode64 then 216 else 116 }

  ghost predicate AllBelow(words: seq<nat>, bound: nat) {
    forall i :: 0 <= i < |words| ==> words[i] < bound
  }

  function RegsX64FromWords(w: seq<nat>): (r: RegsX64)
    requires |w| == 27 && AllBelow(w, TWO64)
  {
    RegsX64(w[0], w[1], w[2], w[3], w[4], w[5], w[6], w[7], w[8],
            w[9], w[10], w[11], w[12], w[13], w[14], w[15], w[16], w[17],
            w[18], w[19], w[20], w[21], w[22], w[23], w[24], w[25], w[26])
  }

  function RegsI386FromWords(w: seq<nat>): (r: RegsI386)
    requires |w| == 17 && AllBelow(w, TWO32)
  {
    RegsI386(w[0], w[1], w[2], w[3], w[4], w[5], w[6], w[7], w[8],
             w[9], w[10], w[11], w[12], w[13], w[14], w[15], w[16])
  }

  function UserDescFromWords(w: seq<nat>): (d: UserDesc)
    requires |w| == 4 && AllBelow(w, TWO32)
  {
    UserDesc(w[0], w[1], w[2], w[3])
  }

  function I386Words(i: I386State): (w: seq<nat>)
    ensures |w| == 29 && AllBelow(w, TWO32)
  {
    i.regs.Words() + i.tls[0].Words() + i.tls[1].Words() + i.tls[2].Words()
  }

  function I386FromWords(w: seq<nat>): (i: I386State)
    requires |w| == 29 && AllBelow(w, TWO32)
  {
    I386State(RegsI386FromWords(w[..17]),
              [UserDescFromWords(w[17..21]), UserDescFromWords(w[21..25]), UserDescFromWords(w[25..29])])
  }

  lemma X64WordsRoundTrip(w: seq<nat>)
    requires |w| == 27 && AllBelow(w, TWO64)
    ensures RegsX64FromWords(w).Words() == w
  {
  }

  lemma I386WordsRoundTrip(w: seq<nat>)
    requires |w| == 29 && AllBelow(w, TWO32)
    ensures I386Words(I386FromWords(w)) == w
  {
    var i := I386FromWords(w);
    assert i.regs.Words() == w[..17];
    assert i.tls[0].Words() == w[17..21];
    assert i.tls[1].Words() == w[21..25];
    assert i.tls[2].Words() == w[25..29];
  }

  lemma I386WordsInjective(a: I386State, b: I386State)
    requires I386Words(a) == I386Words(b)
    ensures a == b
  {
    var v, w := I386Words(a), I386Words(b);
    assert v[..17] == a.regs.Words() && w[..17] == b.regs.Words();
    assert a.regs == b.regs by { SameRegs(a.regs, b.regs); }
    forall k | 0 <= k < TLS_ENTRIES
      ensures a.tls[k] == b.tls[k]
    {
      assert v[17 + 4 * k..21 + 4 * k] == a.tls[k].Words();
      assert w[17 + 4 * k..21 + 4 * k] == b.tls[k].Words();
      SameDesc(a.tls[k], b.tls[k]);
    }
    assert a.tls == b.tls;
  }

  lemma SameRegs(a: RegsI386, b: RegsI386)
    requires a.Words() == b.Words()
    ensures a == b
  {
    forall i | 0 <= i < 17 ensures a.Words()[i] == b.Words()[i] {}
  }

  lemma SameDesc(a: UserDesc, b: UserDesc)
    requires a.Words() == b.Words()
    ensures a == b
  {
    forall i | 0 <= i < 4 ensures a.Words()[i] == b.Words()[i] {}
  }

  function EncodeState(st: ProcessState): (s: seq<byte>)
    ensures |s| == StateSize(st.Mode())
  {
    match st
    case X8664(r) => RunLengthIsProduct(8, 27); EncodeWords(8, r.Words())
    case I386(i) => RunLengthIsProduct(4, 29); EncodeWords(4, I386Words(i))
  }

  function DecodeState(mode: Mode, s: seq<byte>): (st: ProcessState)
    requires |s| == StateSize(mode)
    ensures st.Mode() == mode
  {
    Widths();
    if mode == Mode64 then
      RunLengthIsProduct(8, 27);
      X8664(RegsX64FromWords(DecodeWords(8, 27, s)))
    else
      RunLengthIsProduct(4, 29);
      I386(I386FromWords(DecodeWords(4, 29, s)))
  }

  lemma X64FromWordsOfRegs(r: RegsX64)
    ensures AllBelow(r.Words(), TWO64)
    ensures RegsX64FromWords(r.Words()) == r
  {
  }

  lemma I386FromWordsOfState(i: I386State)
    ensures I386FromWords(I386Words(i)) == i
  {
    I386WordsRoundTrip(I386Words(i));
    I386WordsInjective(i, I386FromWords(I386Words(i)));
  }

  lemma DecodeEncodeState(st: ProcessState)
    ensures DecodeState(st.Mode(), EncodeState(st)) == st
  {
    Widths();
    match st
    case X8664(r) =>
      X64FromWordsOfRegs(r);
      DecodeEncodeWords(8, r.Words());
    case I386(i) =>
      I386FromWordsOfState(i);
      DecodeEncodeWords(4, I386Words(i));
  }

  lemma EncodeDecodeState(mode: Mode, s: seq<byte>)
    requires |s| == StateSize(mode)
    ensures EncodeState(DecodeState(mode, s)) == s
  {
    Widths();
    if mode == Mode64 {
      RunLengthIsProduct(8, 27);
      EncodeDecodeWords(8, 27, s);
      X64WordsRoundTrip(DecodeWords(8, 27, s));
    } else {
      RunLengthIsProduct(4, 29);
      EncodeDecodeWords(4, 29, s);
      I386WordsRoundTrip(DecodeWords(4, 29, s));
    }
  }

  /** Field `k` of the register structure is the word at eight times `k`, or four times. */
  lemma RegisterOffset(st: ProcessState, k: nat, at: nat)
    requires match st
             case X8664(r) => k < 27 && at == 8 * k
             case I386(i) => k < 17 && at == 4 * k
    ensures match st
            case X8664(r) => EncodeState(st)[at..at + 8] == LittleEndian(8, r.Words()[k])
            case I386(i) => EncodeState(st)[at..at + 4] == LittleEndian(4, i.regs.Words()[k])
  {
    match st
    case X8664(r) =>
      RunLengthIsProduct(8, k);
      EncodedWordAt(8, r.Words(), k, at);
    case I386(i) =>
      RunLengthIsProduct(4, k);
      EncodedWordAt(4, I386Words(i), k, at);
      assert I386Words(i)[k] == i.regs.Words()[k];
  }

  // ------------------------------------------------------------------ mapping records

  datatype Record = Record(header: MapsEntry, content: seq<byte>)
  {
    predicate WellFormed() { |content| == header.Size() }

    function Bytes(): (s: seq<byte>)
      ensures |s| == HEADER_SIZE + |content|
    {
      EncodeHeader(header) + content
    }
  }

  ghost predicate AllWellFormed(rs: seq<Record>) {
    forall i :: 0 <= i < |rs| ==> rs[i].WellFormed()
  }

  function Flatten(rs: seq<Record>): seq<byte>
  {
    if rs == [] then [] else rs[0].Bytes() + Flatten(rs[1..])
  }

  /** What the loader's loop reads from `s`; None where it would call `LOG_FATAL`. */
  function ParseRecords(s: seq<byte>): (r: Option<seq<Record>>)
    decreases |s|
  {
    if s == [] then Some([])
    else if |s| < HEADER_SIZE then None
    else
      var header := DecodeHeader(s[..HEADER_SIZE]);
      if header.Size() > |s| - HEADER_SIZE then None
      else
        var next := HEADER_SIZE + header.Size();
        match ParseRecords(s[next..])
        case None => None
        case Some(rest) => Some([Record(header, s[HEADER_SIZE..next])] + rest)
  }

  lemma {:induction false} FlattenAppend(a: seq<Record>, b: seq<Record>)
    ensures Flatten(a + b) == Flatten(a) + Flatten(b)
  {
    if a == [] {
      assert a + b == b;
    } else {
      assert (a + b)[1..] == a[1..] + b;
      FlattenAppend(a[1..], b);
    }
  }

  /** Parsing undoes writing, for every list of records with contents of the claimed size. */
  lemma {:induction false} ParseFlatten(rs: seq<Record>)
    requires AllWellFormed(rs)
    ensures ParseRecords(Flatten(rs)) == Some(rs)
  {
    hide EncodeHeader, DecodeHeader;
    if rs != [] {
      var s := Flatten(rs);
      assert s[..HEADER_SIZE] == EncodeHeader(rs[0].header);
      DecodeEncodeHeader(rs[0].header);
      var next := HEADER_SIZE + rs[0].header.Size();
      assert s[HEADER_SIZE..next] == rs[0].content;
      assert s[next..] == Flatten(rs[1..]);
      ParseFlatten(rs[1..]);
      assert rs == [rs[0]] + rs[1..];
    }
  }

  /** Writing undoes parsing: an accepted byte string has no second representation. */
  lemma {:induction false} FlattenParse(s: seq<byte>)
    requires ParseRecords(s).Some?
    ensures AllWellFormed(ParseRecords(s).value)
    ensures Flatten(ParseRecords(s).value) == s
    decreases |s|
  {
    hide DecodeHeader, EncodeHeader;
    if s != [] {
      var header := DecodeHeader(s[..HEADER_SIZE]);
      var next := HEADER_SIZE + header.Size();
      FlattenParse(s[next..]);
      EncodeDecodeHeader(s[..HEADER_SIZE]);
      var rs := ParseRecords(s).value;
      assert rs[1..] == ParseRecords(s[next..]).value;
      assert s == s[..HEADER_SIZE] + s[HEADER_SIZE..next] + s[next..];
    }
  }

  lemma {:induction false} RecordCountBound(rs: seq<Record>)
    ensures 4124 * |rs| <= |Flatten(rs)|
  {
    if rs != [] {
      RecordCountBound(rs[1..]);
    }
  }

  lemma {:induction false} FlattenedPrefix(rs: seq<Record>, all: seq<Record>)
    requires AllWellFormed(rs) && AllWellFormed(all)
    requires Flatten(rs) <= Flatten(all)
    ensures rs <= all
  {
    hide EncodeHeader, DecodeHeader;
    if rs != [] {
      var s, t := Flatten(rs), Flatten(all);
      assert |s| >= HEADER_SIZE;
      assert all != [];
      assert s[..HEADER_SIZE] == EncodeHeader(rs[0].header);
      assert t[..HEADER_SIZE] == EncodeHeader(all[0].header);
      assert s[..HEADER_SIZE] == t[..HEADER_SIZE];
      DecodeEncodeHeader(rs[0].header);
      DecodeEncodeHeader(all[0].header);
      var next := HEADER_SIZE + rs[0].header.Size();
      assert s[HEADER_SIZE..next] == rs[0].content;
      assert t[HEADER_SIZE..next] == all[0].content;
      assert s[next..] == Flatten(rs[1..]);
      assert t[next..] == Flatten(all[1..]);
      FlattenedPrefix(rs[1..], all[1..]);
      assert rs[0] == all[0];
      assert rs == [rs[0]] + rs[1..] && all == [all[0]] + all[1..];
    }
  }

  // ------------------------------------------------------------------ whole snapshots

  datatype Snapshot = Snapshot(state: ProcessState, records: seq<Record>)

  function Serialize(snap: Snapshot): seq<byte> {
    EncodeState(snap.state) + Flatten(snap.records)
  }

  function Parse(mode: Mode, data: seq<byte>): (r: Option<Snapshot>)
  {
    if |data| < StateSize(mode) then None
    else
      match ParseRecords(data[StateSize(mode)..])
      case None => None
      case Some(rs) => Some(Snapshot(DecodeState(mode, data[..StateSize(mode)]), rs))
  }

  lemma ParseSerialize(snap: Snapshot)
    requires AllWellFormed(snap.records)
    ensures Parse(snap.state.Mode(), Serialize(snap)) == Some(snap)
  {
    var data, n := Serialize(snap), StateSize(snap.state.Mode());
    assert data[..n] == EncodeState(snap.state);
    assert data[n..] == Flatten(snap.records);
    DecodeEncodeState(snap.state);
    ParseFlatten(snap.records);
  }

  lemma SerializeParse(mode: Mode, data: seq<byte>)
    requires Parse(mode, data).Some?
    ensures AllWellFormed(Parse(mode, data).value.records)
    ensures Serialize(Parse(mode, data).value) == data
  {
    hide EncodeState, DecodeState;
    var head, tail := data[..StateSize(mode)], data[StateSize(mode)..];
    Rejoin(data, StateSize(mode));
    FlattenParse(tail);
    SerializeParts(mode, head, ParseRecords(tail).value);
  }

  lemma Rejoin(data: seq<byte>, n: nat)
    requires n <= |data|
    ensures data[..n] + data[n..] == data
  {
  }

  lemma SerializeParts(mode: Mode, head: seq<byte>, rs: seq<Record>)
    requires |head| == StateSize(mode)
    ensures Serialize(Snapshot(DecodeState(mode, head), rs)) == head + Flatten(rs)
  {
    EncodeDecodeState(mode, head);
  }

  /** Where `records` end in the file: the state size plus the size of the first `j` records. */
  function RecordBoundary(snap: Snapshot, j: nat): nat
    requires j <= |snap.records|
  {
    StateSize(snap.state.Mode()) + |Flatten(snap.records[..j])|
  }

  lemma BoundaryIsPrefix(snap: Snapshot, j: nat)
    requires j <= |snap.records|
    ensures RecordBoundary(snap, j) <= |Serialize(snap)|
    ensures Serialize(snap)[..RecordBoundary(snap, j)] == Serialize(Snapshot(snap.state, snap.records[..j]))
  {
    hide EncodeState;
    assert snap.records == snap.records[..j] + snap.records[j..];
    FlattenAppend(snap.records[..j], snap.records[j..]);
    var state, kept, cut := EncodeState(snap.state), Flatten(snap.records[..j]), Flatten(snap.records[j..]);
    assert Serialize(snap) == state + (kept + cut);
    assert (state + (kept + cut))[..|state| + |kept|] == state + kept;
  }

  lemma AcceptedRecordPrefix(rs: seq<Record>, m: nat)
    requires AllWellFormed(rs) && m <= |Flatten(rs)|
    requires ParseRecords(Flatten(rs)[..m]).Some?
    ensures exists j :: 0 <= j <= |rs| && m == |Flatten(rs[..j])|
  {
    var s := Flatten(rs)[..m];
    var parsed := ParseRecords(s).value;
    FlattenParse(s);
    FlattenedPrefix(parsed, rs);
    assert parsed == rs[..|parsed|];
  }

  lemma CutConcat(head: seq<byte>, tail: seq<byte>, k: nat)
    requires |head| <= k <= |head| + |tail|
    ensures (head + tail)[..k][|head|..] == tail[..k - |head|]
  {
  }

  lemma CutKeepsState(mode: Mode, head: seq<byte>, tail: seq<byte>, k: nat)
    requires |head| == StateSize(mode) && k <= |head + tail|
    requires Parse(mode, (head + tail)[..k]).Some?
    ensures |head| <= k && ParseRecords(tail[..k - |head|]).Some?
  {
    CutConcat(head, tail, k);
  }

  lemma AcceptedPrefix(snap: Snapshot, k: nat)
    requires AllWellFormed(snap.records) && k <= |Serialize(snap)|
    requires Parse(snap.state.Mode(), Serialize(snap)[..k]).Some?
    ensures exists j :: 0 <= j <= |snap.records| && k == RecordBoundary(snap, j)
  {
    hide Parse;
    var n := StateSize(snap.state.Mode());
    CutKeepsState(snap.state.Mode(), EncodeState(snap.state), Flatten(snap.records), k);
    AcceptedRecordPrefix(snap.records, k - n);
    var j :| 0 <= j <= |snap.records| && k - n == |Flatten(snap.records[..j])|;
    assert k == RecordBoundary(snap, j);
  }

  /**
    A snapshot cut short after `k` bytes is accepted exactly when the cut is at a record
    boundary, and then it is the snapshot with the records before the cut.
   */
  lemma TruncatedSnapshot(snap: Snapshot, k: nat)
    requires AllWellFormed(snap.records)
    requires k <= |Serialize(snap)|
    ensures var cut := Parse(snap.state.Mode(), Serialize(snap)[..k]);
            && (cut.Some? <==> exists j :: 0 <= j <= |snap.records| && k == RecordBoundary(snap, j))
            && forall j :: 0 <= j <= |snap.records| && k == RecordBoundary(snap, j)
                 ==> cut == Some(Snapshot(snap.state, snap.records[..j]))
  {
    var cut := Parse(snap.state.Mode(), Serialize(snap)[..k]);
    forall j | 0 <= j <= |snap.records| && k == RecordBoundary(snap, j)
      ensures cut == Some(Snapshot(snap.state, snap.records[..j]))
    {
      BoundaryIsPrefix(snap, j);
      ParseSerialize(Snapshot(snap.state, snap.records[..j]));
    }
    if cut.Some? {
      AcceptedPrefix(snap, k);
    }
  }
}
