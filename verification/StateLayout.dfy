/**
  Where each field is in the snapshot file, by name and literal byte offset: the layouts that the
  C compiler gives the structures of the two architectures and the packed header.
 */
module StateLayout {
  import opened Bytes
  import opened SnapshotFormat

  /** The least significant byte comes first. */
  lemma LittleEndian32(v: u32)
    ensures LittleEndian(4, v) == [v % 0x100, v / 0x100 % 0x100, v / 0x1_0000 % 0x100, v / 0x100_0000]
  {
    assert LittleEndian(2, v / 0x1_0000) == [v / 0x1_0000 % 0x100, v / 0x100_0000];
  }

  // ------------------------------------------------------------------ x86_64

  lemma X64Words0(r: RegsX64)
    ensures var w := r.Words();
            && |w| == 27
            && w[0] == r.r15 && w[1] == r.r14 && w[2] == r.r13 && w[3] == r.r12 && w[4] == r.rbp
  {
  }

  lemma X64Words5(r: RegsX64)
    ensures var w := r.Words();
            && |w| == 27
            && w[5] == r.rbx && w[6] == r.r11 && w[7] == r.r10 && w[8] == r.r9
  {
  }

  lemma X64Words9(r: RegsX64)
    ensures var w := r.Words();
            && |w| == 27
            && w[9] == r.r8 && w[10] == r.rax && w[11] == r.rcx && w[12] == r.rdx && w[13] == r.rsi && w[14] == r.rdi
  {
  }

  lemma X64Words15(r: RegsX64)
    ensures var w := r.Words();
            && |w| == 27
            && w[15] == r.orig_rax && w[16] == r.rip && w[17] == r.cs && w[18] == r.eflags && w[19] == r.rsp && w[20] == r.ss
  {
  }

  lemma X64Words21(r: RegsX64)
    ensures var w := r.Words();
            && |w| == 27
            && w[21] == r.fs_base && w[22] == r.gs_base && w[23] == r.ds && w[24] == r.es && w[25] == r.fs && w[26] == r.gs
  {
  }

  lemma X64Field(r: RegsX64, k: nat, at: nat, next: nat)
    requires k < 27 && at == 8 * k && next == at + 8
    ensures next <= |EncodeState(X8664(r))| && k < |r.Words()|
    ensures EncodeState(X8664(r))[at..next] == LittleEndian(8, r.Words()[k])
  {
    RegisterOffset(X8664(r), k, at);
  }

  /** The fields of `struct pb_x86_64_regs`. */
  lemma X64Layout(r: RegsX64)
    ensures var s := EncodeState(X8664(r));
            && |s| == 216
            && s[0..8] == LittleEndian(8, r.r15) && s[8..16] == LittleEndian(8, r.r14)
            && s[16..24] == LittleEndian(8, r.r13) && s[24..32] == LittleEndian(8, r.r12)
            && s[32..40] == LittleEndian(8, r.rbp) && s[40..48] == LittleEndian(8, r.rbx)
            && s[48..56] == LittleEndian(8, r.r11) && s[56..64] == LittleEndian(8, r.r10)
            && s[64..72] == LittleEndian(8, r.r9) && s[72..80] == LittleEndian(8, r.r8)
            && s[80..88] == LittleEndian(8, r.rax) && s[88..96] == LittleEndian(8, r.rcx)
            && s[96..104] == LittleEndian(8, r.rdx) && s[104..112] == LittleEndian(8, r.rsi)
            && s[112..120] == LittleEndian(8, r.rdi) && s[120..128] == LittleEndian(8, r.orig_rax)
            && s[128..136] == LittleEndian(8, r.rip) && s[136..144] == LittleEndian(8, r.cs)
            && s[144..152] == LittleEndian(8, r.eflags) && s[152..160] == LittleEndian(8, r.rsp)
            && s[160..168] == LittleEndian(8, r.ss) && s[168..176] == LittleEndian(8, r.fs_base)
            && s[176..184] == LittleEndian(8, r.gs_base) && s[184..192] == LittleEndian(8, r.ds)
            && s[192..200] == LittleEndian(8, r.es) && s[200..208] == LittleEndian(8, r.fs)
            && s[208..216] == LittleEndian(8, r.gs)
  {
    hide EncodeState, RegsX64.Words;
    X64Words0(r);
    X64Words5(r);
    X64Words9(r);
    X64Words15(r);
    X64Words21(r);
    X64Field(r, 0, 0, 8); X64Field(r, 1, 8, 16); X64Field(r, 2, 16, 24);
    X64Field(r, 3, 24, 32); X64Field(r, 4, 32, 40); X64Field(r, 5, 40, 48);
    X64Field(r, 6, 48, 56); X64Field(r, 7, 56, 64); X64Field(r, 8, 64, 72);
    X64Field(r, 9, 72, 80); X64Field(r, 10, 80, 88); X64Field(r, 11, 88, 96);
    X64Field(r, 12, 96, 104); X64Field(r, 13, 104, 112); X64Field(r, 14, 112, 120);
    X64Field(r, 15, 120, 128); X64Field(r, 16, 128, 136); X64Field(r, 17, 136, 144);
    X64Field(r, 18, 144, 152); X64Field(r, 19, 152, 160); X64Field(r, 20, 160, 168);
    X64Field(r, 21, 168, 176); X64Field(r, 22, 176, 184); X64Field(r, 23, 184, 192);
    X64Field(r, 24, 192, 200); X64Field(r, 25, 200, 208); X64Field(r, 26, 208, 216);
  }

  // ------------------------------------------------------------------ i386

  lemma I386RegsWords(r: RegsI386)
    ensures var w := r.Words();
            && |w| == 17
            && w[0] == r.ebx && w[1] == r.ecx && w[2] == r.edx && w[3] == r.esi && w[4] == r.edi
            && w[5] == r.ebp && w[6] == r.eax && w[7] == r.xds && w[8] == r.xes && w[9] == r.xfs
            && w[10] == r.xgs && w[11] == r.orig_eax && w[12] == r.eip && w[13] == r.xcs && w[14] == r.eflags
            && w[15] == r.esp && w[16] == r.xss
  {
  }

  lemma I386Field(i: I386State, k: nat, at: nat, next: nat)
    requires k < 17 && at == 4 * k && next == at + 4
    ensures next <= |EncodeState(I386(i))| && k < |i.regs.Words()|
    ensures EncodeState(I386(i))[at..next] == LittleEndian(4, i.regs.Words()[k])
  {
    RegisterOffset(I386(i), k, at);
  }

  /** The fields of `struct pb_i386_regs`. */
  lemma I386Layout(i: I386State)
    ensures var s, r := EncodeState(I386(i)), i.regs;
            && |s| == 116
            && s[0..4] == LittleEndian(4, r.ebx) && s[4..8] == LittleEndian(4, r.ecx)
            && s[8..12] == LittleEndian(4, r.edx) && s[12..16] == LittleEndian(4, r.esi)
            && s[16..20] == LittleEndian(4, r.edi) && s[20..24] == LittleEndian(4, r.ebp)
            && s[24..28] == LittleEndian(4, r.eax) && s[28..32] == LittleEndian(4, r.xds)
            && s[32..36] == LittleEndian(4, r.xes) && s[36..40] == LittleEndian(4, r.xfs)
            && s[40..44] == LittleEndian(4, r.xgs) && s[44..48] == LittleEndian(4, r.orig_eax)
            && s[48..52] == LittleEndian(4, r.eip) && s[52..56] == LittleEndian(4, r.xcs)
            && s[56..60] == LittleEndian(4, r.eflags) && s[60..64] == LittleEndian(4, r.esp)
            && s[64..68] == LittleEndian(4, r.xss)
  {
    hide EncodeState, RegsI386.Words;
    I386RegsWords(i.regs);
    I386Field(i, 0, 0, 4); I386Field(i, 1, 4, 8); I386Field(i, 2, 8, 12);
    I386Field(i, 3, 12, 16); I386Field(i, 4, 16, 20); I386Field(i, 5, 20, 24);
    I386Field(i, 6, 24, 28); I386Field(i, 7, 28, 32); I386Field(i, 8, 32, 36);
    I386Field(i, 9, 36, 40); I386Field(i, 10, 40, 44); I386Field(i, 11, 44, 48);
    I386Field(i, 12, 48, 52); I386Field(i, 13, 52, 56); I386Field(i, 14, 56, 60);
    I386Field(i, 15, 60, 64); I386Field(i, 16, 64, 68);
  }

  lemma TlsWord(i: I386State, k: nat, j: nat, m: nat)
    requires k < 3 && j < 4 && m == 17 + 4 * k + j
    ensures I386Words(i)[m] == i.tls[k].Words()[j]
  {
    match k
    case 0 =>
    case 1 =>
    case _ =>
  }

  lemma TlsField(i: I386State, k: nat, j: nat, at: nat, next: nat)
    requires k < 3 && j < 4 && at == 68 + 16 * k + 4 * j && next == at + 4
    ensures next <= |EncodeState(I386(i))| && j < |i.tls[k].Words()|
    ensures EncodeState(I386(i))[at..next] == LittleEndian(4, i.tls[k].Words()[j])
  {
    hide EncodeWords, I386Words;
    var m := 17 + 4 * k + j;
    RunLengthIsProduct(4, m);
    EncodedWordAt(4, I386Words(i), m, at);
    TlsWord(i, k, j, m);
  }

  /** A `struct user_desc`; the first is right behind the registers, the others follow. */
  lemma TlsLayout(i: I386State, k: nat, at: nat)
    requires k < 3 && at == 68 + 16 * k
    ensures var s, d := EncodeState(I386(i)), i.tls[k];
            && at + 16 <= |s|
            && s[at..at + 4] == LittleEndian(4, d.entry_number) && s[at + 4..at + 8] == LittleEndian(4, d.base_addr)
            && s[at + 8..at + 12] == LittleEndian(4, d.limit) && s[at + 12..at + 16] == LittleEndian(4, d.flags)
  {
    hide EncodeState;
    TlsField(i, k, 0, at, at + 4);
    TlsField(i, k, 1, at + 4, at + 8);
    TlsField(i, k, 2, at + 8, at + 12);
    TlsField(i, k, 3, at + 12, at + 16);
  }

  // ------------------------------------------------------------------ headers

  /** The packed `maps_entry_t`. */
  lemma HeaderLayout(e: MapsEntry)
    ensures var s := EncodeHeader(e);
            && |s| == 4124
            && s[0..8] == LittleEndian(8, e.start) && s[8..16] == LittleEndian(8, e.end)
            && s[16] == e.read && s[17] == e.write && s[18] == e.exec && s[19] == e.shared
            && s[20..28] == LittleEndian(8, e.fileOffset) && s[28..4124] == e.path
  {
  }
}
