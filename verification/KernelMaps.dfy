/**
  The text the kernel writes to `/proc/<pid>/maps` (proc_pid_maps(5)), and the proof that the
  scanner of `MapsParser` recovers every field of it.
 */
module KernelMaps {
  import opened Bytes
  import opened SnapshotFormat
  import opened MapsParser

  /** One mapping of the tracee, as the kernel describes it. */
  datatype Vma = Vma(start: u64, end: u64,
                     read: bool, write: bool, exec: bool, shared: bool,
                     fileOffset: u64, device: seq<byte>, inode: seq<byte>, path: seq<byte>)

  function HexDigit(d: nat): byte
    requires d < 16
  {
    if d < 10 then '0' as int + d else 'a' as int + d - 10
  }

  /** `%0<width>llx`: as many digits as needed, at least `width`. */
  function HexText(v: nat, width: nat): (s: seq<byte>)
    ensures s != []
    decreases v, width
  {
    if v < 16 && width <= 1 then [HexDigit(v)]
    else HexText(v / 16, if width == 0 then 0 else width - 1) + [HexDigit(v % 16)]
  }

  function Spaces(n: nat): (s: seq<byte>)
    ensures |s| == n
  {
    if n == 0 then [] else [SPACE] + Spaces(n - 1)
  }

  function PermsText(v: Vma): seq<byte> {
    [if v.read then 'r' as int else '-' as int,
     if v.write then 'w' as int else '-' as int,
     if v.exec then 'x' as int else '-' as int,
     if v.shared then 's' as int else 'p' as int]
  }

  /** `start-end perms offset device inode`, padding, path, newline. */
  function KernelLine(v: Vma, padding: nat): seq<byte> {
    HexText(v.start, 8) + ([DASH] + (HexText(v.end, 8) + ([SPACE] + (PermsText(v) + ([SPACE]
    + (HexText(v.fileOffset, 8) + ([SPACE] + (v.device + ([SPACE] + (v.inode + ([SPACE]
    + (Spaces(padding) + (v.path + [NEWLINE])))))))))))))
  }

  ghost predicate IsToken(t: seq<byte>) {
    t != [] && forall b | b in t :: !IsSpace(b) && b != 0
  }

  /** What every kernel line satisfies: plain tokens, and the newline escaped inside paths. */
  ghost predicate Printable(v: Vma) {
    IsToken(v.device) && IsToken(v.inode) && 0 !in v.path && NEWLINE !in v.path
  }

  // ------------------------------------------------------------------ scanning what was printed

  lemma {:induction false} HexTextValue(v: nat, width: nat)
    ensures forall i :: 0 <= i < |HexText(v, width)| ==> HexDigitValue(HexText(v, width)[i]).Some?
    ensures HexValue(HexText(v, width)) == v
    decreases v, width
  {
    if !(v < 16 && width <= 1) {
      var w := if width == 0 then 0 else width - 1;
      HexTextValue(v / 16, w);
      var s := HexText(v, width);
      assert s[..|s| - 1] == HexText(v / 16, w);
    } else {
      assert HexText(v, width)[..0] == [];
    }
  }

  lemma {:induction false} HexRunStops(digits: seq<byte>, rest: seq<byte>)
    requires forall i :: 0 <= i < |digits| ==> HexDigitValue(digits[i]).Some?
    requires rest == [] || HexDigitValue(rest[0]).None?
    ensures HexRun(digits + rest) == |digits|
  {
    if digits == [] {
      assert digits + rest == rest;
    } else {
      assert (digits + rest)[1..] == digits[1..] + rest;
      HexRunStops(digits[1..], rest);
    }
  }

  /** `%lx` on plain digits: no white space, sign or `0x` in front. */
  lemma ScanDigits(s: seq<byte>, n: nat, v: u64)
    requires SkipSpace(s) == s && 0 < n == HexRun(s) && HexValue(s[..n]) == v
    requires HexDigitValue(s[0]).Some? && (|s| > 1 ==> HexDigitValue(s[1]).Some? || s[1] == DASH || s[1] == SPACE)
    ensures ScanHex(s) == Some((v, s[n..]))
  {
    hide SkipSpace, HexRun, HexValue;
  }

  lemma ScanHexText(v: u64, width: nat, rest: seq<byte>)
    requires rest != [] && (rest[0] == DASH || rest[0] == SPACE)
    ensures ScanHex(HexText(v, width) + rest) == Some((v, rest))
  {
    var digits := HexText(v, width);
    var s := digits + rest;
    HexTextValue(v, width);
    hide HexText;
    HexRunStops(digits, rest);
    assert HexDigitValue(s[0]).Some?;
    assert SkipSpace(s) == s;
    assert HexDigitValue(s[1]).Some? || s[1] == rest[0];
    assert s[..|digits|] == digits && s[|digits|..] == rest;
    hide ScanHex, HexDigitValue, HexRun, HexValue;
    ScanDigits(s, |digits|, v);
  }

  lemma {:induction false} TokenStops(t: seq<byte>, rest: seq<byte>)
    requires forall b | b in t :: !IsSpace(b)
    requires rest != [] && IsSpace(rest[0])
    ensures TokenLength(t + rest) == |t|
  {
    if t == [] {
      assert t + rest == rest;
    } else {
      assert (t + rest)[1..] == t[1..] + rest;
      TokenStops(t[1..], rest);
    }
  }

  lemma ScanTokenText(t: seq<byte>, rest: seq<byte>, width: nat)
    requires IsToken(t) && |t| <= width
    requires rest != [] && IsSpace(rest[0])
    ensures ScanToken([SPACE] + (t + rest), width) == Some((t, rest))
  {
    var s := [SPACE] + (t + rest);
    assert s[1..] == t + rest;
    assert t[0] in t;
    assert SkipSpace(t + rest) == t + rest;
    TokenStops(t, rest);
    assert (t + rest)[..|t|] == t && (t + rest)[|t|..] == rest;
  }

  lemma SkipLeadingSpace(s: seq<byte>)
    ensures SkipSpace([SPACE] + s) == SkipSpace(s)
    ensures ScanHex([SPACE] + s) == ScanHex(s)
  {
    assert ([SPACE] + s)[1..] == s;
    assert SkipSpace([SPACE] + s) == SkipSpace(s);
    hide SkipSpace, HexRun, HexValue, HexDigitValue;
  }

  lemma {:induction false} SkipSpaces(n: nat, s: seq<byte>)
    ensures SkipSpace(Spaces(n) + s) == SkipSpace(s)
  {
    if n == 0 {
      assert Spaces(n) + s == s;
    } else {
      assert Spaces(n) + s == [SPACE] + (Spaces(n - 1) + s);
      SkipLeadingSpace(Spaces(n - 1) + s);
      SkipSpaces(n - 1, s);
    }
  }

  lemma {:induction false} SkipSpaceIsSuffix(s: seq<byte>)
    ensures forall b | b in SkipSpace(s) :: b in s
    ensures SkipSpace(s) == s <==> s == [] || !IsSpace(s[0])
  {
    if s != [] && IsSpace(s[0]) {
      SkipSpaceIsSuffix(s[1..]);
    }
  }

  lemma {:induction false} SkipToLineEnd(path: seq<byte>)
    ensures SkipSpace(path + [NEWLINE]) == if SkipSpace(path) == [] then [] else SkipSpace(path) + [NEWLINE]
  {
    var s := path + [NEWLINE];
    if path == [] {
      assert s[1..] == [];
    } else if IsSpace(path[0]) {
      assert s[1..] == path[1..] + [NEWLINE];
      SkipToLineEnd(path[1..]);
    }
  }

  lemma {:induction false} LineStops(text: seq<byte>, rest: seq<byte>)
    requires NEWLINE !in text
    ensures LineLength(text + [NEWLINE] + rest) == |text|
  {
    if text != [] {
      assert (text + [NEWLINE] + rest)[1..] == text[1..] + [NEWLINE] + rest;
      LineStops(text[1..], rest);
    }
  }

  /** The path the scanner sees: leading white space dropped, cut to what the buffer holds. */
  function ScannedPath(path: seq<byte>): seq<byte> {
    var t := SkipSpace(path);
    if |t| < MAX_PATH_TEXT then t else t[..MAX_PATH_TEXT]
  }

  lemma ScanPrintedPath(v: Vma, padding: nat)
    requires Printable(v)
    ensures ScanPath([SPACE] + (v.device + ([SPACE] + (v.inode + ([SPACE] + (Spaces(padding) + (v.path + [NEWLINE])))))))
         == if ScannedPath(v.path) == [] then None else Some(ScannedPath(v.path))
  {
    var tail := [SPACE] + (Spaces(padding) + (v.path + [NEWLINE]));
    var fromInode := [SPACE] + (v.inode + tail);
    var s := [SPACE] + (v.device + fromInode);
    ScanTokenText(v.device, fromInode, |s|);
    ScanTokenText(v.inode, tail, |fromInode|);
    SkipLeadingSpace(Spaces(padding) + (v.path + [NEWLINE]));
    SkipSpaces(padding, v.path + [NEWLINE]);
    SkipToLineEnd(v.path);
    var t := SkipSpace(v.path);
    if t != [] {
      SkipSpaceIsSuffix(v.path);
      LineStops(t, []);
      assert t + [NEWLINE] + [] == t + [NEWLINE];
      PrefixOfLine(t);
    }
  }

  lemma PrefixOfLine(t: seq<byte>)
    ensures (t + [NEWLINE])[..|t|] == t
    ensures |t| >= MAX_PATH_TEXT ==> (t + [NEWLINE])[..MAX_PATH_TEXT] == t[..MAX_PATH_TEXT]
  {
  }

  lemma PermsTextIsToken(v: Vma)
    ensures IsToken(PermsText(v)) && |PermsText(v)| == 4
  {
  }

  /** Every field of a kernel line comes back; the path up to leading blanks and length. */
  lemma ScanKernelLine(v: Vma, padding: nat)
    requires Printable(v)
    ensures Scan(KernelLine(v, padding))
         == Some(Fields(v.start, v.end, PermsText(v), v.fileOffset,
                        if ScannedPath(v.path) == [] then None else Some(ScannedPath(v.path))))
  {
    var fromDevice := [SPACE] + (v.device + ([SPACE] + (v.inode + ([SPACE] + (Spaces(padding) + (v.path + [NEWLINE]))))));
    var fromOffset := HexText(v.fileOffset, 8) + fromDevice;
    var fromPerms := [SPACE] + (PermsText(v) + ([SPACE] + fromOffset));
    var fromEnd := HexText(v.end, 8) + fromPerms;
    ScanHexText(v.start, 8, [DASH] + fromEnd);
    assert ([DASH] + fromEnd)[1..] == fromEnd;
    ScanHexText(v.end, 8, fromPerms);
    PermsTextIsToken(v);
    ScanTokenText(PermsText(v), [SPACE] + fromOffset, 4);
    SkipLeadingSpace(fromOffset);
    ScanHexText(v.fileOffset, 8, fromDevice);
    ScanPrintedPath(v, padding);
  }

  // ------------------------------------------------------------------ the parsed entry

  function AsFlag(b: bool): byte { if b then 1 else 0 }

  /** The mapping as the scanner sees it: everything of it, and the path as far as it is scanned. */
  function Seen(v: Vma): Vma { v.(path := ScannedPath(v.path)) }

  /** Entry `e` says about the mapping everything that `v` says. */
  ghost predicate Describes(e: MapsEntry, v: Vma) {
    && e.start == v.start && e.end == v.end && e.fileOffset == v.fileOffset
    && e.read == AsFlag(v.read) && e.write == AsFlag(v.write)
    && e.exec == AsFlag(v.exec) && e.shared == AsFlag(v.shared)
    && e.Path() == v.path
  }

  ghost predicate PathFits(path: seq<byte>) {
    |path| <= MAX_PATH_TEXT && (path != [] ==> !IsSpace(path[0]))
  }

  ghost predicate Clean(s: seq<byte>) {
    0 !in s && NEWLINE !in s
  }

  /** A whole line: clean bytes and then the newline. */
  ghost predicate IsLine(s: seq<byte>) {
    s != [] && s[|s| - 1] == NEWLINE && Clean(s[..|s| - 1])
  }

  lemma PrependClean(a: seq<byte>, s: seq<byte>)
    requires Clean(a) && IsLine(s)
    ensures IsLine(a + s)
  {
    var t := a + s;
    assert t[..|t| - 1] == a + s[..|s| - 1];
  }

  lemma {:induction false} HexTextIsClean(v: nat, width: nat)
    ensures Clean(HexText(v, width))
    decreases v, width
  {
    if !(v < 16 && width <= 1) {
      HexTextIsClean(v / 16, if width == 0 then 0 else width - 1);
    }
  }

  lemma {:induction false} SpacesAreClean(n: nat)
    ensures Clean(Spaces(n))
  {
    if n > 0 {
      SpacesAreClean(n - 1);
    }
  }

  lemma PrependToken(t: seq<byte>, s: seq<byte>)
    requires Clean(t) && IsLine(s)
    ensures IsLine([SPACE] + (t + s))
  {
    PrependClean(t, s);
    PrependClean([SPACE], t + s);
  }

  lemma KernelLineIsLine(v: Vma, padding: nat)
    requires Printable(v)
    ensures IsLine(KernelLine(v, padding))
  {
    HexTextIsClean(v.start, 8);
    HexTextIsClean(v.end, 8);
    HexTextIsClean(v.fileOffset, 8);
    SpacesAreClean(padding);
    PrependClean(v.path, [NEWLINE]);
    var s0 := v.path + [NEWLINE];
    PrependToken(Spaces(padding), s0);
    var s1 := [SPACE] + (Spaces(padding) + s0);
    PrependToken(v.inode, s1);
    var s2 := [SPACE] + (v.inode + s1);
    PrependToken(v.device, s2);
    var s3 := [SPACE] + (v.device + s2);
    PrependToken(HexText(v.fileOffset, 8), s3);
    var s4 := [SPACE] + (HexText(v.fileOffset, 8) + s3);
    PrependToken(PermsText(v), s4);
    var s5 := [SPACE] + (PermsText(v) + s4);
    PrependClean(HexText(v.end, 8), s5);
    PrependClean([DASH], HexText(v.end, 8) + s5);
    PrependClean(HexText(v.start, 8), [DASH] + (HexText(v.end, 8) + s5));
  }

  /**
    The line round trip. Everything but the path comes back unconditionally; the path comes
    back exactly when it fits the buffer and does not start with white space, whatever the
    reused path buffer held before.
   */
  lemma ParseKernelLine(v: Vma, padding: nat, before: PathBuffer)
    requires Printable(v)
    ensures var scanned := Scan(CString(KernelLine(v, padding)));
            && scanned.Some?
            && var e := FillEntry(scanned.value, before);
               && Describes(e, Seen(v))
               && (e.Path() == v.path <==> PathFits(v.path))
  {
    LineHasNoNul(v, padding);
    CStringWithoutNul(KernelLine(v, padding));
    ScanKernelLine(v, padding);
    FilledFromKernelLine(v, before);
  }

  /** A mapping whose path is one byte too long for the buffer. */
  function LongPathVma(): Vma {
    Vma(0x1000, 0x2000, true, false, true, false, 0, ['0' as int], ['0' as int], seq(4096, _ => 'a' as int))
  }

  /** It is a line the kernel may print, and its path does not come back. */
  lemma LongPathIsLost(padding: nat, before: PathBuffer)
    ensures Printable(LongPathVma()) && !PathFits(LongPathVma().path)
    ensures var scanned := Scan(CString(KernelLine(LongPathVma(), padding)));
            scanned.Some? && FillEntry(scanned.value, before).Path() == LongPathVma().path[..4095] != LongPathVma().path
  {
    ParseKernelLine(LongPathVma(), padding, before);
  }

  lemma LineHasNoNul(v: Vma, padding: nat)
    requires Printable(v)
    ensures 0 !in KernelLine(v, padding)
  {
    KernelLineIsLine(v, padding);
    var s := KernelLine(v, padding);
    assert s == s[..|s| - 1] + [s[|s| - 1]];
  }

  lemma FilledFromKernelLine(v: Vma, before: PathBuffer)
    requires Printable(v)
    ensures var f := Fields(v.start, v.end, PermsText(v), v.fileOffset,
                            if ScannedPath(v.path) == [] then None else Some(ScannedPath(v.path)));
            var e := FillEntry(f, before);
            && Describes(e, Seen(v))
            && (e.Path() == v.path <==> PathFits(v.path))
  {
    SkipSpaceIsSuffix(v.path);
    var f := Fields(v.start, v.end, PermsText(v), v.fileOffset,
                    if ScannedPath(v.path) == [] then None else Some(ScannedPath(v.path)));
    forall b | b in PathText(f) ensures b in v.path {}
    PathForgetsBuffer(f, before);
  }

  // ------------------------------------------------------------------ whole files

  function KernelFile(vs: seq<Vma>, padding: seq<nat>): seq<byte>
    requires |padding| == |vs|
  {
    if vs == [] then [] else KernelLine(vs[0], padding[0]) + KernelFile(vs[1..], padding[1..])
  }

  lemma FirstLineOf(line: seq<byte>, rest: seq<byte>)
    requires IsLine(line)
    ensures FirstLine(line + rest) == |line|
  {
    var body := line[..|line| - 1];
    assert line + rest == body + [NEWLINE] + rest;
    LineStops(body, rest);
  }

  /**
    The iterator over a whole maps file returns one entry per mapping, in order, although every
    line is parsed into the same buffer and some of the paths may be cut.
   */
  lemma {:induction false} ParseKernelFile(vs: seq<Vma>, padding: seq<nat>, before: PathBuffer)
    requires |padding| == |vs|
    requires forall i :: 0 <= i < |vs| ==> Printable(vs[i])
    ensures var es := EntriesOf(KernelFile(vs, padding), before);
            es.Some? && |es.value| == |vs| && forall i :: 0 <= i < |vs| ==> Describes(es.value[i], Seen(vs[i]))
  {
    hide Describes, Seen, Scan, KernelLine, Printable, FillEntry;
    if vs != [] {
      var line, rest := KernelLine(vs[0], padding[0]), KernelFile(vs[1..], padding[1..]);
      KernelLineIsLine(vs[0], padding[0]);
      FirstLineOf(line, rest);
      assert (line + rest)[..|line|] == line && (line + rest)[|line|..] == rest;
      ParseKernelLine(vs[0], padding[0], before);
      var e := FillEntry(Scan(CString(line)).value, before);
      ParseKernelFile(vs[1..], padding[1..], e.path);
      var es := EntriesOf(line + rest, before).value;
      assert es[0] == e && es[1..] == EntriesOf(rest, e.path).value;
      forall i | 0 <= i < |vs| ensures Describes(es[i], Seen(vs[i])) {
        if i > 0 {
          assert es[i] == es[1..][i - 1] && vs[i] == vs[1..][i - 1];
        }
      }
    }
  }
}
