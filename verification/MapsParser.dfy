/**
  `/proc/<pid>/maps`: the kernel's line format, the `sscanf` format that reads it, and the
  iterator that parses line after line into one reused entry.
 */
module MapsParser {
  import opened Bytes
  import opened SnapshotFormat

  const NEWLINE: byte := 10
  const SPACE: byte := 32
  const DASH: byte := 45
  const MAX_PATH_TEXT: nat := 4095

  predicate IsSpace(b: byte) { b == SPACE || 9 <= b <= 13 }

  function HexDigitValue(b: byte): Option<nat> {
    if '0' as int <= b <= '9' as int then Some(b - '0' as int)
    else if 'a' as int <= b <= 'f' as int then Some(b - 'a' as int + 10)
    else if 'A' as int <= b <= 'F' as int then Some(b - 'A' as int + 10)
    else None
  }

  // ------------------------------------------------------------------ sscanf conversions

  function SkipSpace(s: seq<byte>): (r: seq<byte>)
    ensures |r| <= |s|
  {
    if s != [] && IsSpace(s[0]) then SkipSpace(s[1..]) else s
  }

  function HexRun(s: seq<byte>): (n: nat)
    ensures n <= |s|
  {
    if s == [] || HexDigitValue(s[0]).None? then 0 else 1 + HexRun(s[1..])
  }

  function HexValue(digits: seq<byte>): nat
  {
    if digits == [] then 0
    else
      var last := |digits| - 1;
      16 * HexValue(digits[..last]) + HexDigitValue(digits[last]).GetOr(0)
  }

  /** `%lx` into a 64-bit unsigned: optional sign and `0x`, saturating as `strtoull` does. */
  function ScanHex(s: seq<byte>): (r: Option<(u64, seq<byte>)>)
  {
    var t := SkipSpace(s);
    var negative := t != [] && t[0] == DASH;
    var u := if t != [] && (t[0] == DASH || t[0] == '+' as int) then t[1..] else t;
    var prefixed := |u| >= 2 && u[0] == '0' as int && (u[1] == 'x' as int || u[1] == 'X' as int);
    var body := if prefixed then u[2..] else u;
    var n := HexRun(body);
    if n == 0 then None
    else
      var magnitude := HexValue(body[..n]);
      var v: u64 := if magnitude >= TWO64 then TWO64 - 1
                    else if negative && magnitude > 0 then TWO64 - magnitude
                    else magnitude;
      Some((v, body[n..]))
  }

  function TokenLength(s: seq<byte>): (n: nat)
    ensures n <= |s|
  {
    if s == [] || IsSpace(s[0]) then 0 else 1 + TokenLength(s[1..])
  }

  /** `%<width>s`: skips white space, then takes at most `width` other characters. */
  function ScanToken(s: seq<byte>, width: nat): (r: Option<(seq<byte>, seq<byte>)>)
    ensures r.Some? ==> |r.value.0| <= width
  {
    var t := SkipSpace(s);
    if t == [] then None
    else
      var n := if TokenLength(t) < width then TokenLength(t) else width;
      Some((t[..n], t[n..]))
  }

  function ScanLiteral(s: seq<byte>, b: byte): Option<seq<byte>> {
    if s != [] && s[0] == b then Some(s[1..]) else None
  }

  function LineLength(s: seq<byte>): (n: nat)
    ensures n <= |s|
  {
    if s == [] || s[0] == NEWLINE then 0 else 1 + LineLength(s[1..])
  }

  /** `%4095[^\n]`: fails on an empty match. */
  function ScanLineText(s: seq<byte>): (text: Option<seq<byte>>)
    ensures text.Some? ==> 0 < |text.value| <= MAX_PATH_TEXT
  {
    var n := LineLength(s);
    if n == 0 then None
    else if n < MAX_PATH_TEXT then Some(s[..n])
    else Some(s[..MAX_PATH_TEXT])
  }

  /** `%*s %*s %4095[^\n]`: the fifth assignment, missing where `sscanf` returns 4. */
  function ScanPath(s: seq<byte>): (path: Option<seq<byte>>)
    ensures path.Some? ==> 0 < |path.value| <= MAX_PATH_TEXT
  {
    match ScanToken(s, |s|)
    case None => None
    case Some((_, afterDevice)) =>
      match ScanToken(afterDevice, |afterDevice|)
      case None => None
      case Some((_, afterInode)) => ScanLineText(SkipSpace(afterInode))
  }

  datatype Fields = Fields(start: u64, end: u64, perms: seq<byte>, fileOffset: u64, path: Option<seq<byte>>)

  /** The whole format; None where fewer than four conversions are assigned. */
  function Scan(text: seq<byte>): (f: Option<Fields>)
    ensures f.Some? ==> |PathText(f.value)| <= MAX_PATH_TEXT && |f.value.perms| <= 4
  {
    var (start, s1) :- ScanHex(text);
    var s2 :- ScanLiteral(s1, DASH);
    var (end, s3) :- ScanHex(s2);
    var (perms, s4) :- ScanToken(s3, 4);
    var (fileOffset, s5) :- ScanHex(s4);
    Some(Fields(start, end, perms, fileOffset, ScanPath(s5)))
  }

  // ------------------------------------------------------------------ parse_maps_str

  /** A buffer after a C string was stored at its front: the bytes behind the NUL stay. */
  function StoreCString(buffer: PathBuffer, text: seq<byte>): PathBuffer
    requires |text| <= MAX_PATH_TEXT
  {
    text + [0] + buffer[|text| + 1..]
  }

  function Flag(perms: seq<byte>, k: nat, letter: char): byte {
    if k < |perms| && perms[k] == letter as int then 1 else 0
  }

  function PathText(f: Fields): seq<byte> {
    match f.path case None => [] case Some(p) => p
  }

  function FillEntry(f: Fields, before: PathBuffer): MapsEntry
    requires |PathText(f)| <= MAX_PATH_TEXT
  {
    MapsEntry(f.start, f.end,
              Flag(f.perms, 0, 'r'), Flag(f.perms, 1, 'w'), Flag(f.perms, 2, 'x'), Flag(f.perms, 3, 's'),
              f.fileOffset, StoreCString(before, PathText(f)))
  }

  /** The `maps_entry_t` of the iterator, overwritten line after line. */
  class EntryCell {
    var start: u64
    var end: u64
    var read: byte
    var write: byte
    var exec: byte
    var shared: byte
    var fileOffset: u64
    const path: array<byte>

    ghost predicate Valid()
      reads this
    {
      path.Length == PATH_SIZE
    }

    ghost function Contents(): MapsEntry
      requires Valid()
      reads this, path
    {
      MapsEntry(start, end, read, write, exec, shared, fileOffset, path[..])
    }

    /** An entry on the stack holds whatever bytes were there. */
    constructor (garbage: MapsEntry)
      ensures Valid() && fresh(path)
      ensures Contents() == garbage
    {
      start, end := garbage.start, garbage.end;
      read, write, exec, shared := garbage.read, garbage.write, garbage.exec, garbage.shared;
      fileOffset := garbage.fileOffset;
      var buffer := new byte[PATH_SIZE](i requires 0 <= i < PATH_SIZE => garbage.path[i]);
      path := buffer;
      new;
      assert path[..] == garbage.path;
    }

    method Snapshot() returns (e: MapsEntry)
      requires Valid()
      ensures e == Contents()
    {
      e := MapsEntry(start, end, read, write, exec, shared, fileOffset, path[..]);
    }

    /** What `sscanf` does to its `char *` argument: the text and a NUL, nothing behind it. */
    method StorePath(text: seq<byte>)
      requires Valid() && |text| <= MAX_PATH_TEXT
      modifies path
      ensures path[..] == StoreCString(old(path[..]), text)
    {
      for i := 0 to |text|
        invariant forall j :: 0 <= j < i ==> path[j] == text[j]
        invariant forall j :: i <= j < path.Length ==> path[j] == old(path[j])
      {
        path[i] := text[i];
      }
      path[|text|] := 0;
    }

    method Assign(f: Fields)
      requires Valid() && |PathText(f)| <= MAX_PATH_TEXT
      modifies this, path
      ensures Valid()
      ensures Contents() == FillEntry(f, old(path[..]))
    {
      start, end, fileOffset := f.start, f.end, f.fileOffset;
      StorePath(PathText(f));
      read, write := Flag(f.perms, 0, 'r'), Flag(f.perms, 1, 'w');
      exec, shared := Flag(f.perms, 2, 'x'), Flag(f.perms, 3, 's');
    }

    /** `parse_maps_str`; false is the fatal exit. */
    method Parse(line: seq<byte>) returns (ok: bool)
      requires Valid()
      modifies this, path
      ensures Valid()
      ensures ok == Scan(CString(line)).Some?
      ensures ok ==> Contents() == FillEntry(Scan(CString(line)).value, old(path[..]))
    {
      var scanned := Scan(CString(line));
      ok := scanned.Some?;
      if ok {
        Assign(scanned.value);
      }
    }
  }

  /** No byte the buffer held before is visible in the entry's path string. */
  lemma PathForgetsBuffer(f: Fields, before: PathBuffer)
    requires |PathText(f)| <= MAX_PATH_TEXT
    ensures 0 !in PathText(f) ==> FillEntry(f, before).Path() == PathText(f)
  {
    if 0 !in PathText(f) {
      CStringOfTerminated(PathText(f), before[|PathText(f)| + 1..]);
    }
  }

  // ------------------------------------------------------------------ the iterator

  /** The length of the first line of `text`, its newline included when there is one. */
  function FirstLine(text: seq<byte>): (n: nat)
    requires text != []
    ensures 0 < n <= |text|
  {
    if LineLength(text) < |text| then LineLength(text) + 1 else LineLength(text)
  }

  /** All the entries `next` returns; None where some line is fatal. */
  function EntriesOf(text: seq<byte>, before: PathBuffer): (r: Option<seq<MapsEntry>>)
    decreases |text|
  {
    if text == [] then Some([])
    else
      var n := FirstLine(text);
      var f :- Scan(CString(text[..n]));
      var e := FillEntry(f, before);
      var rest :- EntriesOf(text[n..], e.path);
      Some([e] + rest)
  }

  datatype NextResult = Entry | End | Fatal

  class MapsIter {
    const entry: EntryCell
    var file: seq<byte>
    var line: Option<seq<byte>>

    ghost predicate Valid()
      reads this, entry
    {
      entry.Valid()
    }

    constructor (text: seq<byte>, garbage: MapsEntry)
      ensures Valid() && fresh(entry) && fresh(entry.path)
      ensures file == text && line == None && entry.Contents() == garbage
    {
      entry := new EntryCell(garbage);
      file, line := text, None;
    }

    /** The entries still to come. */
    ghost function Pending(): Option<seq<MapsEntry>>
      requires Valid()
      reads this, entry, entry.path
    {
      EntriesOf(file, entry.path[..])
    }

    /** `next`: reads a line, frees the one before, and parses it into the shared entry. */
    method Next() returns (r: NextResult)
      requires Valid()
      modifies this, entry, entry.path
      ensures Valid()
      ensures r == End ==> old(Pending()) == Some([]) && old(file) == []
      ensures r == Fatal ==> old(Pending()) == None
      ensures r == Entry ==>
                && |file| < |old(file)|
                && old(Pending()).Some? == Pending().Some?
                && (Pending().Some? ==> old(Pending()).value == [entry.Contents()] + Pending().value)
    {
      line := None;
      if file == [] {
        return End;
      }
      var n := FirstLine(file);
      line, file := Some(file[..n]), file[n..];
      var ok := entry.Parse(line.value);
      r := if ok then Entry else Fatal;
    }
  }
}
