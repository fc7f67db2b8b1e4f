/**
  Bytes, machine words as bounded integers, and their little-endian byte views.
  Everything the snapshot file holds is laid out with these.
 */
module Bytes {

  type byte = x: int | 0 <= x < 0x100
  type u16 = x: int | 0 <= x < 0x1_0000
  type u32 = x: int | 0 <= x < 0x1_0000_0000
  type u64 = x: int | 0 <= x < 0x1_0000_0000_0000_0000

  const TWO32: nat := 0x1_0000_0000
  const TWO64: nat := 0x1_0000_0000_0000_0000

  datatype Option<+T> = None | Some(value: T)
  {
    predicate IsFailure() { None? }

    function PropagateFailure<U>(): Option<U>
      requires None?
    {
      None
    }

    function Extract(): T
      requires Some?
    {
      value
    }

    function GetOr(default: T): T {
      if Some? then value else default
    }
  }

  function Zeros(n: nat): (s: seq<byte>)
    ensures |s| == n && forall i :: 0 <= i < n ==> s[i] == 0
  {
    seq(n, _ => 0)
  }

  /** The bytes of an ASCII literal. */
  function Ascii(text: string): (s: seq<byte>)
    ensures |s| == |text|
  {
    seq(|text|, i requires 0 <= i < |text| => text[i] as int % 0x100)
  }

  /** The part of a buffer in front of its first NUL: what `strcmp` looks at. */
  function CString(s: seq<byte>): (r: seq<byte>)
  {
    if s == [] || s[0] == 0 then [] else [s[0]] + CString(s[1..])
  }

  lemma {:induction false} CStringWithoutNul(s: seq<byte>)
    requires 0 !in s
    ensures CString(s) == s
  {
    if s != [] {
      CStringWithoutNul(s[1..]);
    }
  }

  lemma {:induction false} CStringOfTerminated(text: seq<byte>, rest: seq<byte>)
    requires 0 !in text
    ensures CString(text + [0] + rest) == text
  {
    var s := text + [0] + rest;
    if text != [] {
      assert s[1..] == text[1..] + [0] + rest;
      CStringOfTerminated(text[1..], rest);
    }
  }

  function Power256(n: nat): (p: nat)
    ensures p > 0
  {
    if n == 0 then 1 else 0x100 * Power256(n - 1)
  }

  lemma Widths()
    ensures Power256(4) == TWO32 && Power256(8) == TWO64
  {
    assert Power256(4) == TWO32;
    assert Power256(7) == 0x100_0000_0000_0000 by {
      assert Power256(6) == 0x1_0000_0000_0000 by {
        assert Power256(5) == 0x100_0000_0000;
      }
    }
  }

  /** `v` stored in `n` bytes, least significant first; higher bytes are cut off. */
  function LittleEndian(n: nat, v: nat): (s: seq<byte>)
    ensures |s| == n
  {
    if n == 0 then [] else [v % 0x100] + LittleEndian(n - 1, v / 0x100)
  }

  function Value(s: seq<byte>): nat
  {
    if s == [] then 0 else s[0] + 0x100 * Value(s[1..])
  }

  lemma {:induction false} ValueOfLittleEndian(n: nat, v: nat)
    requires v < Power256(n)
    ensures Value(LittleEndian(n, v)) == v
  {
    if n > 0 {
      ValueOfLittleEndian(n - 1, v / 0x100);
    }
  }

  lemma {:induction false} LittleEndianOfValue(s: seq<byte>)
    ensures LittleEndian(|s|, Value(s)) == s
    ensures Value(s) < Power256(|s|)
  {
    if s != [] {
      LittleEndianOfValue(s[1..]);
      assert Value(s) % 0x100 == s[0];
      assert Value(s) / 0x100 == Value(s[1..]);
    }
  }

  function Word64(s: seq<byte>): u64
    requires |s| == 8
  {
    LittleEndianOfValue(s); Widths();
    Value(s)
  }

  function Word32(s: seq<byte>): u32
    requires |s| == 4
  {
    LittleEndianOfValue(s); Widths();
    Value(s)
  }

  lemma Word64RoundTrip(v: u64)
    ensures Word64(LittleEndian(8, v)) == v
  {
    Widths();
    ValueOfLittleEndian(8, v);
  }

  lemma Word32RoundTrip(v: u32)
    ensures Word32(LittleEndian(4, v)) == v
  {
    Widths();
    ValueOfLittleEndian(4, v);
  }

  /** The size of `count` words of `width` bytes each. */
  function RunLength(width: nat, count: nat): nat
  {
    if count == 0 then 0 else width + RunLength(width, count - 1)
  }

  lemma {:induction false} RunLengthIsProduct(width: nat, count: nat)
    ensures RunLength(width, count) == width * count
  {
    if count > 0 {
      RunLengthIsProduct(width, count - 1);
      assert width * count == width * (count - 1) + width;
    }
  }

  function EncodeWords(width: nat, words: seq<nat>): (s: seq<byte>)
    ensures |s| == RunLength(width, |words|)
  {
    if words == [] then [] else LittleEndian(width, words[0]) + EncodeWords(width, words[1..])
  }

  function DecodeWords(width: nat, count: nat, s: seq<byte>): (words: seq<nat>)
    requires |s| == RunLength(width, count)
    ensures |words| == count
    ensures forall i :: 0 <= i < count ==> words[i] < Power256(width)
    decreases count
  {
    if count == 0 then []
    else
      LittleEndianOfValue(s[..width]);
      [Value(s[..width])] + DecodeWords(width, count - 1, s[width..])
  }

  lemma {:induction false} DecodeEncodeWords(width: nat, words: seq<nat>)
    requires forall i :: 0 <= i < |words| ==> words[i] < Power256(width)
    ensures DecodeWords(width, |words|, EncodeWords(width, words)) == words
  {
    if words != [] {
      var s := EncodeWords(width, words);
      DecodeEncodeWords(width, words[1..]);
      ValueOfLittleEndian(width, words[0]);
      assert s[..width] == LittleEndian(width, words[0]);
      assert s[width..] == EncodeWords(width, words[1..]);
    }
  }

  lemma {:induction false} EncodeDecodeWords(width: nat, count: nat, s: seq<byte>)
    requires |s| == RunLength(width, count)
    ensures EncodeWords(width, DecodeWords(width, count, s)) == s
  {
    if count > 0 {
      EncodeDecodeWords(width, count - 1, s[width..]);
      LittleEndianOfValue(s[..width]);
      assert s == s[..width] + s[width..];
    }
  }

  /** Word `k` of a run is at byte `width * k`. */
  lemma {:induction false} EncodedWordAt(width: nat, words: seq<nat>, k: nat, at: nat)
    requires k < |words| && at == RunLength(width, k)
    ensures at + width <= |EncodeWords(width, words)|
    ensures EncodeWords(width, words)[at..at + width] == LittleEndian(width, words[k])
  {
    var s := EncodeWords(width, words);
    if k == 0 {
      assert s[0..width] == LittleEndian(width, words[0]);
    } else {
      var before := at - width;
      EncodedWordAt(width, words[1..], k - 1, before);
      assert s[width..] == EncodeWords(width, words[1..]);
      assert s[at..at + width] == s[width..][before..before + width];
    }
  }
}
