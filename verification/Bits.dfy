/**
  Bit-vector words and their bytes. Descriptor words are built with shifts and masks; memory
  holds bytes as bounded integers, and this module is the only place the two meet.
 */
module Bits {
  import opened Bytes

  function ToBits(s: seq<byte>): (r: seq<bv8>)
    ensures |r| == |s|
  {
    seq(|s|, i requires 0 <= i < |s| => s[i] as bv8)
  }

  function ToBytes(s: seq<bv8>): (r: seq<byte>)
    ensures |r| == |s|
  {
    seq(|s|, i requires 0 <= i < |s| => s[i] as int)
  }

  /** By cases on the upper half of the byte, which keeps each case small. */
  lemma ByteRoundTrip(x: byte)
    ensures (x as bv8) as int == x
  {
    match x / 16
    case 0 =>
    case 1 =>
    case 2 =>
    case 3 =>
    case 4 =>
    case 5 =>
    case 6 =>
    case 7 =>
    case 8 =>
    case 9 =>
    case 10 =>
    case 11 =>
    case 12 =>
    case 13 =>
    case 14 =>
    case _ =>
  }

  lemma BitsRoundTrip(x: bv8)
    ensures (x as int) as bv8 == x
  {
  }

  lemma ToBytesToBits(s: seq<byte>)
    ensures ToBytes(ToBits(s)) == s
  {
    forall i | 0 <= i < |s| ensures ToBytes(ToBits(s))[i] == s[i] {
      ByteRoundTrip(s[i]);
    }
  }

  lemma ToBitsToBytes(s: seq<bv8>)
    ensures ToBits(ToBytes(s)) == s
  {
    forall i | 0 <= i < |s| ensures ToBits(ToBytes(s))[i] == s[i] {
      BitsRoundTrip(s[i]);
    }
  }

  function Split32(w: bv32): (s: seq<bv8>)
    ensures |s| == 4
  {
    [(w & 0xFF) as bv8, ((w >> 8) & 0xFF) as bv8, ((w >> 16) & 0xFF) as bv8, ((w >> 24) & 0xFF) as bv8]
  }

  function Join32(s: seq<bv8>): bv32
    requires |s| == 4
  {
    (s[0] as bv32) | ((s[1] as bv32) << 8) | ((s[2] as bv32) << 16) | ((s[3] as bv32) << 24)
  }

  function Split64(w: bv64): (s: seq<bv8>)
    ensures |s| == 8
  {
    [(w & 0xFF) as bv8, ((w >> 8) & 0xFF) as bv8, ((w >> 16) & 0xFF) as bv8, ((w >> 24) & 0xFF) as bv8,
     ((w >> 32) & 0xFF) as bv8, ((w >> 40) & 0xFF) as bv8, ((w >> 48) & 0xFF) as bv8, ((w >> 56) & 0xFF) as bv8]
  }

  function Join64(s: seq<bv8>): bv64
    requires |s| == 8
  {
    (s[0] as bv64) | ((s[1] as bv64) << 8) | ((s[2] as bv64) << 16) | ((s[3] as bv64) << 24)
    | ((s[4] as bv64) << 32) | ((s[5] as bv64) << 40) | ((s[6] as bv64) << 48) | ((s[7] as bv64) << 56)
  }

  lemma SplitJoin32(s: seq<bv8>)
    requires |s| == 4
    ensures Split32(Join32(s)) == s
  {
  }

  lemma JoinSplit64(w: bv64)
    ensures Join64(Split64(w)) == w
  {
  }

  /** The least significant byte comes first. */
  lemma LowBitsFirst32(low: bv8, rest: bv32)
    ensures Split32((rest << 8) | (low as bv32)) == [low] + Split32(rest)[..3]
  {
    var s, t := Split32((rest << 8) | (low as bv32)), Split32(rest);
    assert s[0] == low && s[1] == t[0] && s[2] == t[1] && s[3] == t[2];
  }

  lemma LowBitsFirst64(low: bv8, rest: bv64)
    ensures Split64((rest << 8) | (low as bv64)) == [low] + Split64(rest)[..7]
  {
    var s, t := Split64((rest << 8) | (low as bv64)), Split64(rest);
    assert s[0] == low && s[1] == t[0] && s[2] == t[1] && s[3] == t[2];
    assert s[4] == t[3] && s[5] == t[4] && s[6] == t[5] && s[7] == t[6];
  }

  /** A 32-bit unsigned as a bit vector, and back. */
  function Bits32(x: u32): bv32 { Join32(ToBits(LittleEndian(4, x))) }

  function Number32(w: bv32): u32 { Word32(ToBytes(Split32(w))) }

  lemma Number32RoundTrip(x: u32)
    ensures Number32(Bits32(x)) == x
  {
    var s := LittleEndian(4, x);
    SplitJoin32(ToBits(s));
    ToBytesToBits(s);
    Word32RoundTrip(x);
  }

  /** The eight bytes of a word in memory, and the word read back from them. */
  function WordBytes(w: bv64): (s: seq<byte>)
    ensures |s| == 8
  {
    ToBytes(Split64(w))
  }

  function WordAt(s: seq<byte>): bv64
    requires |s| == 8
  {
    Join64(ToBits(s))
  }

  lemma WordRoundTrip(w: bv64)
    ensures WordAt(WordBytes(w)) == w
  {
    ToBitsToBytes(Split64(w));
    JoinSplit64(w);
  }
}
