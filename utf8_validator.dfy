/**
 * The shipped validator of src/lib.rs: a walk over the input that looks up the
 * width of each lead byte in a table, checks the continuation bytes against
 * the ranges of RFC 3629, and skips runs of ASCII two machine words at a
 * time when the current position is word-aligned.
 *
 * The machine word is `usizeBytes` bytes wide (4 or 8) and is read from the
 * input as that many bytes in little-endian order. Where a position is
 * aligned is decided by the address of the slice, which is not modelled:
 * `alignOffset(i)` stands for what `align_offset` answers for position `i`.
 */
module Utf8Validator {
  import opened Common
  import opened Utf8Grammar

  // ---------------------------------------------------------------------
  // Lead-byte width table and continuation-byte tag
  // ---------------------------------------------------------------------

  /** Expected width of a unit by its lead byte; 0 marks a byte no unit starts with. */
  const UTF8_CHAR_WIDTH: seq<nat> :=
    ([1, 1, 1, 1, 1, 1, 1, 1, 1, 1, 1, 1, 1, 1, 1, 1] +
     [1, 1, 1, 1, 1, 1, 1, 1, 1, 1, 1, 1, 1, 1, 1, 1] +  // 0x1F
     [1, 1, 1, 1, 1, 1, 1, 1, 1, 1, 1, 1, 1, 1, 1, 1] +
     [1, 1, 1, 1, 1, 1, 1, 1, 1, 1, 1, 1, 1, 1, 1, 1]) + // 0x3F
    ([1, 1, 1, 1, 1, 1, 1, 1, 1, 1, 1, 1, 1, 1, 1, 1] +
     [1, 1, 1, 1, 1, 1, 1, 1, 1, 1, 1, 1, 1, 1, 1, 1] +  // 0x5F
     [1, 1, 1, 1, 1, 1, 1, 1, 1, 1, 1, 1, 1, 1, 1, 1] +
     [1, 1, 1, 1, 1, 1, 1, 1, 1, 1, 1, 1, 1, 1, 1, 1]) + // 0x7F
    ([0, 0, 0, 0, 0, 0, 0, 0, 0, 0, 0, 0, 0, 0, 0, 0] +
     [0, 0, 0, 0, 0, 0, 0, 0, 0, 0, 0, 0, 0, 0, 0, 0] +  // 0x9F
     [0, 0, 0, 0, 0, 0, 0, 0, 0, 0, 0, 0, 0, 0, 0, 0] +
     [0, 0, 0, 0, 0, 0, 0, 0, 0, 0, 0, 0, 0, 0, 0, 0]) + // 0xBF
    ([0, 0, 2, 2, 2, 2, 2, 2, 2, 2, 2, 2, 2, 2, 2, 2] +
     [2, 2, 2, 2, 2, 2, 2, 2, 2, 2, 2, 2, 2, 2, 2, 2] +  // 0xDF
     [3, 3, 3, 3, 3, 3, 3, 3, 3, 3, 3, 3, 3, 3, 3, 3] +  // 0xEF
     [4, 4, 4, 4, 4, 0, 0, 0, 0, 0, 0, 0, 0, 0, 0, 0])   // 0xFF

  lemma WidthOfLowAscii(b: byte)
    requires b <= 0x3F
    ensures UTF8_CHAR_WIDTH[b] == 1
  {}

  lemma WidthOfHighAscii(b: byte)
    requires 0x40 <= b <= 0x7F
    ensures UTF8_CHAR_WIDTH[b] == 1
  {}

  lemma WidthOfContinuation(b: byte)
    requires 0x80 <= b <= 0xBF
    ensures UTF8_CHAR_WIDTH[b] == 0
  {}

  lemma WidthOfTwoByteLeads(b: byte)
    requires 0xC0 <= b <= 0xDF
    ensures UTF8_CHAR_WIDTH[b] == if b <= 0xC1 then 0 else 2
  {}

  lemma WidthOfThreeByteLeads(b: byte)
    requires 0xE0 <= b <= 0xEF
    ensures UTF8_CHAR_WIDTH[b] == 3
  {}

  lemma WidthOfFourByteLeads(b: byte)
    requires 0xF0 <= b
    ensures UTF8_CHAR_WIDTH[b] == if b <= 0xF4 then 4 else 0
  {}

  /** The width table gives each lead byte the length of the UTF-8 forms it starts. */
  lemma CharWidthRanges(b: byte)
    ensures 0x00 <= b <= 0x7F ==> UTF8_CHAR_WIDTH[b] == 1
    ensures (0x80 <= b <= 0xC1 || 0xF5 <= b) ==> UTF8_CHAR_WIDTH[b] == 0
    ensures 0xC2 <= b <= 0xDF ==> UTF8_CHAR_WIDTH[b] == 2
    ensures 0xE0 <= b <= 0xEF ==> UTF8_CHAR_WIDTH[b] == 3
    ensures 0xF0 <= b <= 0xF4 ==> UTF8_CHAR_WIDTH[b] == 4
  {
    if b <= 0x3F {
      WidthOfLowAscii(b);
    } else if b <= 0x7F {
      WidthOfHighAscii(b);
    } else if b <= 0xBF {
      WidthOfContinuation(b);
    } else if b <= 0xDF {
      WidthOfTwoByteLeads(b);
    } else if b <= 0xEF {
      WidthOfThreeByteLeads(b);
    } else {
      WidthOfFourByteLeads(b);
    }
  }

  /** The six payload bits `00111111` of a `10xxxxxx` byte. */
  const CONT_MASK: bv8 := 0x3F
  /** The top two bits `10` that mark a `10xxxxxx` byte, once the payload is masked off. */
  const TAG_CONT_U8: bv8 := 0x80

  /** `b & !CONT_MASK == TAG_CONT_U8`: the byte has the continuation tag `10xxxxxx`. */
  function IsContinuation(b: byte): (r: bool)
    ensures r <==> IsTail(b)
  {
    (b as bv8) & !CONT_MASK == TAG_CONT_U8
  }

  // ---------------------------------------------------------------------
  // Word-at-a-time ASCII test
  // ---------------------------------------------------------------------

  /** The 64-bit constant with the high bit of every byte set. */
  const NONASCII_MASK_U64: bv64 := 0x8080_8080_8080_8080

  /** `NONASCII_MASK`: the 64-bit mask truncated to the width of `usize`. */
  function NonasciiMask(usizeBytes: nat): (m: bv64)
    requires usizeBytes == 4 || usizeBytes == 8
    ensures usizeBytes == 4 ==> m == 0x8080_8080
    ensures usizeBytes == 8 ==> m == 0x8080_8080_8080_8080
  {
    if usizeBytes == 8 then NONASCII_MASK_U64 else NONASCII_MASK_U64 & 0xFFFF_FFFF
  }

  /** `contains_nonascii`: some byte of the word has its high bit set. */
  predicate ContainsNonascii(x: bv64, usizeBytes: nat)
    requires usizeBytes == 4 || usizeBytes == 8
  {
    x & NonasciiMask(usizeBytes) != 0
  }

  function Widen(b: byte, shift: bv64): bv64
    requires shift <= 56
  {
    ((b as bv8) as bv64) << shift
  }

  /** The word that 4 or 8 bytes of memory hold, least significant byte first. */
  function LoadWord(w: seq<byte>): (x: bv64)
    requires |w| == 4 || |w| == 8
    ensures |w| == 4 ==> x < 0x1_0000_0000
  {
    var low := Widen(w[0], 0) | Widen(w[1], 8) | Widen(w[2], 16) | Widen(w[3], 24);
    if |w| == 4 then low
    else low | Widen(w[4], 32) | Widen(w[5], 40) | Widen(w[6], 48) | Widen(w[7], 56)
  }

  lemma NonasciiBits8(a: bv8, b: bv8, c: bv8, d: bv8, e: bv8, f: bv8, g: bv8, h: bv8)
    ensures var x := (a as bv64) | ((b as bv64) << 8) | ((c as bv64) << 16) | ((d as bv64) << 24)
                   | ((e as bv64) << 32) | ((f as bv64) << 40) | ((g as bv64) << 48) | ((h as bv64) << 56);
      x & NONASCII_MASK_U64 != 0 <==>
        (a >= 128 || b >= 128 || c >= 128 || d >= 128 || e >= 128 || f >= 128 || g >= 128 || h >= 128)
  {}

  lemma NonasciiBits4(a: bv8, b: bv8, c: bv8, d: bv8)
    ensures var x := (a as bv64) | ((b as bv64) << 8) | ((c as bv64) << 16) | ((d as bv64) << 24);
      x & (NONASCII_MASK_U64 & 0xFFFF_FFFF) != 0 <==> (a >= 128 || b >= 128 || c >= 128 || d >= 128)
  {}

  lemma HighBitOfByte(b: byte)
    ensures (b as bv8) >= 128 <==> b >= 128
  {}

  /** Some one of the word's bytes is 128 or more, written out byte by byte. */
  predicate SomeByteHigh(w: seq<byte>)
    requires |w| == 4 || |w| == 8
  {
    || w[0] >= 128 || w[1] >= 128 || w[2] >= 128 || w[3] >= 128
    || (|w| == 8 && (w[4] >= 128 || w[5] >= 128 || w[6] >= 128 || w[7] >= 128))
  }

  lemma ContainsNonasciiOfLoadWord(w: seq<byte>)
    requires |w| == 4 || |w| == 8
    ensures ContainsNonascii(LoadWord(w), |w|) <==> SomeByteHigh(w)
  {
    HighBitOfByte(w[0]);
    HighBitOfByte(w[1]);
    HighBitOfByte(w[2]);
    HighBitOfByte(w[3]);
    var a, b, c, d := w[0] as bv8, w[1] as bv8, w[2] as bv8, w[3] as bv8;
    if |w| == 4 {
      NonasciiBits4(a, b, c, d);
    } else {
      HighBitOfByte(w[4]);
      HighBitOfByte(w[5]);
      HighBitOfByte(w[6]);
      HighBitOfByte(w[7]);
      NonasciiBits8(a, b, c, d, w[4] as bv8, w[5] as bv8, w[6] as bv8, w[7] as bv8);
    }
  }

  /** `contains_nonascii` of a loaded word holds exactly when one of its bytes is 128 or more. */
  lemma ContainsNonasciiIffHighByte(w: seq<byte>)
    requires |w| == 4 || |w| == 8
    ensures ContainsNonascii(LoadWord(w), |w|) <==> exists k :: 0 <= k < |w| && w[k] >= 128
  {
    ContainsNonasciiOfLoadWord(w);
    if exists k :: 0 <= k < |w| && w[k] >= 128 {
      var k :| 0 <= k < |w| && w[k] >= 128;
      assert k == 0 || k == 1 || k == 2 || k == 3 || k == 4 || k == 5 || k == 6 || k == 7;
    }
  }

  /** A run of ASCII bytes is a run of one-byte units: the walk skips it unchanged. */
  lemma {:induction false} AsciiRunSkipped(v: seq<byte>, a: nat, b: nat)
    requires a <= b <= |v|
    requires forall k :: a <= k < b ==> v[k] < 128
    ensures ValidateFrom(v, a) == ValidateFrom(v, b)
    decreases b - a
  {
    if a < b {
      assert ScanUnit(v, a) == Complete(1);
      AsciiRunSkipped(v, a + 1, b);
    }
  }

  // ---------------------------------------------------------------------
  // is_utf8
  // ---------------------------------------------------------------------

  /** Two consecutive words neither of which has a non-ASCII byte are all ASCII. */
  lemma AsciiBlock(v: seq<byte>, index: nat, usizeBytes: nat)
    requires usizeBytes == 4 || usizeBytes == 8
    requires index + 2 * usizeBytes <= |v|
    requires !ContainsNonascii(LoadWord(v[index..index + usizeBytes]), usizeBytes)
    requires !ContainsNonascii(LoadWord(v[index + usizeBytes..index + 2 * usizeBytes]), usizeBytes)
    ensures forall k :: index <= k < index + 2 * usizeBytes ==> v[k] < 128
  {
    var lo, hi := v[index..index + usizeBytes], v[index + usizeBytes..index + 2 * usizeBytes];
    ContainsNonasciiIffHighByte(lo);
    ContainsNonasciiIffHighByte(hi);
    forall k | index <= k < index + 2 * usizeBytes
      ensures v[k] < 128
    {
      if k < index + usizeBytes {
        assert v[k] == lo[k - index];
      } else {
        assert v[k] == hi[k - index - usizeBytes];
      }
    }
  }

  /**
   * The non-ASCII branch of `is_utf8`: look up the width of the lead byte
   * at `start` and check the bytes after it. Every failed check ends the
   * walk with the number of bytes read so far as the error length, and
   * running off the end of the input ends it with no error length.
   */
  method CheckMultibyte(v: seq<byte>, start: nat) returns (unit: UnitScan)
    requires start < |v| && v[start] >= 128
    ensures unit == ScanUnit(v, start)
  {
    var len := |v|;
    var index := start;
    var first := v[index];
    var w := UTF8_CHAR_WIDTH[first];
    CharWidthRanges(first);
    if w == 2 {
      index := index + 1;
      if index >= len { return Truncated; }
      if !IsContinuation(v[index]) { return Invalid(1); }
    } else if w == 3 {
      index := index + 1;
      if index >= len { return Truncated; }
      var second := v[index];
      if !(|| (first == 0xE0 && 0xA0 <= second <= 0xBF)
           || (0xE1 <= first <= 0xEC && 0x80 <= second <= 0xBF)
           || (first == 0xED && 0x80 <= second <= 0x9F)
           || (0xEE <= first <= 0xEF && 0x80 <= second <= 0xBF)) {
        return Invalid(1);
      }
      index := index + 1;
      if index >= len { return Truncated; }
      if !IsContinuation(v[index]) { return Invalid(2); }
    } else if w == 4 {
      index := index + 1;
      if index >= len { return Truncated; }
      var second := v[index];
      if !(|| (first == 0xF0 && 0x90 <= second <= 0xBF)
           || (0xF1 <= first <= 0xF3 && 0x80 <= second <= 0xBF)
           || (first == 0xF4 && 0x80 <= second <= 0x8F)) {
        return Invalid(1);
      }
      index := index + 1;
      if index >= len { return Truncated; }
      if !IsContinuation(v[index]) { return Invalid(2); }
      index := index + 1;
      if index >= len { return Truncated; }
      if !IsContinuation(v[index]) { return Invalid(3); }
    } else {
      return Invalid(1);
    }
    return Complete(index + 1 - start);
  }

  /**
   * The ASCII branch of `is_utf8`, entered at an ASCII byte. When the
   * position is aligned it skips two words at a time while neither holds a
   * byte of 128 or more and stops before `blocksEnd`, then goes on byte by
   * byte up to the next non-ASCII byte; otherwise it moves past this one byte.
   */
  method SkipAscii(v: seq<byte>, start: nat, usizeBytes: nat, blocksEnd: nat, aligned: bool)
    returns (index: nat)
    requires usizeBytes == 4 || usizeBytes == 8
    requires start < |v| && v[start] < 128
    requires blocksEnd == 0 || blocksEnd + 2 * usizeBytes <= |v| + 1
    ensures start < index <= |v|
    ensures forall k :: start <= k < index ==> v[k] < 128
    ensures aligned ==> index == |v| || v[index] >= 128
    ensures !aligned ==> index == start + 1
  {
    index := start;
    if !aligned {
      return start + 1;
    }
    var asciiBlockSize := 2 * usizeBytes;
    while index < blocksEnd
      invariant start <= index <= |v|
      invariant forall k :: start <= k < index ==> v[k] < 128
      decreases |v| - index
    {
      var zu := ContainsNonascii(LoadWord(v[index..index + usizeBytes]), usizeBytes);
      var zv := ContainsNonascii(LoadWord(v[index + usizeBytes..index + asciiBlockSize]), usizeBytes);
      if zu || zv {
        break;
      }
      AsciiBlock(v, index, usizeBytes);
      index := index + asciiBlockSize;
    }
    while index < |v| && v[index] < 128
      invariant start <= index <= |v|
      invariant forall k :: start <= k < index ==> v[k] < 128
      decreases |v| - index
    {
      index := index + 1;
    }
  }

  /**
   * `is_utf8`: the verdict of the unit-by-unit walk, whatever the word size
   * and whichever positions are aligned.
   */
  method IsUtf8(v: seq<byte>, usizeBytes: nat, alignOffset: nat -> nat) returns (r: Utf8Result)
    requires usizeBytes == 4 || usizeBytes == 8
    ensures r == Validate(v)
  {
    var index := 0;
    var len := |v|;
    var asciiBlockSize := 2 * usizeBytes;
    var blocksEnd := if len >= asciiBlockSize then len - asciiBlockSize + 1 else 0;

    while index < len
      invariant index <= len
      invariant ValidateFrom(v, index) == Validate(v)
      decreases len - index
    {
      var oldOffset := index;
      var first := v[index];
      if first >= 128 {
        var unit := CheckMultibyte(v, index);
        match unit
        case Complete(width) =>
          index := index + width;
        case Invalid(n) =>
          return Err(oldOffset, Some(n));
        case Truncated =>
          return Err(oldOffset, None);
      } else {
        index := SkipAscii(v, index, usizeBytes, blocksEnd, alignOffset(index) == 0);
        AsciiRunSkipped(v, oldOffset, index);
      }
    }
    return Ok;
  }

  /** The crate's own test vectors: accepted slices, and the verdicts on rejected ones. */
  lemma TestVectors()
    ensures Validate([0xC2, 0x80]) == Ok
    ensures Validate([0xED, 0x9F, 0xBF]) == Ok
    ensures Validate([0xF4, 0x8F, 0xBF, 0xBF]) == Ok
    ensures Validate([0xC0, 0x80]) == Err(0, Some(1))
    ensures Validate([0xE0, 0x80, 0x80]) == Err(0, Some(1))
    ensures Validate([0xED, 0xA0, 0x80]) == Err(0, Some(1))
    ensures Validate([0xF4, 0x90, 0x80, 0x80]) == Err(0, Some(1))
    ensures Validate([0x80]) == Err(0, Some(1))
    ensures Validate([0xC0]) == Err(0, Some(1))
    ensures Validate([0xC2]) == Err(0, None)
    ensures Validate([0x41, 0xE2, 0x82]) == Err(1, None)
  {
    var v: seq<byte> := [0xF4, 0x8F, 0xBF, 0xBF];
    assert ScanUnit(v, 0) == Complete(4);
    var w: seq<byte> := [0xED, 0x9F, 0xBF];
    assert ScanUnit(w, 0) == Complete(3);
    var x: seq<byte> := [0x41, 0xE2, 0x82];
    assert ScanUnit(x, 0) == Complete(1);
  }

  /**
   * A byte of 128 or more on its own is rejected at index 0: a continuation
   * byte or an invalid lead with error length 1, a valid lead as cut off.
   */
  lemma LoneHighByteRejected(b: byte)
    requires b >= 0x80
    ensures Validate([b]).Err? && Validate([b]).validUpTo == 0
    ensures Validate([b]).errorLen.None? <==> 0xC2 <= b <= 0xF4
  {
    assert ScanUnit([b], 0) == if 0xC2 <= b <= 0xF4 then Truncated else Invalid(1);
  }
}
