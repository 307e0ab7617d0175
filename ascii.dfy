/**
 * The ASCII validators of src/ascii.rs. Each answers whether every byte of
 * the slice is below 128 and, when one is not, the index of the first such
 * byte. The scalar version looks at one byte at a time; the vector versions
 * test whole blocks for a set high bit, stop at the first block that has
 * one, and hand the rest of the slice to the scalar version.
 *
 * A SIMD register is modelled as the sequence of its byte lanes.
 */
module Ascii {
  import opened Common

  /** `Result<(), usize>`: the slice is ASCII, or the index of its first non-ASCII byte. */
  datatype AsciiResult = AllAscii | NonAsciiAt(index: nat)

  /** `u8::is_ascii`. */
  predicate IsAscii(b: byte) {
    b <= 0x7F
  }

  /** The meaning of the result: Ok for an all-ASCII slice, else the first non-ASCII index. */
  function AsciiVerdict(x: seq<byte>): (r: AsciiResult)
    ensures r.AllAscii? <==> forall k :: 0 <= k < |x| ==> IsAscii(x[k])
    ensures r.NonAsciiAt? ==> r.index < |x| && !IsAscii(x[r.index])
    ensures r.NonAsciiAt? ==> forall k :: 0 <= k < r.index ==> IsAscii(x[k])
  {
    if |x| == 0 then AllAscii
    else if !IsAscii(x[0]) then NonAsciiAt(0)
    else Shift(AsciiVerdict(x[1..]), 1)
  }

  /** `map_err(|e| e + i)`: move an error index of a suffix back to the whole slice. */
  function Shift(r: AsciiResult, i: nat): AsciiResult
  {
    match r
    case AllAscii => AllAscii
    case NonAsciiAt(e) => NonAsciiAt(e + i)
  }

  /** A slice whose byte `k` is the first non-ASCII one has verdict `NonAsciiAt(k)`. */
  lemma VerdictIsFirstNonAscii(x: seq<byte>, k: nat)
    requires k < |x| && !IsAscii(x[k])
    requires forall j :: 0 <= j < k ==> IsAscii(x[j])
    ensures AsciiVerdict(x) == NonAsciiAt(k)
  {}

  /** Skipping an ASCII prefix of length `i` and shifting the answer for the rest back by `i`. */
  lemma VerdictOfSuffix(x: seq<byte>, i: nat)
    requires i <= |x|
    requires forall k :: 0 <= k < i ==> IsAscii(x[k])
    ensures AsciiVerdict(x) == Shift(AsciiVerdict(x[i..]), i)
  {
    var t := AsciiVerdict(x[i..]);
    if t.NonAsciiAt? {
      assert x[i + t.index] == x[i..][t.index];
      forall j | 0 <= j < i + t.index
        ensures IsAscii(x[j])
      {
        if j >= i {
          assert x[j] == x[i..][j - i];
        }
      }
      VerdictIsFirstNonAscii(x, i + t.index);
    } else {
      forall j | 0 <= j < |x|
        ensures IsAscii(x[j])
      {
        if j >= i {
          assert x[j] == x[i..][j - i];
        }
      }
    }
  }

  /** `is_ascii_scalar`. */
  method IsAsciiScalar(x: seq<byte>) returns (r: AsciiResult)
    ensures r == AsciiVerdict(x)
  {
    for i := 0 to |x|
      invariant forall k :: 0 <= k < i ==> IsAscii(x[k])
    {
      if !IsAscii(x[i]) {
        VerdictIsFirstNonAscii(x, i);
        return NonAsciiAt(i);
      }
    }
    return AllAscii;
  }

  // ---------------------------------------------------------------------
  // Block tests of the vector versions
  // ---------------------------------------------------------------------

  /** Lanes of a `u8x16`. */
  const LANES_128: nat := 16
  /** Bytes in an `__m256i`. */
  const LANES_256: nat := 32
  /** The sign bit of every lane: `u8x16::splat(128)`, `_mm_set1_epi8(0b1000_0000)`. */
  const SIGN_BIT: bv8 := 0x80

  /** Lane-wise `&` of a loaded register with a splatted mask. */
  function LanesAnd(block: seq<byte>, mask: bv8): seq<bv8>
  {
    seq(|block|, k requires 0 <= k < |block| => (block[k] as bv8) & mask)
  }

  /** `x.eq(zero).all()`, and `_mm_testz` answering 1: every lane is zero. */
  predicate AllZero(x: seq<bv8>) {
    forall k :: 0 <= k < |x| ==> x[k] == 0
  }

  lemma SignBitOfByte(b: byte)
    ensures (b as bv8) & SIGN_BIT == 0 <==> IsAscii(b)
  {}

  /** No lane keeps its sign bit exactly when every byte of the block is ASCII. */
  lemma SignBitsClear(block: seq<byte>)
    ensures AllZero(LanesAnd(block, SIGN_BIT)) <==> forall k :: 0 <= k < |block| ==> IsAscii(block[k])
  {
    forall k | 0 <= k < |block|
      ensures LanesAnd(block, SIGN_BIT)[k] == 0 <==> IsAscii(block[k])
    {
      SignBitOfByte(block[k]);
    }
  }

  /** A block `[lo, lo + lanes)` without a sign bit extends the ASCII prefix up to `lo` past it. */
  lemma ClearBlockIsAscii(s: seq<byte>, lo: nat, lanes: nat)
    requires lo + lanes <= |s|
    requires forall k :: 0 <= k < lo ==> IsAscii(s[k])
    requires AllZero(LanesAnd(s[lo..lo + lanes], SIGN_BIT))
    ensures forall k :: 0 <= k < lo + lanes ==> IsAscii(s[k])
  {
    var block := s[lo..lo + lanes];
    SignBitsClear(block);
    forall k | lo <= k < lo + lanes
      ensures IsAscii(s[k])
    {
      assert s[k] == block[k - lo];
    }
  }

  /** `is_ascii_vector128`: two `u8x16` per step of 32 bytes. */
  method IsAsciiVector128(s: seq<byte>) returns (r: AsciiResult)
    ensures r == AsciiVerdict(s)
  {
    var i := 0;
    var len := |s|;
    while i + LANES_128 * 2 <= len
      invariant i <= len && i % (LANES_128 * 2) == 0
      invariant forall k :: 0 <= k < i ==> IsAscii(s[k])
      decreases len - i
    {
      var x := LanesAnd(s[i..i + LANES_128], SIGN_BIT);
      var y := LanesAnd(s[i + LANES_128..i + LANES_128 * 2], SIGN_BIT);
      if !AllZero(x) || !AllZero(y) {
        break;
      }
      ClearBlockIsAscii(s, i, LANES_128);
      ClearBlockIsAscii(s, i + LANES_128, LANES_128);
      i := i + LANES_128 * 2;
    }
    var tail := IsAsciiScalar(s[i..]);
    VerdictOfSuffix(s, i);
    r := Shift(tail, i);
  }

  /** `_mm_testz_si128(x, signbitmask)` / `_mm256_testz_si256(x, signbitmask)`: 1 when `x & signbitmask` is zero. */
  function TestZ(x: seq<byte>): (r: int)
    ensures r == 0 || r == 1
    ensures r == 1 <==> forall k :: 0 <= k < |x| ==> IsAscii(x[k])
  {
    SignBitsClear(x);
    if AllZero(LanesAnd(x, SIGN_BIT)) then 1 else 0
  }

  /**
   * The loop shared by `is_ascii_vector128_sse41` (`lanes` 16) and
   * `is_ascii_vector256_avx` (`lanes` 32): four registers per step,
   * then the scalar version on what is left.
   */
  method IsAsciiFourRegisters(x: seq<byte>, lanes: nat) returns (r: AsciiResult)
    requires lanes == LANES_128 || lanes == LANES_256
    ensures r == AsciiVerdict(x)
  {
    var i := 0;
    var len := |x|;
    while i + 4 * lanes <= len
      invariant i <= len
      invariant forall k :: 0 <= k < i ==> IsAscii(x[k])
      decreases len - i
    {
      var x0 := x[i..i + lanes];
      var x1 := x[i + lanes..i + 2 * lanes];
      var x2 := x[i + 2 * lanes..i + 3 * lanes];
      var x3 := x[i + 3 * lanes..i + 4 * lanes];
      if TestZ(x0) == 0 || TestZ(x1) == 0 || TestZ(x2) == 0 || TestZ(x3) == 0 {
        break;
      }
      SignBitsClear(x0);
      SignBitsClear(x1);
      SignBitsClear(x2);
      SignBitsClear(x3);
      ClearBlockIsAscii(x, i, lanes);
      ClearBlockIsAscii(x, i + lanes, lanes);
      ClearBlockIsAscii(x, i + 2 * lanes, lanes);
      ClearBlockIsAscii(x, i + 3 * lanes, lanes);
      i := i + 4 * lanes;
    }
    var tail := IsAsciiScalar(x[i..]);
    VerdictOfSuffix(x, i);
    r := Shift(tail, i);
  }

  /** `is_ascii_vector128_sse41`: four `__m128i` per step of 64 bytes. */
  method IsAsciiVector128Sse41(x: seq<byte>) returns (r: AsciiResult)
    ensures r == AsciiVerdict(x)
  {
    r := IsAsciiFourRegisters(x, LANES_128);
  }

  /** `is_ascii_vector256_avx`: four `__m256i` per step of 128 bytes. */
  method IsAsciiVector256Avx(x: seq<byte>) returns (r: AsciiResult)
    ensures r == AsciiVerdict(x)
  {
    r := IsAsciiFourRegisters(x, LANES_256);
  }

  // ---------------------------------------------------------------------
  // The ranges of the tests
  // ---------------------------------------------------------------------

  /** The bytes `lo, lo + 1, ..., hi - 1`. */
  function Range(lo: nat, hi: nat): seq<byte>
    requires lo <= hi <= 256
  {
    seq(hi - lo, k requires 0 <= k < hi - lo => (lo + k) as byte)
  }

  /**
   * A run of consecutive byte values is ASCII when it ends at or below 128,
   * fails at the position of 128 when it starts below and ends above it,
   * and fails at once when it starts at or above 128.
   */
  lemma VerdictOfRange(lo: nat, hi: nat)
    requires lo <= hi <= 256
    ensures hi <= 128 ==> AsciiVerdict(Range(lo, hi)) == AllAscii
    ensures lo < 128 < hi ==> AsciiVerdict(Range(lo, hi)) == NonAsciiAt(128 - lo)
    ensures 128 <= lo < hi ==> AsciiVerdict(Range(lo, hi)) == NonAsciiAt(0)
  {
    var x := Range(lo, hi);
    if lo < 128 < hi {
      VerdictIsFirstNonAscii(x, 128 - lo);
    } else if 128 <= lo < hi {
      VerdictIsFirstNonAscii(x, 0);
    }
  }
}
