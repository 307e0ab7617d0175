# is_utf8 in Dafny

This is a model of the Rust crate `is_utf8`, with proofs about it. The crate answers whether a byte slice is well-formed UTF-8. When it is not, it also gives the error that `core::str::from_utf8` would report: `valid_up_to`, and an `error_len` of `Some(1 | 2 | 3)` for an ill-formed sequence or `None` for a slice that ends inside a character. The crate has three validators, and the model has one module for each:

- `Utf8Validator` (src/lib.rs). It walks the slice one unit at a time, and takes each unit's expected width from `UTF8_CHAR_WIDTH`. Continuation bytes are checked against the byte ranges of the UTF-8 syntax in section 4 of RFC 3629. When the position is word-aligned, runs of ASCII are skipped two machine words at a time. The word size (4 or 8 bytes) and the alignment test are parameters of the model, and a word read is the slice of bytes it covers. The method `IsUtf8` is proved to return `Validate(v)` whatever the alignment function is.
- `Hoehrmann` (src/hoehrmann.rs). This is Björn Höhrmann's automaton: a 364-entry table made of 256 byte classes followed by 9 rows of 12 transitions. `Decode` is proved to be the step `NextState` that the RFC grammar gives, and `is_utf8` is proved to return `DfaVerdict`.
- `Ascii` (src/ascii.rs). These are ASCII scanners: one scalar scan and three block-skipping variants. Each SIMD register is modelled as the sequence of its byte lanes. Every variant is proved to return the scalar verdict `AsciiVerdict`.

Two further modules carry the specification and the comparison:

- `Utf8Grammar` states the RFC 3629 grammar (`IsUtf8Char`, `IsUtf8Octets`, `IsCharPrefix`, `IsMaximalSubpart`). It also defines the reference walk `ScanUnit` / `ValidateFrom` / `Validate`, and proves what that walk's verdict means in terms of the grammar.
- `Agreement` proves the two UTF-8 validators equivalent up to the error length. They agree on Ok versus Err, on `valid_up_to`, and on whether `error_len` is `None`. They differ only after a bad third or fourth byte: there the walk reports 2 or 3 and the automaton always reports 1.

`Common` holds the shared types: `byte`, `Option`, and `Utf8Result`, which is `Ok` or `Err(validUpTo, errorLen)`.

Three facts about the code that shape the model:

- The automaton has 12 byte classes and 9 states, the multiples of 12 from 0 to 96 (hoehrmann.rs:14-29).
- The ASCII skip in `is_utf8` is its own word-wise loop over `contains_nonascii` (lib.rs:158-174). It does not call the scanners of ascii.rs.
- No code in src/lib.rs, src/ascii.rs or src/hoehrmann.rs checks the two UTF-8 validators against each other at run time. Their agreement is the lemma `Agreement.ValidatorsAgree`.

## Model

| member | source | states |
|---|---|---|
| Utf8Grammar.ScanUnit | src/lib.rs:95-148 | a complete unit is a well-formed RFC 3629 character of 1 to 4 bytes lying inside the slice; an invalid unit reports an error length of 1 to 3 that lies inside the slice |
| Utf8Grammar.ValidateFrom | src/lib.rs:76-148 | an error lies at or after the starting index and before the end of the slice; an error length is 1 to 3 and ends inside the slice |
| Utf8Grammar.Validate | src/lib.rs:64-182 | the reference verdict on a whole slice: the walk from index 0; a definition without a contract of its own, which `ValidateAcceptsUtf8`, `ValidateErrorMeaning` and `PrefixOfUtf8IsNeverInvalid` tie to RFC 3629 and `Utf8Validator.IsUtf8` is proved to return |
| Utf8Grammar.CharPrefixIsPrefixClosed | src/lib.rs:107-115 | every prefix of the beginning of a character is also the beginning of a character |
| Utf8Grammar.ScanUnitFindsChar | src/lib.rs:107-147 | a well-formed character starting at `i` is exactly the unit the scan finds (the RFC code is prefix-free) |
| Utf8Grammar.NoCharUnlessComplete | src/lib.rs:116-146 | when the scan does not find a complete unit, no well-formed character starts at that index |
| Utf8Grammar.TruncatedIsCharPrefix | src/lib.rs:84-92 | `error_len = None` happens only when the rest of the input is the beginning of a well-formed character |
| Utf8Grammar.InvalidIsMaximalSubpart | src/lib.rs:116-146 | `Some(n)` reports the maximal subpart: the first `n` bytes begin a character, and byte `n+1` cannot continue it (for `n = 1`, the lead byte alone may already fail); this is the rule of 1 for a bad lead or second byte, 2 for a bad third byte, 3 for a bad fourth byte |
| Utf8Grammar.CharsArePrefixFree | src/lib.rs:107-115 | two well-formed characters that begin the same input have the same length |
| Utf8Grammar.IsUtf8AfterChar | src/lib.rs:107-115 | once a leading character is split off, the rest alone decides well-formedness |
| Utf8Grammar.ValidateFromAtBadUnit | src/lib.rs:77-93 | at a unit that is not complete, the walk reports `Err(i, Some(n))` for an invalid unit and `Err(i, None)` for a truncated one |
| Utf8Grammar.ValidateFromIsUtf8 | src/lib.rs:76-181 | the walk from a unit boundary `i` is Ok exactly when `v[i..]` is UTF8-octets |
| Utf8Grammar.ValidateFromStopsAtBadUnit | src/lib.rs:76-181 | an error from index `i` lies at a unit boundary: `v[i..validUpTo]` is well-formed and the unit there is not complete |
| Utf8Grammar.ValidateAcceptsUtf8 | src/lib.rs:107-147 | `Validate(v) == Ok` if and only if `v` is a concatenation of UTF8-1/2/3/4 characters |
| Utf8Grammar.ValidateErrorMeaning | src/lib.rs:77-80 | on `Err(up, len)`: `up < |v|`; `v[..up]` is UTF-8; no character starts at `up`; `None` means the rest begins a character; `Some(n)` is the maximal subpart |
| Utf8Grammar.ScanUnitOfCut | src/lib.rs:88-90 | cutting the input inside a complete character makes the scan see that unit as truncated |
| Utf8Grammar.Utf8StartsWithChar | src/lib.rs:107-115 | well-formed input that is not empty starts with a complete unit |
| Utf8Grammar.RestAfterChar | src/lib.rs:107-115 | after the first unit of well-formed input, the rest is well-formed |
| Utf8Grammar.CutKeepsChar | src/lib.rs:148 | cutting after a complete unit leaves the walk from before it equal to the walk from after it |
| Utf8Grammar.PrefixOfUtf8From | src/lib.rs:84-92 | a prefix of well-formed input, walked from a unit boundary, is either Ok or ends with `error_len = None` |
| Utf8Grammar.PrefixOfUtf8IsNeverInvalid | src/lib.rs:84-92 | every prefix of well-formed input is Ok or truncated, never `Some(n)` |
| Utf8Validator.CharWidthRanges | src/lib.rs:21-38 | `UTF8_CHAR_WIDTH` is 1 on 00-7F, 0 on 80-C1 and F5-FF, 2 on C2-DF, 3 on E0-EF and 4 on F0-F4 |
| Utf8Validator.WidthOfLowAscii | src/lib.rs:22-25 | the width is 1 on 00-3F |
| Utf8Validator.WidthOfHighAscii | src/lib.rs:26-29 | the width is 1 on 40-7F |
| Utf8Validator.WidthOfContinuation | src/lib.rs:30-33 | the width is 0 on 80-BF |
| Utf8Validator.WidthOfTwoByteLeads | src/lib.rs:34-35 | the width is 0 on C0-C1 and 2 on C2-DF |
| Utf8Validator.WidthOfThreeByteLeads | src/lib.rs:36 | the width is 3 on E0-EF |
| Utf8Validator.WidthOfFourByteLeads | src/lib.rs:37 | the width is 4 on F0-F4 and 0 on F5-FF |
| Utf8Validator.IsContinuation | src/lib.rs:40-43 | `b & !CONT_MASK == TAG_CONT_U8` holds exactly for UTF8-tail bytes 80-BF |
| Utf8Validator.NonasciiMask | src/lib.rs:45-46 | `0x80808080_80808080u64 as usize` keeps all eight high bits for an 8-byte `usize` and truncates to `0x80808080` for a 4-byte one |
| Utf8Validator.ContainsNonascii | src/lib.rs:48-52 | `(x & NONASCII_MASK) != 0`; a definition without a contract of its own; `ContainsNonasciiOfLoadWord` and `ContainsNonasciiIffHighByte` prove it is true exactly when some byte of the word is 128 or more |
| Utf8Validator.LoadWord | src/lib.rs:161-164 | the `*block` read of 4 or 8 bytes, least significant byte first; a 4-byte word fits in 32 bits, so it is a `usize` of that width; `ContainsNonasciiIffHighByte` proves what the mask test says about it |
| Utf8Validator.ContainsNonasciiOfLoadWord | src/lib.rs:45-52 | the masked 4- or 8-byte word is nonzero exactly when some byte of it has bit 7 set |
| Utf8Validator.ContainsNonasciiIffHighByte | src/lib.rs:45-52 | `contains_nonascii` of a loaded word is true if and only if some byte of the word is at least 128 |
| Utf8Validator.AsciiRunSkipped | src/lib.rs:149-178 | skipping a run of ASCII bytes does not change the verdict of the walk |
| Utf8Validator.AsciiBlock | src/lib.rs:159-170 | two words that both pass `contains_nonascii` mean that all `2 * usize_bytes` bytes of the block are ASCII |
| Utf8Validator.CheckMultibyte | src/lib.rs:84-148 | the width lookup and the `next!` checks return exactly the unit that `ScanUnit` describes: complete, `Some(1/2/3)` or `None` |
| Utf8Validator.SkipAscii | src/lib.rs:149-178 | the index advances by at least 1 and stays within the slice, and every byte it passes is ASCII; when aligned it stops at the end or at a byte of 128 or more, and when not aligned it moves exactly one byte; every word read lies before `blocks_end`, so within the slice |
| Utf8Validator.IsUtf8 | src/lib.rs:64-182 | for both word sizes and every alignment function, the result equals the reference verdict `Validate(v)`, and so it is independent of alignment |
| Utf8Validator.TestVectors | src/lib.rs:191-210 | `[C2 80]`, `[ED 9F BF]` and `[F4 8F BF BF]` are Ok; `[C0 80]`, `[E0 80 80]`, `[ED A0 80]` and `[F4 90 80 80]` give `Err(0, Some(1))`; the unit verdicts of lines 239 and 310 and two truncated slices are included too |
| Utf8Validator.LoneHighByteRejected | src/lib.rs:261-300 | a single byte of 128 or more is an error at index 0, with `None` exactly for the lead bytes C2-F4 |
| Ascii.AsciiVerdict | src/ascii.rs:3-5 | the verdict is Ok exactly when every byte is below 128; otherwise it is the index of a non-ASCII byte with only ASCII before it |
| Ascii.Shift | src/ascii.rs:29 | `map_err(|e| e + i)`: keeps Ok and adds `i` to an error index; a definition without a contract of its own; `VerdictOfSuffix` proves that the verdict on the whole slice is the shifted verdict on the suffix |
| Ascii.VerdictIsFirstNonAscii | src/ascii.rs:3-11 | the first non-ASCII byte is the reported index |
| Ascii.VerdictOfSuffix | src/ascii.rs:29 | after an ASCII prefix of length `i`, the verdict is the verdict on the suffix shifted by `i` |
| Ascii.IsAsciiScalar | src/ascii.rs:6-11 | `is_ascii_scalar` returns `AsciiVerdict(x)` |
| Ascii.LanesAnd | src/ascii.rs:22-23 | the lane-wise `x & v128`; a definition without a contract of its own; `SignBitsClear` and `TestZ` prove that the masked block is all zero exactly when the block is ASCII |
| Ascii.IsAscii | src/ascii.rs:8 | `b.is_ascii()`, the byte is below 128; a predicate without a contract of its own, the reference that `AsciiVerdict` and every scanner are stated against |
| Ascii.AllZero | src/ascii.rs:24 | `x.eq(zero).all()`, every lane is zero; a predicate without a contract of its own; `SignBitsClear` proves that on a masked block it holds exactly when the block is ASCII |
| Ascii.SignBitOfByte | src/ascii.rs:16 | a byte ANDed with 0x80 is zero exactly when the byte is ASCII |
| Ascii.SignBitsClear | src/ascii.rs:22-24 | no lane keeps its sign bit exactly when every byte of the block is ASCII |
| Ascii.ClearBlockIsAscii | src/ascii.rs:19-28 | a block with no sign bit extends the all-ASCII prefix over the whole block |
| Ascii.IsAsciiVector128 | src/ascii.rs:13-30 | it returns the scalar verdict; the loop keeps `i <= len`, `i` a multiple of 32, and `[0, i)` all ASCII |
| Ascii.TestZ | src/ascii.rs:46-49 | `testz(x, signbitmask)` is 0 or 1, and it is 1 exactly when every byte of the register is ASCII |
| Ascii.IsAsciiFourRegisters | src/ascii.rs:41-54 | for 16 or 32 lanes, the four-register loop followed by the scalar tail returns the scalar verdict |
| Ascii.IsAsciiVector128Sse41 | src/ascii.rs:35-55 | the 64-byte SSE4.1 variant returns the scalar verdict |
| Ascii.IsAsciiVector256Avx | src/ascii.rs:59-79 | the 128-byte AVX variant returns the scalar verdict |
| Ascii.Range | src/ascii.rs:91 | `(i..j).collect()`, the consecutive byte values `lo` to `hi - 1`; a definition without a contract of its own; `VerdictOfRange` proves the verdicts on such runs |
| Ascii.VerdictOfRange | src/ascii.rs:89-108 | runs ending at or below 128 are Ok; runs from `i < 128` past 127 fail at `128 - i`; runs from 128 or more fail at 0 |
| Hoehrmann.NextState | src/hoehrmann.rs:25-29 | the step of the RFC 3629 automaton always leads to one of the 9 states |
| Hoehrmann.ByteClass | src/hoehrmann.rs:14-21 | the class of each byte range: 0 for ASCII, 1/9/7 for the tails 80-8F/90-9F/A0-BF, 8 for C0-C1 and F5-FF, 2 for C2-DF, and 10, 3, 4, 11, 6 and 5 for E0, E1-EC and EE-EF, ED, F0, F1-F3 and F4 |
| Hoehrmann.ClassesOfLowAscii | src/hoehrmann.rs:14-15 | bytes 00-3F have class 0 |
| Hoehrmann.ClassesOfHighAscii | src/hoehrmann.rs:16-17 | bytes 40-7F have class 0 |
| Hoehrmann.ClassesOfLowTails | src/hoehrmann.rs:18 | bytes 80-8F have class 1 and 90-9F have class 9 |
| Hoehrmann.ClassesOfHighTails | src/hoehrmann.rs:19 | bytes A0-BF have class 7 |
| Hoehrmann.ClassesOfTwoByteLeads | src/hoehrmann.rs:20 | C0-C1 have class 8 and C2-DF have class 2 |
| Hoehrmann.ClassesOfLongLeads | src/hoehrmann.rs:21 | the classes of E0-FF, lead by lead |
| Hoehrmann.ClassBelowTwelve | src/hoehrmann.rs:14-21 | every class value is below 12 |
| Hoehrmann.RowOfAccept | src/hoehrmann.rs:25 | the row of state 0 is the RFC step from the accepting state |
| Hoehrmann.RowOfReject | src/hoehrmann.rs:25 | the row of state 12 maps every class to 12 |
| Hoehrmann.RowOf24 | src/hoehrmann.rs:26 | the row of state 24 accepts a tail and rejects anything else |
| Hoehrmann.RowOf36 | src/hoehrmann.rs:26-27 | the row of state 36 moves to 24 on a tail and rejects anything else |
| Hoehrmann.RowOf48 | src/hoehrmann.rs:27 | the row of state 48 (after E0) takes only A0-BF |
| Hoehrmann.RowOf60 | src/hoehrmann.rs:27 | the row of state 60 (after ED) takes only 80-9F |
| Hoehrmann.RowOf72 | src/hoehrmann.rs:28 | the row of state 72 (after F0) takes only 90-BF |
| Hoehrmann.RowOf84 | src/hoehrmann.rs:28 | the row of state 84 (after F1-F3) moves to 36 on any tail |
| Hoehrmann.RowOf96 | src/hoehrmann.rs:29 | the row of state 96 (after F4) takes only 80-8F |
| Hoehrmann.TransitionReadsRfc | src/hoehrmann.rs:25-29 | for every state and byte, the transition row at the byte's class is the RFC automaton's step |
| Hoehrmann.TableLengths | src/hoehrmann.rs:11-30 | the class map has 256 entries and the transition rows have 108 |
| Hoehrmann.TableHalves | src/hoehrmann.rs:11-30 | `UTF8D` is 364 entries: the class map followed by the transition rows |
| Hoehrmann.ClassRepresentative | src/hoehrmann.rs:14-21 | every class below 12 is the class of some byte |
| Hoehrmann.TableEntriesInRange | src/hoehrmann.rs:11-35 | every class value is below 12 and every transition entry is a state, so `decode`'s unchecked index `256 + state + class` is below 364 |
| Hoehrmann.Decode | src/hoehrmann.rs:33-35 | the table lookup `decode(state, byte)` equals the RFC automaton's step `NextState(state, byte)` |
| Hoehrmann.Run | src/hoehrmann.rs:41-42 | the state after any input is one of the 9 states |
| Hoehrmann.RunStep | src/hoehrmann.rs:42 | one more byte advances the run by one step |
| Hoehrmann.RejectIsAbsorbing | src/hoehrmann.rs:25 | once the run is in REJECT, it stays in REJECT |
| Hoehrmann.AsciiKeepsAccept | src/hoehrmann.rs:14-17 | from ACCEPT, an ASCII byte leads back to ACCEPT |
| Hoehrmann.LastAccept | src/hoehrmann.rs:40-44 | `first_not_ok` is at most `i`, the run is in ACCEPT there, and it is not in ACCEPT at any later index up to `i` |
| Hoehrmann.LastAcceptSkips | src/hoehrmann.rs:44-46 | `first_not_ok` does not move while the run stays out of ACCEPT |
| Hoehrmann.DfaVerdict | src/hoehrmann.rs:49-52 | Ok exactly when the final state is ACCEPT; an error lies before the end of the slice, at the last index up to the end where the automaton accepted (`LastAccept`); its length is `Some(1)` exactly when the input is rejected and `None` exactly when it is not |
| Hoehrmann.VerdictOnReject | src/hoehrmann.rs:45 | reaching REJECT at byte `i` gives `Err(first_not_ok, Some(1))`, the same verdict as reading the whole slice |
| Hoehrmann.IsUtf8 | src/hoehrmann.rs:38-53 | the loop with its early return on REJECT returns `DfaVerdict(x)` |
| Agreement.UnitRun | src/hoehrmann.rs:41-47 | from ACCEPT at a unit boundary, the automaton stays pending inside the unit; it ends in ACCEPT after a complete unit, in REJECT on an invalid one, and still pending at the end of a truncated one |
| Agreement.AfterThreeByteLead | src/hoehrmann.rs:25-27 | after E0-EF, the automaton takes exactly the second bytes that UTF8-3 allows |
| Agreement.AfterFourByteLead | src/hoehrmann.rs:25-29 | after F0-F4, the automaton takes exactly the second bytes that UTF8-4 allows |
| Agreement.DfaVerdictOnRejectedUnit | src/hoehrmann.rs:45 | rejecting inside the unit that starts at `i` gives `Err(i, Some(1))` |
| Agreement.DfaVerdictOnTruncatedUnit | src/hoehrmann.rs:49-52 | running out of input inside the unit that starts at `i` gives `Err(i, None)` |
| Agreement.DfaVerdictAtBadUnit | src/hoehrmann.rs:38-53 | at the first unit that is not complete, the automaton reports an error at that unit's start |
| Agreement.AgreeFrom | src/hoehrmann.rs:38-53 | from an accepting unit boundary, the walk's verdict and the automaton's verdict agree |
| Agreement.ValidatorsAgree | src/lib.rs:116-146 | the two validators agree on Ok versus Err, on `valid_up_to` and on whether `error_len` is `None`; where they differ, lib.rs reports 2 or 3 and the automaton reports 1 |
| Agreement.DfaAcceptsUtf8 | src/hoehrmann.rs:49-50 | the automaton ends in ACCEPT exactly on UTF-8 input |
| Agreement.DfaErrorMeaning | src/hoehrmann.rs:45-51 | on an error, `v[..first_not_ok]` is UTF-8; `None` means the rest begins a character; `Some(1)` means it does not |
| Agreement.ErrorLengthsDiffer | src/lib.rs:128-130 | on `[E1 80 41]`, lib.rs reports `Err(0, Some(2))` and the automaton reports `Err(0, Some(1))` |

## Left out

- The `Utf8ErrorImpl` to `core::str::Utf8Error` transmute (src/lib.rs:54-61) is not modelled. The error is the datatype `Utf8Result.Err(validUpTo, errorLen)`.
- Raw pointers and `align_offset` (src/lib.rs:153-157) are not modelled. The alignment of each index is an arbitrary function passed to `Utf8Validator.IsUtf8`.
- Aligned word loads (src/lib.rs:161-164) are modelled as reading the bytes of the slice; their alignment is the parameter above. `LoadWord` puts them in little-endian order, and the verdict does not depend on that order because the mask is the same in every byte.
- `size_of::<usize>()` is a parameter that may only be 4 or 8. Other pointer widths are not modelled.
- The SIMD types and intrinsics (`u8x16`, `_mm_loadu_si128`, `_mm_testz_si128`, `_mm256_testz_si256`) are not modelled as hardware. A register is the sequence of its byte lanes, and a `testz` against the sign mask is the test "no byte of the block is 128 or more".
- The `target_feature` / `cfg` gating of the vector variants is not modelled. Every variant is always available.
- The sample-text fixtures of the tests (src/lib.rs:373-636) are not modelled. They are bulk data.
- The test vectors of src/lib.rs are only partly modelled. `Utf8Validator.TestVectors` states the ones listed in its row; the rest of lines 191-370 are not stated vector by vector.
- Crate attributes, `unsafe` blocks and `get_unchecked` are not modelled beyond proving that every index is in bounds.
- Input bytes are the bounded type `Common.byte` (0 to 255), and words are `bv64`. The `u8` entries of `UTF8_CHAR_WIDTH` and `UTF8D`, the automaton's `u8` state and every `usize` index are unbounded `nat`. Their values stay at most 96 (table entries and states) or at most the length of the slice (indices), so no wrap-around is lost.
