/**
 * Björn Höhrmann's table-driven automaton of src/hoehrmann.rs. The input is
 * fed one byte at a time to a nine-state automaton whose states are
 * multiples of 12; state 0 accepts (a whole number of characters has been
 * read) and state 12 rejects for good. The validator remembers the index just
 * past the last byte that brought the automaton back to the accepting state.
 */
module Hoehrmann {
  import opened Common
  import opened Utf8Grammar

  const UTF8_ACCEPT: nat := 0
  const UTF8_REJECT: nat := 12

  /** The first 256 entries of `UTF8D`: the character class, 0 to 11, of each byte. */
  const CHARACTER_CLASSES: seq<nat> :=
    ([0, 0, 0, 0, 0, 0, 0, 0, 0, 0, 0, 0, 0, 0, 0, 0] +
     [0, 0, 0, 0, 0, 0, 0, 0, 0, 0, 0, 0, 0, 0, 0, 0] +
     [0, 0, 0, 0, 0, 0, 0, 0, 0, 0, 0, 0, 0, 0, 0, 0] +
     [0, 0, 0, 0, 0, 0, 0, 0, 0, 0, 0, 0, 0, 0, 0, 0]) +
    ([0, 0, 0, 0, 0, 0, 0, 0, 0, 0, 0, 0, 0, 0, 0, 0] +
     [0, 0, 0, 0, 0, 0, 0, 0, 0, 0, 0, 0, 0, 0, 0, 0] +
     [0, 0, 0, 0, 0, 0, 0, 0, 0, 0, 0, 0, 0, 0, 0, 0] +
     [0, 0, 0, 0, 0, 0, 0, 0, 0, 0, 0, 0, 0, 0, 0, 0]) +
    ([1, 1, 1, 1, 1, 1, 1, 1, 1, 1, 1, 1, 1, 1, 1, 1] +
     [9, 9, 9, 9, 9, 9, 9, 9, 9, 9, 9, 9, 9, 9, 9, 9] +
     [7, 7, 7, 7, 7, 7, 7, 7, 7, 7, 7, 7, 7, 7, 7, 7] +
     [7, 7, 7, 7, 7, 7, 7, 7, 7, 7, 7, 7, 7, 7, 7, 7]) +
    ([8, 8, 2, 2, 2, 2, 2, 2, 2, 2, 2, 2, 2, 2, 2, 2] +
     [2, 2, 2, 2, 2, 2, 2, 2, 2, 2, 2, 2, 2, 2, 2, 2] +
     [10, 3, 3, 3, 3, 3, 3, 3, 3, 3, 3, 3, 3, 4, 3, 3] +
     [11, 6, 6, 6, 5, 8, 8, 8, 8, 8, 8, 8, 8, 8, 8, 8])

  /** The last 108 entries of `UTF8D`: the next state, one row of 12 classes per state. */
  const TRANSITIONS: seq<nat> :=
    [0, 12, 24, 36, 60, 96, 84, 12, 12, 12, 48, 72] +   // state 0
    [12, 12, 12, 12, 12, 12, 12, 12, 12, 12, 12, 12] +  // state 12
    [12, 0, 12, 12, 12, 12, 12, 0, 12, 0, 12, 12] +     // state 24
    [12, 24, 12, 12, 12, 12, 12, 24, 12, 24, 12, 12] +  // state 36
    [12, 12, 12, 12, 12, 12, 12, 24, 12, 12, 12, 12] +  // state 48
    [12, 24, 12, 12, 12, 12, 12, 12, 12, 24, 12, 12] +  // state 60
    [12, 12, 12, 12, 12, 12, 12, 36, 12, 36, 12, 12] +  // state 72
    [12, 36, 12, 12, 12, 12, 12, 36, 12, 36, 12, 12] +  // state 84
    [12, 36, 12, 12, 12, 12, 12, 12, 12, 12, 12, 12]    // state 96

  /** `UTF8D`, the 364-entry table. */
  const UTF8D: seq<nat> := CHARACTER_CLASSES + TRANSITIONS

  /** The states of the automaton: the multiples of 12 up to 96, each the offset of its row. */
  predicate IsState(s: nat) {
    s == 0 || s == 12 || s == 24 || s == 36 || s == 48 || s == 60 || s == 72 || s == 84 || s == 96
  }

  // ---------------------------------------------------------------------
  // The automaton in the terms of RFC 3629
  // ---------------------------------------------------------------------

  /**
   * What each state is waiting for, read off section 4 of RFC 3629:
   * 24 waits for the last tail byte of a character, 36 for the last two,
   * 84 for the last three; 48, 60, 72 and 96 wait for the restricted
   * second byte after E0, ED, F0 and F4.
   */
  function NextState(s: nat, b: byte): (r: nat)
    requires IsState(s)
    ensures IsState(r)
  {
    if s == UTF8_ACCEPT then
      if b <= 0x7F then UTF8_ACCEPT
      else if 0xC2 <= b <= 0xDF then 24
      else if b == 0xE0 then 48
      else if b == 0xED then 60
      else if 0xE1 <= b <= 0xEF then 36
      else if b == 0xF0 then 72
      else if 0xF1 <= b <= 0xF3 then 84
      else if b == 0xF4 then 96
      else UTF8_REJECT
    else if s == 24 then (if IsTail(b) then UTF8_ACCEPT else UTF8_REJECT)
    else if s == 36 then (if IsTail(b) then 24 else UTF8_REJECT)
    else if s == 48 then (if SecondOfThree(0xE0, b) then 24 else UTF8_REJECT)
    else if s == 60 then (if SecondOfThree(0xED, b) then 24 else UTF8_REJECT)
    else if s == 72 then (if SecondOfFour(0xF0, b) then 36 else UTF8_REJECT)
    else if s == 84 then (if IsTail(b) then 36 else UTF8_REJECT)
    else if s == 96 then (if SecondOfFour(0xF4, b) then 36 else UTF8_REJECT)
    else UTF8_REJECT
  }

  // ---------------------------------------------------------------------
  // The table, range by range and row by row
  // ---------------------------------------------------------------------

  lemma ClassesOfLowAscii(b: byte)
    requires b <= 0x3F
    ensures CHARACTER_CLASSES[b] == 0
  {}

  lemma ClassesOfHighAscii(b: byte)
    requires 0x40 <= b <= 0x7F
    ensures CHARACTER_CLASSES[b] == 0
  {}

  lemma ClassesOfLowTails(b: byte)
    requires 0x80 <= b <= 0x9F
    ensures CHARACTER_CLASSES[b] == if b <= 0x8F then 1 else 9
  {}

  lemma ClassesOfHighTails(b: byte)
    requires 0xA0 <= b <= 0xBF
    ensures CHARACTER_CLASSES[b] == 7
  {}

  lemma ClassesOfTwoByteLeads(b: byte)
    requires 0xC0 <= b <= 0xDF
    ensures CHARACTER_CLASSES[b] == if b <= 0xC1 then 8 else 2
  {}

  lemma ClassesOfLongLeads(b: byte)
    requires 0xE0 <= b
    ensures CHARACTER_CLASSES[b] == if b == 0xE0 then 10 else if b == 0xED then 4 else if b <= 0xEF then 3
      else if b == 0xF0 then 11 else if b <= 0xF3 then 6 else if b == 0xF4 then 5 else 8
  {}

  /** `UTF8D[byte]`: the class of a byte, by the ranges of RFC 3629. */
  function ByteClass(b: byte): (c: nat)
    ensures b <= 0x7F ==> c == 0
    ensures 0x80 <= b <= 0x8F ==> c == 1
    ensures 0x90 <= b <= 0x9F ==> c == 9
    ensures 0xA0 <= b <= 0xBF ==> c == 7
    ensures (0xC0 <= b <= 0xC1 || 0xF5 <= b) ==> c == 8
    ensures 0xC2 <= b <= 0xDF ==> c == 2
    ensures b == 0xE0 ==> c == 10
    ensures (0xE1 <= b <= 0xEC || 0xEE <= b <= 0xEF) ==> c == 3
    ensures b == 0xED ==> c == 4
    ensures b == 0xF0 ==> c == 11
    ensures 0xF1 <= b <= 0xF3 ==> c == 6
    ensures b == 0xF4 ==> c == 5
  {
    if b <= 0x3F then
      ClassesOfLowAscii(b);
      CHARACTER_CLASSES[b]
    else if b <= 0x7F then
      ClassesOfHighAscii(b);
      CHARACTER_CLASSES[b]
    else if b <= 0x9F then
      ClassesOfLowTails(b);
      CHARACTER_CLASSES[b]
    else if b <= 0xBF then
      ClassesOfHighTails(b);
      CHARACTER_CLASSES[b]
    else if b <= 0xDF then
      ClassesOfTwoByteLeads(b);
      CHARACTER_CLASSES[b]
    else
      ClassesOfLongLeads(b);
      CHARACTER_CLASSES[b]
  }

  lemma ClassBelowTwelve(b: byte)
    ensures ByteClass(b) < 12
  {}

  lemma RowOfAccept(b: byte)
    ensures TRANSITIONS[UTF8_ACCEPT + ByteClass(b)] == NextState(UTF8_ACCEPT, b)
  {
    ClassBelowTwelve(b);
  }

  lemma RowOfReject(b: byte)
    ensures TRANSITIONS[UTF8_REJECT + ByteClass(b)] == NextState(UTF8_REJECT, b)
  {
    ClassBelowTwelve(b);
  }

  lemma RowOf24(b: byte)
    ensures TRANSITIONS[24 + ByteClass(b)] == NextState(24, b)
  {
    ClassBelowTwelve(b);
  }

  lemma RowOf36(b: byte)
    ensures TRANSITIONS[36 + ByteClass(b)] == NextState(36, b)
  {
    ClassBelowTwelve(b);
  }

  lemma RowOf48(b: byte)
    ensures TRANSITIONS[48 + ByteClass(b)] == NextState(48, b)
  {
    ClassBelowTwelve(b);
  }

  lemma RowOf60(b: byte)
    ensures TRANSITIONS[60 + ByteClass(b)] == NextState(60, b)
  {
    ClassBelowTwelve(b);
  }

  lemma RowOf72(b: byte)
    ensures TRANSITIONS[72 + ByteClass(b)] == NextState(72, b)
  {
    ClassBelowTwelve(b);
  }

  lemma RowOf84(b: byte)
    ensures TRANSITIONS[84 + ByteClass(b)] == NextState(84, b)
  {
    ClassBelowTwelve(b);
  }

  lemma RowOf96(b: byte)
    ensures TRANSITIONS[96 + ByteClass(b)] == NextState(96, b)
  {
    ClassBelowTwelve(b);
  }

  /** The row of state `s` at the class of `b` is the RFC automaton's step. */
  lemma TransitionReadsRfc(s: nat, b: byte)
    requires IsState(s)
    ensures ByteClass(b) < 12
    ensures TRANSITIONS[s + ByteClass(b)] == NextState(s, b)
  {
    ClassBelowTwelve(b);
    if s == 0 {
      RowOfAccept(b);
    } else if s == 12 {
      RowOfReject(b);
    } else if s == 24 {
      RowOf24(b);
    } else if s == 36 {
      RowOf36(b);
    } else if s == 48 {
      RowOf48(b);
    } else if s == 60 {
      RowOf60(b);
    } else if s == 72 {
      RowOf72(b);
    } else if s == 84 {
      RowOf84(b);
    } else {
      RowOf96(b);
    }
  }

  lemma TableLengths()
    ensures |CHARACTER_CLASSES| == 256 && |TRANSITIONS| == 108
  {}

  /** `UTF8D` is the class map followed by the transition rows. */
  lemma TableHalves(b: byte, k: nat)
    requires k < 108
    ensures |UTF8D| == 364
    ensures UTF8D[b] == CHARACTER_CLASSES[b]
    ensures UTF8D[256 + k] == TRANSITIONS[k]
  {
    TableLengths();
  }

  /** A byte of each class. */
  function ClassRepresentative(c: nat): (b: byte)
    requires c < 12
    ensures ByteClass(b) == c
  {
    [0x00, 0x80, 0xC2, 0xE1, 0xED, 0xF4, 0xF1, 0xA0, 0xC0, 0x90, 0xE0, 0xF0][c]
  }

  /** Every class value is below 12 and every transition entry is a state. */
  lemma TableEntriesInRange(b: byte, s: nat, c: nat)
    requires IsState(s) && c < 12
    ensures UTF8D[b] < 12
    ensures IsState(UTF8D[256 + s + c])
  {
    ClassBelowTwelve(b);
    TableHalves(b, s + c);
    var rep := ClassRepresentative(c);
    TransitionReadsRfc(s, rep);
    if b <= 0x3F {
      ClassesOfLowAscii(b);
    } else if b <= 0x7F {
      ClassesOfHighAscii(b);
    } else if b <= 0x9F {
      ClassesOfLowTails(b);
    } else if b <= 0xBF {
      ClassesOfHighTails(b);
    } else if b <= 0xDF {
      ClassesOfTwoByteLeads(b);
    } else {
      ClassesOfLongLeads(b);
    }
  }

  // ---------------------------------------------------------------------
  // decode and the run of the automaton
  // ---------------------------------------------------------------------

  /** `decode`: one step of the automaton by table lookup. */
  function Decode(state: nat, b: byte): (r: nat)
    requires IsState(state)
    ensures r == NextState(state, b)
  {
    TransitionReadsRfc(state, b);
    TableHalves(b, state + ByteClass(b));
    UTF8D[256 + state + UTF8D[b]]
  }

  /** The state after feeding `p` to the automaton from `UTF8_ACCEPT`. */
  function Run(p: seq<byte>): (r: nat)
    ensures IsState(r)
  {
    if p == [] then UTF8_ACCEPT else NextState(Run(p[..|p| - 1]), p[|p| - 1])
  }

  lemma RunStep(x: seq<byte>, i: nat)
    requires i < |x|
    ensures Run(x[..i + 1]) == NextState(Run(x[..i]), x[i])
  {
    assert x[..i + 1][..i] == x[..i];
  }

  /** The state 12 maps every byte to itself: once rejected, always rejected. */
  lemma {:induction false} RejectIsAbsorbing(x: seq<byte>, m: nat, n: nat)
    requires m <= n <= |x|
    requires Run(x[..m]) == UTF8_REJECT
    ensures Run(x[..n]) == UTF8_REJECT
    decreases n - m
  {
    if m < n {
      RunStep(x, m);
      RejectIsAbsorbing(x, m + 1, n);
    }
  }

  /** From the accepting state, an ASCII byte leads back to it. */
  lemma AsciiKeepsAccept(b: byte)
    requires b <= 0x7F
    ensures Decode(UTF8_ACCEPT, b) == UTF8_ACCEPT
  {}

  /** The largest `k <= n` after which the automaton is in the accepting state. */
  function LastAccept(x: seq<byte>, n: nat): (k: nat)
    requires n <= |x|
    ensures k <= n && Run(x[..k]) == UTF8_ACCEPT
    ensures forall j :: k < j <= n ==> Run(x[..j]) != UTF8_ACCEPT
  {
    if n == 0 then 0
    else if Run(x[..n]) == UTF8_ACCEPT then n
    else LastAccept(x, n - 1)
  }

  /** `LastAccept` does not move while the automaton stays away from the accepting state. */
  lemma LastAcceptSkips(x: seq<byte>, a: nat, n: nat)
    requires a <= n <= |x|
    requires Run(x[..a]) == UTF8_ACCEPT
    requires forall j :: a < j <= n ==> Run(x[..j]) != UTF8_ACCEPT
    ensures LastAccept(x, n) == a
  {}

  /**
   * The answer of the automaton on `x`: `Ok` when it ends in the accepting
   * state; otherwise the last index at which it accepted, with error length
   * 1 if it rejected and none if it ran out of input.
   */
  function DfaVerdict(x: seq<byte>): (r: Utf8Result)
    ensures r.Ok? <==> Run(x) == UTF8_ACCEPT
    ensures r.Err? ==> r.validUpTo < |x| && Run(x[..r.validUpTo]) == UTF8_ACCEPT
    ensures r.Err? ==> r.validUpTo == LastAccept(x, |x|)
    ensures r.Err? ==> (r.errorLen == Some(1) <==> Run(x) == UTF8_REJECT)
    ensures r.Err? ==> (r.errorLen.None? <==> Run(x) != UTF8_REJECT)
  {
    assert x[..|x|] == x;
    var s := Run(x);
    if s == UTF8_ACCEPT then Ok
    else Err(LastAccept(x, |x|), if s == UTF8_REJECT then Some(1) else None)
  }

  /** Rejecting at byte `i`: the verdict is an error of length 1 at the last accepting index. */
  lemma VerdictOnReject(x: seq<byte>, i: nat)
    requires i < |x|
    requires Run(x[..i + 1]) == UTF8_REJECT
    ensures DfaVerdict(x) == Err(LastAccept(x, i), Some(1))
  {
    RejectIsAbsorbing(x, i + 1, |x|);
    assert x[..|x|] == x;
    forall j | i + 1 < j <= |x|
      ensures Run(x[..j]) != UTF8_ACCEPT
    {
      RejectIsAbsorbing(x, i + 1, j);
    }
    LastAcceptSkips(x, LastAccept(x, i), |x|);
  }

  /** `is_utf8` of src/hoehrmann.rs. */
  method IsUtf8(x: seq<byte>) returns (r: Utf8Result)
    ensures r == DfaVerdict(x)
  {
    var s := UTF8_ACCEPT;
    var firstNotOk := 0;
    for i := 0 to |x|
      invariant s == Run(x[..i]) && s != UTF8_REJECT
      invariant firstNotOk == LastAccept(x, i)
    {
      RunStep(x, i);
      s := Decode(s, x[i]);
      if s == UTF8_ACCEPT {
        firstNotOk := i + 1;
      } else if s == UTF8_REJECT {
        VerdictOnReject(x, i);
        return Err(firstNotOk, Some(1));
      }
    }
    assert x[..|x|] == x;
    if s == UTF8_ACCEPT {
      return Ok;
    }
    return Err(firstNotOk, None);
  }
}
