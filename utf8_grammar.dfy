/**
 * The UTF-8 syntax of section 4 of RFC 3629, and the unit-by-unit walk that
 * both validators are measured against.
 *
 *   UTF8-octets = *( UTF8-char )
 *   UTF8-char   = UTF8-1 / UTF8-2 / UTF8-3 / UTF8-4
 *   UTF8-tail   = %x80-BF
 *
 * `ScanUnit` classifies the unit that starts at one index (complete, invalid
 * after n bytes, or cut off by the end of the input) and `ValidateFrom` walks
 * the input unit by unit; the lemmas below say what both mean in terms of
 * the grammar alone.
 */
module Utf8Grammar {
  import opened Common

  /** UTF8-tail = %x80-BF */
  predicate IsTail(b: byte) {
    0x80 <= b <= 0xBF
  }

  /** UTF8-char, alternative by alternative as RFC 3629 writes it. */
  predicate IsUtf8Char(c: seq<byte>) {
    // UTF8-1 = %x00-7F
    || (|c| == 1 && c[0] <= 0x7F)
    // UTF8-2 = %xC2-DF UTF8-tail
    || (|c| == 2 && 0xC2 <= c[0] <= 0xDF && IsTail(c[1]))
    // UTF8-3 = %xE0 %xA0-BF UTF8-tail / %xE1-EC 2( UTF8-tail ) /
    //          %xED %x80-9F UTF8-tail / %xEE-EF 2( UTF8-tail )
    || (|c| == 3 && (
        || (c[0] == 0xE0 && 0xA0 <= c[1] <= 0xBF && IsTail(c[2]))
        || (0xE1 <= c[0] <= 0xEC && IsTail(c[1]) && IsTail(c[2]))
        || (c[0] == 0xED && 0x80 <= c[1] <= 0x9F && IsTail(c[2]))
        || (0xEE <= c[0] <= 0xEF && IsTail(c[1]) && IsTail(c[2]))))
    // UTF8-4 = %xF0 %x90-BF 2( UTF8-tail ) / %xF1-F3 3( UTF8-tail ) /
    //          %xF4 %x80-8F 2( UTF8-tail )
    || (|c| == 4 && (
        || (c[0] == 0xF0 && 0x90 <= c[1] <= 0xBF && IsTail(c[2]) && IsTail(c[3]))
        || (0xF1 <= c[0] <= 0xF3 && IsTail(c[1]) && IsTail(c[2]) && IsTail(c[3]))
        || (c[0] == 0xF4 && 0x80 <= c[1] <= 0x8F && IsTail(c[2]) && IsTail(c[3]))))
  }

  /** UTF8-octets = *( UTF8-char ): the input splits into well-formed characters. */
  ghost predicate IsUtf8Octets(s: seq<byte>)
    decreases |s|
  {
    s == [] || exists k :: 1 <= k <= |s| && k <= 4 && IsUtf8Char(s[..k]) && IsUtf8Octets(s[k..])
  }

  /** `p` is the beginning of some well-formed character (possibly all of it). */
  ghost predicate IsCharPrefix(p: seq<byte>) {
    exists c :: IsUtf8Char(c) && p <= c
  }

  /**
   * The first `n` bytes of `s` are the longest beginning of a character that
   * `s` has (or the single first byte when it has none), and the byte after
   * them is present and cannot continue that character.
   */
  ghost predicate IsMaximalSubpart(s: seq<byte>, n: nat) {
    || (n == 1 && 1 <= |s| && !IsCharPrefix(s[..1]))
    || (1 <= n < |s| && IsCharPrefix(s[..n]) && !IsCharPrefix(s[..n + 1]))
  }

  /** What is found at the start of a unit. */
  datatype UnitScan = Complete(width: nat) | Invalid(errorLen: nat) | Truncated

  /** The second byte allowed after a three-byte lead (UTF8-3). */
  predicate SecondOfThree(lead: byte, b: byte) {
    || (lead == 0xE0 && 0xA0 <= b <= 0xBF)
    || (0xE1 <= lead <= 0xEC && IsTail(b))
    || (lead == 0xED && 0x80 <= b <= 0x9F)
    || (0xEE <= lead <= 0xEF && IsTail(b))
  }

  /** The second byte allowed after a four-byte lead (UTF8-4). */
  predicate SecondOfFour(lead: byte, b: byte) {
    || (lead == 0xF0 && 0x90 <= b <= 0xBF)
    || (0xF1 <= lead <= 0xF3 && IsTail(b))
    || (lead == 0xF4 && 0x80 <= b <= 0x8F)
  }

  /**
   * The unit starting at `i`: a complete character of `width` bytes, an
   * ill-formed sequence whose first `errorLen` bytes are to be reported, or
   * a character the input ends in the middle of.
   */
  function ScanUnit(v: seq<byte>, i: nat): (r: UnitScan)
    requires i < |v|
    ensures r.Complete? ==> 1 <= r.width <= 4 && i + r.width <= |v| && IsUtf8Char(v[i..i + r.width])
    ensures r.Invalid? ==> 1 <= r.errorLen <= 3 && i + r.errorLen <= |v|
  {
    var lead := v[i];
    if lead <= 0x7F then Complete(1)
    else if 0xC2 <= lead <= 0xDF then
      if i + 1 == |v| then Truncated
      else if !IsTail(v[i + 1]) then Invalid(1)
      else Complete(2)
    else if 0xE0 <= lead <= 0xEF then
      if i + 1 == |v| then Truncated
      else if !SecondOfThree(lead, v[i + 1]) then Invalid(1)
      else if i + 2 == |v| then Truncated
      else if !IsTail(v[i + 2]) then Invalid(2)
      else Complete(3)
    else if 0xF0 <= lead <= 0xF4 then
      if i + 1 == |v| then Truncated
      else if !SecondOfFour(lead, v[i + 1]) then Invalid(1)
      else if i + 2 == |v| then Truncated
      else if !IsTail(v[i + 2]) then Invalid(2)
      else if i + 3 == |v| then Truncated
      else if !IsTail(v[i + 3]) then Invalid(3)
      else Complete(4)
    else Invalid(1)
  }

  /**
   * The verdict of walking `v` unit by unit from `i`: the first unit that is
   * not a complete character decides the error, reported at its start.
   */
  function ValidateFrom(v: seq<byte>, i: nat): (r: Utf8Result)
    requires i <= |v|
    ensures r.Err? ==> i <= r.validUpTo < |v|
    ensures r.Err? && r.errorLen.Some? ==> 1 <= r.errorLen.value <= 3 && r.validUpTo + r.errorLen.value <= |v|
    decreases |v| - i
  {
    if i == |v| then Ok
    else match ScanUnit(v, i)
      case Complete(w) => ValidateFrom(v, i + w)
      case Invalid(n) => Err(i, Some(n))
      case Truncated => Err(i, None)
  }

  /** The reference verdict on a whole slice. */
  function Validate(v: seq<byte>): Utf8Result {
    ValidateFrom(v, 0)
  }

  // ---------------------------------------------------------------------
  // What a unit scan means in terms of the grammar
  // ---------------------------------------------------------------------

  /** Every prefix of a prefix of a character is one. */
  lemma CharPrefixIsPrefixClosed(p: seq<byte>, k: nat)
    requires k <= |p|
    ensures IsCharPrefix(p) ==> IsCharPrefix(p[..k])
  {
    if IsCharPrefix(p) {
      var c :| IsUtf8Char(c) && p <= c;
      assert p[..k] <= c;
    }
  }

  /** A well-formed character at `i` is the unit the scan finds: the code is prefix-free. */
  lemma ScanUnitFindsChar(v: seq<byte>, i: nat, k: nat)
    requires i < |v| && 1 <= k && i + k <= |v| && IsUtf8Char(v[i..i + k])
    ensures ScanUnit(v, i) == Complete(k)
  {
    var c := v[i..i + k];
    assert c[0] == v[i];
    assert k >= 2 ==> c[1] == v[i + 1];
    assert k >= 3 ==> c[2] == v[i + 2];
    assert k >= 4 ==> c[3] == v[i + 3];
  }

  /** No well-formed character starts at `i` unless the scan says so. */
  lemma NoCharUnlessComplete(v: seq<byte>, i: nat)
    requires i < |v| && !ScanUnit(v, i).Complete?
    ensures forall j :: i < j <= |v| ==> !IsUtf8Char(v[i..j])
  {
    forall j | i < j <= |v|
      ensures !IsUtf8Char(v[i..j])
    {
      if IsUtf8Char(v[i..j]) {
        ScanUnitFindsChar(v, i, j - i);
      }
    }
  }

  /** A character the scan finds cut off is the beginning of a well-formed one. */
  lemma TruncatedIsCharPrefix(v: seq<byte>, i: nat)
    requires i < |v| && ScanUnit(v, i) == Truncated
    ensures IsCharPrefix(v[i..])
  {
    var s := v[i..];
    var lead := v[i];
    var second: byte := if lead == 0xE0 then 0xA0 else if lead == 0xF0 then 0x90 else 0x80;
    var c: seq<byte>;
    if lead <= 0xDF {
      c := [lead, 0x80];
    } else if lead <= 0xEF {
      c := if |s| == 1 then [lead, second, 0x80] else s + [0x80];
    } else {
      c := if |s| == 1 then [lead, second, 0x80, 0x80]
           else if |s| == 2 then s + [0x80, 0x80]
           else s + [0x80];
    }
    assert IsUtf8Char(c) && s <= c;
  }

  /** An ill-formed unit reports exactly its maximal subpart. */
  lemma InvalidIsMaximalSubpart(v: seq<byte>, i: nat)
    requires i < |v| && ScanUnit(v, i).Invalid?
    ensures IsMaximalSubpart(v[i..], ScanUnit(v, i).errorLen)
  {
    var s := v[i..];
    var lead := v[i];
    var n := ScanUnit(v, i).errorLen;
    var second: byte := if lead == 0xE0 then 0xA0 else if lead == 0xF0 then 0x90 else 0x80;
    if 0xC2 <= lead <= 0xF4 {
      // The lead byte begins a character; find one that the first n bytes begin.
      var c: seq<byte>;
      if n == 1 {
        c := if lead <= 0xDF then [lead, 0x80]
             else if lead <= 0xEF then [lead, second, 0x80]
             else [lead, second, 0x80, 0x80];
      } else if n == 2 {
        c := if lead <= 0xEF then s[..2] + [0x80] else s[..2] + [0x80, 0x80];
      } else {
        c := s[..3] + [0x80];
      }
      assert IsUtf8Char(c) && s[..n] <= c;
      assert s[..n + 1][n] == v[i + n];
    }
  }

  // ---------------------------------------------------------------------
  // What the walk means in terms of the grammar
  // ---------------------------------------------------------------------

  /** Two well-formed characters that begin the same input have the same length. */
  lemma CharsArePrefixFree(s: seq<byte>, k: nat, m: nat)
    requires k <= |s| && m <= |s| && IsUtf8Char(s[..k]) && IsUtf8Char(s[..m])
    ensures k == m
  {
    assert s[..k][0] == s[0] == s[..m][0];
    assert k >= 2 && m >= 2 ==> s[..k][1] == s[1] == s[..m][1];
    assert k >= 3 && m >= 3 ==> s[..k][2] == s[2] == s[..m][2];
  }

  /** Once a character is split off, the rest decides well-formedness. */
  lemma IsUtf8AfterChar(s: seq<byte>, k: nat)
    requires 1 <= k <= |s| && IsUtf8Char(s[..k])
    ensures IsUtf8Octets(s) <==> IsUtf8Octets(s[k..])
  {
    if IsUtf8Octets(s) {
      var m :| 1 <= m <= |s| && m <= 4 && IsUtf8Char(s[..m]) && IsUtf8Octets(s[m..]);
      CharsArePrefixFree(s, k, m);
    }
  }

  /** At a unit that is not a character the walk stops with that unit's error. */
  lemma ValidateFromAtBadUnit(v: seq<byte>, i: nat)
    requires i < |v| && !ScanUnit(v, i).Complete?
    ensures ValidateFrom(v, i) ==
      if ScanUnit(v, i).Invalid? then Err(i, Some(ScanUnit(v, i).errorLen)) else Err(i, None)
  {}

  /** The walk accepts exactly the concatenations of well-formed characters. */
  lemma {:induction false} ValidateFromIsUtf8(v: seq<byte>, i: nat)
    requires i <= |v|
    ensures ValidateFrom(v, i) == Ok <==> IsUtf8Octets(v[i..])
    decreases |v| - i
  {
    var s := v[i..];
    if i == |v| {
      assert s == [];
    } else if ScanUnit(v, i).Complete? {
      var w := ScanUnit(v, i).width;
      assert s[..w] == v[i..i + w] && s[w..] == v[i + w..];
      IsUtf8AfterChar(s, w);
      ValidateFromIsUtf8(v, i + w);
    } else {
      NoCharUnlessComplete(v, i);
    }
  }

  /** The walk stops at the first unit that is not a character, and everything before it is well-formed. */
  lemma {:induction false} ValidateFromStopsAtBadUnit(v: seq<byte>, i: nat)
    requires i <= |v| && ValidateFrom(v, i).Err?
    ensures var e := ValidateFrom(v, i);
      && IsUtf8Octets(v[i..e.validUpTo])
      && (e.errorLen.None? ==> ScanUnit(v, e.validUpTo) == Truncated)
      && (e.errorLen.Some? ==> ScanUnit(v, e.validUpTo) == Invalid(e.errorLen.value))
    decreases |v| - i
  {
    match ScanUnit(v, i)
    case Complete(w) =>
      ValidateFromStopsAtBadUnit(v, i + w);
      var up := ValidateFrom(v, i).validUpTo;
      var s := v[i..up];
      assert s[..w] == v[i..i + w] && s[w..] == v[i + w..up];
    case Invalid(_) =>
      assert v[i..i] == [];
    case Truncated =>
      assert v[i..i] == [];
  }

  /** `Validate` accepts exactly the well-formed UTF-8 sequences. */
  lemma ValidateAcceptsUtf8(v: seq<byte>)
    ensures Validate(v) == Ok <==> IsUtf8Octets(v)
  {
    ValidateFromIsUtf8(v, 0);
    assert v[0..] == v;
  }

  /**
   * On an error, `validUpTo` ends a well-formed prefix, no character starts
   * there, and `errorLen` is `None` exactly when the rest of the input is the
   * beginning of a character, otherwise the length of the maximal subpart.
   */
  lemma ValidateErrorMeaning(v: seq<byte>)
    requires Validate(v).Err?
    ensures var up := Validate(v).validUpTo;
      && up < |v|
      && IsUtf8Octets(v[..up])
      && !IsUtf8Octets(v)
      && (forall j :: up < j <= |v| ==> !IsUtf8Char(v[up..j]))
    ensures var up := Validate(v).validUpTo;
      Validate(v).errorLen.None? ==> IsCharPrefix(v[up..])
    ensures var up := Validate(v).validUpTo;
      Validate(v).errorLen.Some? ==> IsMaximalSubpart(v[up..], Validate(v).errorLen.value)
  {
    var up := Validate(v).validUpTo;
    ValidateFromStopsAtBadUnit(v, 0);
    assert v[0..up] == v[..up];
    ValidateAcceptsUtf8(v);
    NoCharUnlessComplete(v, up);
    if Validate(v).errorLen.None? {
      TruncatedIsCharPrefix(v, up);
    } else {
      InvalidIsMaximalSubpart(v, up);
    }
  }

  // ---------------------------------------------------------------------
  // Prefixes of well-formed input
  // ---------------------------------------------------------------------

  /** Cutting the input inside a character leaves a unit the scan sees as cut off. */
  lemma ScanUnitOfCut(v: seq<byte>, i: nat, k: nat)
    requires i < k <= |v| && ScanUnit(v, i).Complete? && k < i + ScanUnit(v, i).width
    ensures ScanUnit(v[..k], i) == Truncated
  {
    var u := v[..k];
    assert u[i] == v[i];
    assert i + 1 < k ==> u[i + 1] == v[i + 1];
    assert i + 2 < k ==> u[i + 2] == v[i + 2];
  }

  /** Well-formed input starts with a complete unit. */
  lemma Utf8StartsWithChar(v: seq<byte>, i: nat)
    requires i < |v| && IsUtf8Octets(v[i..])
    ensures ScanUnit(v, i).Complete?
  {
    ValidateFromIsUtf8(v, i);
  }

  /** What follows the first character of well-formed input is well-formed. */
  lemma RestAfterChar(v: seq<byte>, i: nat)
    requires i < |v| && IsUtf8Octets(v[i..]) && ScanUnit(v, i).Complete?
    ensures IsUtf8Octets(v[i + ScanUnit(v, i).width..])
  {
    var s := v[i..];
    var w := ScanUnit(v, i).width;
    assert s[..w] == v[i..i + w] && s[w..] == v[i + w..];
    IsUtf8AfterChar(s, w);
  }

  /** A whole character at `i` inside the cut `v[..k]`: the walk on the cut goes on after it. */
  lemma CutKeepsChar(v: seq<byte>, k: nat, i: nat)
    requires i < k <= |v| && ScanUnit(v, i).Complete?
    requires i + ScanUnit(v, i).width <= k
    ensures ValidateFrom(v[..k], i) == ValidateFrom(v[..k], i + ScanUnit(v, i).width)
  {
    var w := ScanUnit(v, i).width;
    assert v[..k][i..i + w] == v[i..i + w];
    ScanUnitFindsChar(v[..k], i, w);
  }

  lemma {:induction false} PrefixOfUtf8From(v: seq<byte>, k: nat, i: nat)
    requires i <= k <= |v| && IsUtf8Octets(v[i..])
    ensures ValidateFrom(v[..k], i).Ok? || ValidateFrom(v[..k], i).errorLen.None?
    decreases k - i
  {
    if i < k {
      Utf8StartsWithChar(v, i);
      var w := ScanUnit(v, i).width;
      if i + w <= k {
        RestAfterChar(v, i);
        CutKeepsChar(v, k, i);
        PrefixOfUtf8From(v, k, i + w);
      } else {
        ScanUnitOfCut(v, i, k);
      }
    }
  }

  /** A prefix of well-formed input is never reported ill-formed, at most cut off. */
  lemma PrefixOfUtf8IsNeverInvalid(v: seq<byte>, k: nat)
    requires IsUtf8Octets(v) && k <= |v|
    ensures Validate(v[..k]).Ok? || Validate(v[..k]).errorLen.None?
  {
    assert v[0..] == v;
    PrefixOfUtf8From(v, k, 0);
  }
}
