/**
 * The two UTF-8 validators of the crate side by side: the grammar walk of
 * src/lib.rs (whose verdict is `Validate`) and Höhrmann's automaton of
 * src/hoehrmann.rs (whose verdict is `DfaVerdict`). They accept the same
 * slices and report the same `valid_up_to`; they differ only in the error
 * length after a bad third or fourth byte, which the automaton always
 * reports as 1.
 */
module Agreement {
  import opened Common
  import opened Utf8Grammar
  import opened Hoehrmann

  /** A state that is neither accepting nor rejecting: the automaton is inside a character. */
  predicate Pending(s: nat) {
    s != UTF8_ACCEPT && s != UTF8_REJECT
  }

  /**
   * How the automaton, started in the accepting state at the start `i` of a
   * unit, reads that unit: it stays inside a character until position `m`,
   * where it accepts for a complete unit, rejects for an invalid one, or
   * runs out of input for a truncated one.
   */
  lemma UnitRun(v: seq<byte>, i: nat) returns (m: nat)
    requires i < |v| && Run(v[..i]) == UTF8_ACCEPT
    ensures i < m <= |v|
    ensures ScanUnit(v, i).Complete? ==> m == i + ScanUnit(v, i).width && Run(v[..m]) == UTF8_ACCEPT
    ensures ScanUnit(v, i).Invalid? ==> Run(v[..m]) == UTF8_REJECT
    ensures ScanUnit(v, i).Truncated? ==> m == |v| && Pending(Run(v[..m]))
    ensures forall j :: i < j < m ==> Pending(Run(v[..j]))
  {
    var lead := v[i];
    RunStep(v, i);
    if lead <= 0x7F || !(0xC2 <= lead <= 0xF4) {
      m := i + 1;
    } else if lead <= 0xDF {
      m := UnitRunTwo(v, i);
    } else if lead <= 0xEF {
      m := UnitRunThree(v, i);
    } else {
      m := UnitRunFour(v, i);
    }
  }

  lemma UnitRunTwo(v: seq<byte>, i: nat) returns (m: nat)
    requires i < |v| && Run(v[..i]) == UTF8_ACCEPT && 0xC2 <= v[i] <= 0xDF
    ensures i < m <= |v|
    ensures ScanUnit(v, i).Complete? ==> m == i + ScanUnit(v, i).width && Run(v[..m]) == UTF8_ACCEPT
    ensures ScanUnit(v, i).Invalid? ==> Run(v[..m]) == UTF8_REJECT
    ensures ScanUnit(v, i).Truncated? ==> m == |v| && Pending(Run(v[..m]))
    ensures forall j :: i < j < m ==> Pending(Run(v[..j]))
  {
    RunStep(v, i);
    if i + 1 == |v| {
      m := i + 1;
    } else {
      RunStep(v, i + 1);
      m := i + 2;
    }
  }

  /** After a three-byte lead the automaton takes exactly the second bytes RFC 3629 allows. */
  lemma AfterThreeByteLead(lead: byte, b: byte)
    requires 0xE0 <= lead <= 0xEF
    ensures Pending(NextState(UTF8_ACCEPT, lead))
    ensures NextState(NextState(UTF8_ACCEPT, lead), b) == if SecondOfThree(lead, b) then 24 else UTF8_REJECT
  {}

  /** After a four-byte lead the automaton takes exactly the second bytes RFC 3629 allows. */
  lemma AfterFourByteLead(lead: byte, b: byte)
    requires 0xF0 <= lead <= 0xF4
    ensures Pending(NextState(UTF8_ACCEPT, lead))
    ensures NextState(NextState(UTF8_ACCEPT, lead), b) == if SecondOfFour(lead, b) then 36 else UTF8_REJECT
  {}

  lemma UnitRunThree(v: seq<byte>, i: nat) returns (m: nat)
    requires i < |v| && Run(v[..i]) == UTF8_ACCEPT && 0xE0 <= v[i] <= 0xEF
    ensures i < m <= |v|
    ensures ScanUnit(v, i).Complete? ==> m == i + ScanUnit(v, i).width && Run(v[..m]) == UTF8_ACCEPT
    ensures ScanUnit(v, i).Invalid? ==> Run(v[..m]) == UTF8_REJECT
    ensures ScanUnit(v, i).Truncated? ==> m == |v| && Pending(Run(v[..m]))
    ensures forall j :: i < j < m ==> Pending(Run(v[..j]))
  {
    RunStep(v, i);
    if i + 1 == |v| {
      AfterThreeByteLead(v[i], v[i]);
      m := i + 1;
    } else {
      RunStep(v, i + 1);
      AfterThreeByteLead(v[i], v[i + 1]);
      if !SecondOfThree(v[i], v[i + 1]) || i + 2 == |v| {
        m := i + 2;
      } else {
        RunStep(v, i + 2);
        m := i + 3;
      }
    }
  }

  lemma UnitRunFour(v: seq<byte>, i: nat) returns (m: nat)
    requires i < |v| && Run(v[..i]) == UTF8_ACCEPT && 0xF0 <= v[i] <= 0xF4
    ensures i < m <= |v|
    ensures ScanUnit(v, i).Complete? ==> m == i + ScanUnit(v, i).width && Run(v[..m]) == UTF8_ACCEPT
    ensures ScanUnit(v, i).Invalid? ==> Run(v[..m]) == UTF8_REJECT
    ensures ScanUnit(v, i).Truncated? ==> m == |v| && Pending(Run(v[..m]))
    ensures forall j :: i < j < m ==> Pending(Run(v[..j]))
  {
    RunStep(v, i);
    if i + 1 == |v| {
      AfterFourByteLead(v[i], v[i]);
      m := i + 1;
    } else {
      RunStep(v, i + 1);
      AfterFourByteLead(v[i], v[i + 1]);
      if !SecondOfFour(v[i], v[i + 1]) || i + 2 == |v| {
        m := i + 2;
      } else {
        assert Run(v[..i + 2]) == 36;
        RunStep(v, i + 2);
        if !IsTail(v[i + 2]) || i + 3 == |v| {
          m := i + 3;
        } else {
          assert Run(v[..i + 3]) == 24;
          RunStep(v, i + 3);
          m := i + 4;
        }
      }
    }
  }

  /**
   * The relation between the two verdicts: equal, or the walk reports an
   * error of length 2 or 3 where the automaton reports length 1 at the same
   * index.
   */
  predicate Agree(lib: Utf8Result, dfa: Utf8Result) {
    || lib == dfa
    || (&& lib.Err? && lib.errorLen.Some? && 2 <= lib.errorLen.value
        && dfa == Err(lib.validUpTo, Some(1)))
  }

  /** Rejecting at `m` inside the unit that starts at `i`: the automaton reports `Err(i, Some(1))`. */
  lemma DfaVerdictOnRejectedUnit(v: seq<byte>, i: nat, m: nat)
    requires i < m <= |v| && Run(v[..i]) == UTF8_ACCEPT && Run(v[..m]) == UTF8_REJECT
    requires forall j :: i < j < m ==> Pending(Run(v[..j]))
    ensures DfaVerdict(v) == Err(i, Some(1))
  {
    assert v[..|v|] == v;
    RejectIsAbsorbing(v, m, |v|);
    forall j | m < j <= |v|
      ensures Run(v[..j]) != UTF8_ACCEPT
    {
      RejectIsAbsorbing(v, m, j);
    }
    LastAcceptSkips(v, i, |v|);
  }

  /** Running out of input inside the unit that starts at `i`: the automaton reports `Err(i, None)`. */
  lemma DfaVerdictOnTruncatedUnit(v: seq<byte>, i: nat)
    requires i < |v| && Run(v[..i]) == UTF8_ACCEPT
    requires forall j :: i < j <= |v| ==> Pending(Run(v[..j]))
    ensures DfaVerdict(v) == Err(i, None)
  {
    assert v[..|v|] == v;
    LastAcceptSkips(v, i, |v|);
  }

  /** At a unit that is not a complete character the automaton reports an error at its start. */
  lemma DfaVerdictAtBadUnit(v: seq<byte>, i: nat)
    requires i < |v| && Run(v[..i]) == UTF8_ACCEPT && !ScanUnit(v, i).Complete?
    ensures DfaVerdict(v) == if ScanUnit(v, i).Invalid? then Err(i, Some(1)) else Err(i, None)
  {
    var m := UnitRun(v, i);
    if ScanUnit(v, i).Invalid? {
      DfaVerdictOnRejectedUnit(v, i, m);
    } else {
      DfaVerdictOnTruncatedUnit(v, i);
    }
  }

  /** From a unit boundary where the automaton accepts, the rest of the walk agrees with it. */
  lemma {:induction false} AgreeFrom(v: seq<byte>, i: nat)
    requires i <= |v| && Run(v[..i]) == UTF8_ACCEPT
    ensures Agree(ValidateFrom(v, i), DfaVerdict(v))
    decreases |v| - i
  {
    if i == |v| {
      assert v[..|v|] == v;
    } else if ScanUnit(v, i).Complete? {
      var m := UnitRun(v, i);
      AgreeFrom(v, m);
    } else {
      ValidateFromAtBadUnit(v, i);
      DfaVerdictAtBadUnit(v, i);
    }
  }

  /**
   * The two validators agree on Ok versus Err, on `valid_up_to` and on
   * whether the error length is `None`; where they differ the walk reports
   * length 2 or 3 and the automaton length 1.
   */
  lemma ValidatorsAgree(v: seq<byte>)
    ensures Validate(v).Ok? <==> DfaVerdict(v).Ok?
    ensures Validate(v).Err? ==> DfaVerdict(v).Err? && DfaVerdict(v).validUpTo == Validate(v).validUpTo
    ensures Validate(v).Err? ==> (Validate(v).errorLen.None? <==> DfaVerdict(v).errorLen.None?)
    ensures Validate(v) != DfaVerdict(v) ==>
      && Validate(v).Err? && Validate(v).errorLen.Some? && 2 <= Validate(v).errorLen.value <= 3
      && DfaVerdict(v) == Err(Validate(v).validUpTo, Some(1))
  {
    assert v[..0] == [];
    AgreeFrom(v, 0);
  }

  /** The automaton ends in the accepting state exactly on the slices that are UTF-8. */
  lemma DfaAcceptsUtf8(v: seq<byte>)
    ensures Run(v) == UTF8_ACCEPT <==> IsUtf8Octets(v)
  {
    ValidatorsAgree(v);
    ValidateAcceptsUtf8(v);
  }

  /** What the automaton's error means in terms of RFC 3629. */
  lemma DfaErrorMeaning(v: seq<byte>)
    requires DfaVerdict(v).Err?
    ensures IsUtf8Octets(v[..DfaVerdict(v).validUpTo])
    ensures DfaVerdict(v).errorLen.None? ==> IsCharPrefix(v[DfaVerdict(v).validUpTo..])
    ensures DfaVerdict(v).errorLen.Some? ==> !IsCharPrefix(v[DfaVerdict(v).validUpTo..])
  {
    ValidatorsAgree(v);
    ValidateErrorMeaning(v);
    var up := Validate(v).validUpTo;
    if Validate(v).errorLen.Some? {
      var n := Validate(v).errorLen.value;
      CharPrefixIsPrefixClosed(v[up..], if n == 1 then 1 else n + 1);
    }
  }

  /** `[E1 80 41]`: the walk reports the bad third byte with length 2, the automaton with length 1. */
  lemma ErrorLengthsDiffer()
    ensures Validate([0xE1, 0x80, 0x41]) == Err(0, Some(2))
    ensures DfaVerdict([0xE1, 0x80, 0x41]) == Err(0, Some(1))
  {
    var v: seq<byte> := [0xE1, 0x80, 0x41];
    assert ScanUnit(v, 0) == Invalid(2);
    ValidatorsAgree(v);
  }
}
