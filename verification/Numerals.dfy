/** Base-10 integers as the runtime decodes them (packages/reference-runtime/src/form.ts). */
module Numerals {
  import opened Wrappers
  import opened Texts

  const MINUS: CodeUnit := 45
  const ZERO: CodeUnit := 48
  const MAX_SAFE_INTEGER := 9007199254740991

  predicate IsDigit(u: CodeUnit) {
    ZERO <= u <= ZERO + 9
  }

  predicate AllDigits(s: Text) {
    forall i :: 0 <= i < |s| ==> IsDigit(s[i])
  }

  // (?:0|[1-9][0-9]*)
  predicate IsMagnitude(s: Text) {
    s != [] && AllDigits(s) && (s[0] == ZERO ==> |s| == 1)
  }

  // ^-?(?:0|[1-9][0-9]*)$
  predicate MatchesInteger(s: Text) {
    if s != [] && s[0] == MINUS then IsMagnitude(s[1..]) else IsMagnitude(s)
  }

  function DigitsValue(s: Text): nat
    requires AllDigits(s)
  {
    if s == [] then 0 else 10 * DigitsValue(s[..|s| - 1]) + (s[|s| - 1] - ZERO)
  }

  function IntegerValue(s: Text): int
    requires MatchesInteger(s)
  {
    if s[0] == MINUS then 0 - DigitsValue(s[1..]) else DigitsValue(s)
  }

  // Number(value) of a longer numeral may be rounded, but never to a safe integer.
  function DecodeInteger(s: Text): Option<int> {
    if MatchesInteger(s) && -MAX_SAFE_INTEGER <= IntegerValue(s) <= MAX_SAFE_INTEGER
    then Some(IntegerValue(s)) else None
  }

  // String(n) for a safe integer.
  function PrintMagnitude(n: nat): Text {
    if n < 10 then [ZERO + n] else PrintMagnitude(n / 10) + [ZERO + n % 10]
  }

  function PrintInteger(n: int): Text {
    if n < 0 then [MINUS] + PrintMagnitude(-n) else PrintMagnitude(n)
  }

  lemma {:induction false} PrintedMagnitude(n: nat)
    ensures IsMagnitude(PrintMagnitude(n))
    ensures n > 0 ==> PrintMagnitude(n)[0] != ZERO
    ensures DigitsValue(PrintMagnitude(n)) == n
  {
    var s := PrintMagnitude(n);
    if n >= 10 {
      PrintedMagnitude(n / 10);
      assert s[..|s| - 1] == PrintMagnitude(n / 10);
    } else {
      assert s[..0] == [];
    }
  }

  lemma {:induction false} MagnitudePositive(s: Text)
    requires IsMagnitude(s) && s[0] != ZERO
    ensures DigitsValue(s) > 0
  {
    if |s| > 1 {
      MagnitudePositive(s[..|s| - 1]);
    } else {
      assert s[..0] == [];
    }
  }

  lemma {:induction false} MagnitudeIsPrinted(s: Text)
    requires IsMagnitude(s)
    ensures s == PrintMagnitude(DigitsValue(s))
  {
    var before, last := s[..|s| - 1], s[|s| - 1];
    assert s == before + [last];
    if |s| == 1 {
      assert DigitsValue(before) == 0;
    } else {
      MagnitudeIsPrinted(before);
      MagnitudePositive(before);
    }
  }

  lemma NegativeZero()
    ensures DecodeInteger([MINUS, ZERO]) == Some(0)
  {
    var s: Text := [MINUS, ZERO];
    assert s[1..] == [ZERO] && [ZERO][..0] == [];
    assert DigitsValue(s[1..]) == 0;
  }

  // What decodes is what would be printed, or "-0".
  lemma DecodedIsPrinted(s: Text)
    requires MatchesInteger(s)
    ensures s == PrintInteger(IntegerValue(s)) || s == [MINUS, ZERO]
  {
    if s[0] == MINUS {
      MagnitudeIsPrinted(s[1..]);
      assert s == [MINUS] + s[1..];
      if s[1] == ZERO {
        assert s[1..] == [ZERO];
      } else {
        MagnitudePositive(s[1..]);
      }
    } else {
      MagnitudeIsPrinted(s);
    }
  }

  lemma PrintedDecodes(n: int)
    ensures MatchesInteger(PrintInteger(n)) && IntegerValue(PrintInteger(n)) == n
  {
    var s := PrintInteger(n);
    PrintedMagnitude(if n < 0 then -n else n);
    if n < 0 {
      assert s[1..] == PrintMagnitude(-n);
    } else {
      assert s[0] != MINUS;
    }
  }

  // The decoder accepts exactly the printed safe integers, and inverts printing; besides those it takes "-0" as zero.
  lemma DecodeIntegerExact(s: Text, n: int)
    ensures DecodeInteger(s) == Some(n) <==>
      -MAX_SAFE_INTEGER <= n <= MAX_SAFE_INTEGER && (s == PrintInteger(n) || (n == 0 && s == [MINUS, ZERO]))
  {
    NegativeZero();
    PrintedDecodes(n);
    if DecodeInteger(s) == Some(n) {
      DecodedIsPrinted(s);
    }
  }
}
