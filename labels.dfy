/** Cleaning a spot label into the numeric spot ID of the output table:
    every character other than an ASCII digit is removed and the rest is
    read as a decimal integer, which fails when nothing is left
    (scripts/spot_distance_calculation.py, line 65). */
module Labels {
  import opened Types
  import opened Numerals

  predicate NoDigit(s: string) {
    forall i :: 0 <= i < |s| ==> !IsDigit(s[i])
  }

  /** The digits of `s` in their order: `re.sub(r'[^0-9]', '', s)`. */
  function KeepDigits(s: string): (r: string)
    ensures AllDigits(r) && |r| <= |s|
    ensures r == [] <==> NoDigit(s)
    decreases |s|
  {
    if s == [] then []
    else (if IsDigit(s[0]) then [s[0]] else []) + KeepDigits(s[1..])
  }

  /** The spot ID of a label, or the failure of `int('')` when it has no digit. */
  function CleanId(spotLabel: string): (r: Result<nat>)
    ensures r.Failure? <==> NoDigit(spotLabel)
    ensures r.Failure? ==> r.error == NoDigits(spotLabel)
  {
    var digits := KeepDigits(spotLabel);
    if digits == [] then Failure(NoDigits(spotLabel)) else Success(Value(digits))
  }

  /** Stripping works piece by piece, so the kept digits stay in their order. */
  lemma {:induction false} KeepDigitsConcat(a: string, b: string)
    ensures KeepDigits(a + b) == KeepDigits(a) + KeepDigits(b)
    decreases |a|
  {
    if a != [] {
      assert (a + b)[0] == a[0] && (a + b)[1..] == a[1..] + b;
      KeepDigitsConcat(a[1..], b);
      var head := if IsDigit(a[0]) then [a[0]] else [];
      assert KeepDigits(a + b) == head + (KeepDigits(a[1..]) + KeepDigits(b));
    } else {
      assert a + b == b;
    }
  }

  /** A string of digits is kept whole. */
  lemma {:induction false} KeepDigitsOfDigits(s: string)
    requires AllDigits(s)
    ensures KeepDigits(s) == s
    decreases |s|
  {
    if s != [] {
      KeepDigitsOfDigits(s[1..]);
    }
  }

  /** The digits of a label between two digit-free parts are read whole. */
  lemma CleanIdKeepsDigits(prefix: string, digits: string, suffix: string)
    requires NoDigit(prefix) && NoDigit(suffix)
    requires AllDigits(digits) && digits != []
    ensures CleanId(prefix + digits + suffix) == Success(Value(digits))
  {
    KeepDigitsConcat(prefix, digits);
    KeepDigitsOfDigits(digits);
    assert KeepDigits(prefix) == [];
    assert KeepDigits(prefix + digits) == digits;
    KeepDigitsConcat(prefix + digits, suffix);
    assert KeepDigits(suffix) == [];
    assert KeepDigits(prefix + digits + suffix) == digits;
  }

  /** A number written between two digit-free parts is the ID read back:
      "spot_42" and "42" both give 42. */
  lemma CleanIdOfNumberedLabel(prefix: string, n: nat, suffix: string)
    requires NoDigit(prefix) && NoDigit(suffix)
    ensures CleanId(prefix + Decimal(n) + suffix) == Success(n)
  {
    CleanIdKeepsDigits(prefix, Decimal(n), suffix);
    ValueOfDecimal(n);
  }

  lemma CleanIdSpot42()
    ensures CleanId("spot_42") == Success(42)
  {
    assert Value("42") == 42;
    CleanIdKeepsDigits("spot_", "42", "");
    assert "spot_" + "42" + "" == "spot_42";
  }

  lemma CleanIdId7()
    ensures CleanId("id7") == Success(7)
  {
    assert Value("7") == 7;
    CleanIdKeepsDigits("id", "7", "");
    assert "id" + "7" + "" == "id7";
  }

  lemma CleanIdNoDigits()
    ensures CleanId("spot").Failure?
  {
    assert NoDigit("spot");
  }
}
