/**
 * The numerals of a range descriptor: decimal digits, optionally preceded
 * by '-' and optionally followed by one unit suffix (apply_suffix and
 * atooff in cchunks.c).
 */
module Numeral {
  import opened Options
  import opened SafeArith

  predicate IsDigit(c: char) {
    '0' <= c <= '9'
  }

  predicate AllDigits(s: string) {
    forall i :: 0 <= i < |s| ==> IsDigit(s[i])
  }

  function DigitValue(c: char): nat
    requires IsDigit(c)
  {
    (c as int) - ('0' as int)
  }

  /** The decimal value of a digit string, most significant digit first. */
  function DigitsValue(s: string): nat
    requires AllDigits(s)
  {
    if s == [] then 0 else DigitsValue(s[..|s| - 1]) * 10 + DigitValue(s[|s| - 1])
  }

  /** The unit suffixes: 'k' and 'm' are 1000-based, 'K' and 'M' 1024-based. */
  function SuffixMultiplier(c: char): (m: Option<nat>)
    ensures m.Some? <==> c in "kmKM"
    ensures m.Some? ==> 1000 <= m.value <= 1024 * 1024
  {
    match c
    case 'k' => Some(1000)
    case 'm' => Some(1000 * 1000)
    case 'K' => Some(1024)
    case 'M' => Some(1024 * 1024)
    case _ => None
  }

  /** apply_suffix: multiply by the unit's factor, failing on an unknown unit or on overflow. */
  function ApplySuffix(val: Off, suffix: char): (r: Option<Off>)
    ensures suffix == 'k' ==> r == Checked(val * 1000)
    ensures suffix == 'm' ==> r == Checked(val * 1000000)
    ensures suffix == 'K' ==> r == Checked(val * 1024)
    ensures suffix == 'M' ==> r == Checked(val * 1048576)
    ensures suffix !in "kmKM" ==> r == None
  {
    match SuffixMultiplier(suffix)
    case None => None
    case Some(m) => MultSafe(val, m)
  }

  /**
   * The value of an unsigned numeral, DIGIT+ followed by at most one unit
   * suffix, as a mathematical integer; None for any other text.
   */
  function UnsignedValue(t: string): Option<nat> {
    if t == [] || !IsDigit(t[0]) then None
    else if AllDigits(t) then Some(DigitsValue(t))
    else
      var digits, unit := t[..|t| - 1], t[|t| - 1];
      if AllDigits(digits) && SuffixMultiplier(unit).Some? then
        Some(DigitsValue(digits) * SuffixMultiplier(unit).value)
      else None
  }

  /** The value of a numeral that may start with '-' when `allowNeg` holds. */
  function NumeralValue(s: string, allowNeg: bool): Option<int> {
    if s != [] && s[0] == '-' then
      if !allowNeg then None
      else match UnsignedValue(s[1..])
        case None => None
        case Some(n) => Some(-(n as int))
    else UnsignedValue(s)
  }

  /** What atooff accepts: a numeral whose value off_t can hold. */
  function ParseNumeral(s: string, allowNeg: bool): Option<Off> {
    match NumeralValue(s, allowNeg)
    case None => None
    case Some(v) => Checked(v)
  }

  function Signed(neg: bool, n: int): int {
    if neg then -n else n
  }

  /** A longer digit string is worth at least as much as any of its prefixes. */
  lemma {:induction false} DigitsValuePrefix(s: string, k: nat)
    requires AllDigits(s) && k <= |s|
    ensures AllDigits(s[..k]) && DigitsValue(s[..k]) <= DigitsValue(s)
    decreases |s| - k
  {
    if k < |s| {
      var init := s[..|s| - 1];
      assert init[..k] == s[..k];
      DigitsValuePrefix(init, k);
    } else {
      assert s[..k] == s;
    }
  }

  /** The value of an accepted numeral is at least that of any leading run of its digits. */
  lemma UnsignedValueAtLeastPrefix(t: string, k: nat)
    requires 0 < k <= |t| && AllDigits(t[..k])
    requires UnsignedValue(t).Some?
    ensures UnsignedValue(t).value >= DigitsValue(t[..k])
  {
    if AllDigits(t) {
      DigitsValuePrefix(t, k);
    } else {
      var digits := t[..|t| - 1];
      assert t[..|t|] == t;
      assert digits[..k] == t[..k];
      DigitsValuePrefix(digits, k);
      MulMonotone(1, SuffixMultiplier(t[|t| - 1]).value, DigitsValue(digits));
    }
  }

  /** A non-digit that is the first character, or not the last, makes the text no numeral. */
  lemma UnsignedRejects(t: string, p: nat)
    requires p < |t| && !IsDigit(t[p]) && (p == 0 || p < |t| - 1)
    ensures UnsignedValue(t) == None
  {
    if p > 0 {
      assert t[..|t| - 1][p] == t[p];
    }
  }

  /** The unsigned value `u`, given the sign `neg`, as far as off_t can hold it. */
  function SignedChecked(neg: bool, u: Option<nat>): Option<Off> {
    match u
    case None => None
    case Some(n) => Checked(Signed(neg, n))
  }

  /** After an optional leading '-' is taken off, what atooff accepts depends only on the rest. */
  lemma ParseNumeralAfterSign(s: string, allowNeg: bool)
    requires s != [] && (s[0] == '-' ==> allowNeg && |s| > 1)
    ensures ParseNumeral(s, allowNeg) ==
      if s[0] == '-' then SignedChecked(true, UnsignedValue(s[1..]))
      else SignedChecked(false, UnsignedValue(s))
  {
  }

  /** One more digit: the decimal value is shifted and the digit added. */
  lemma DigitStep(t: string, i: nat)
    requires i < |t| && AllDigits(t[..i]) && IsDigit(t[i])
    ensures AllDigits(t[..i + 1])
    ensures DigitsValue(t[..i + 1]) == DigitsValue(t[..i]) * 10 + DigitValue(t[i])
  {
    assert t[..i + 1][..i] == t[..i];
  }

  /** Text made of digits only is a numeral worth its decimal value. */
  lemma AllDigitsAccepted(t: string)
    requires t != [] && AllDigits(t)
    ensures UnsignedValue(t) == Some(DigitsValue(t))
  {
  }

  /** Digits then one non-digit: the last character is read as a unit suffix. */
  lemma SuffixAccepted(t: string, neg: bool, val: int)
    requires |t| >= 2 && AllDigits(t[..|t| - 1]) && !IsDigit(t[|t| - 1])
    requires InRange(val) && val == Signed(neg, DigitsValue(t[..|t| - 1]))
    ensures SignedChecked(neg, UnsignedValue(t)) == ApplySuffix(val, t[|t| - 1])
  {
    assert IsDigit(t[..|t| - 1][0]);
    var m := SuffixMultiplier(t[|t| - 1]);
    if m.Some? {
      assert Signed(neg, DigitsValue(t[..|t| - 1]) * m.value) == val * m.value;
    }
  }

  /** Once the digits read so far overflow, no longer numeral around them fits either. */
  lemma OverflowIsFinal(t: string, i: nat, neg: bool)
    requires i < |t| && AllDigits(t[..i + 1])
    requires !InRange(Signed(neg, DigitsValue(t[..i + 1])))
    ensures SignedChecked(neg, UnsignedValue(t)) == None
  {
    if UnsignedValue(t).Some? {
      UnsignedValueAtLeastPrefix(t, i + 1);
    }
  }

  /**
   * atooff: read an optional '-' (only when `allowNeg`), then digits, each
   * folded in with mult_safe and add_safe, then at most one unit suffix in
   * the last position. It succeeds exactly on the numerals whose value fits
   * in off_t, and then yields that value; it never wraps around.
   */
  method AtoOff(s: string, allowNeg: bool) returns (ok: bool, val: Off)
    ensures ok <==> ParseNumeral(s, allowNeg).Some?
    ensures ok ==> val == ParseNumeral(s, allowNeg).value
  {
    val := 0;
    if |s| == 0 {
      return false, val;
    }
    var isNeg := false;
    var t := s;
    if s[0] == '-' {
      if !allowNeg {
        return false, val;
      }
      isNeg := true;
      t := s[1..];
      if |t| == 0 {
        return false, val;
      }
    }
    ParseNumeralAfterSign(s, allowNeg);
    ghost var spec := SignedChecked(isNeg, UnsignedValue(t));
    assert ParseNumeral(s, allowNeg) == spec;

    var i := 0;
    while i < |t|
      invariant 0 <= i <= |t|
      invariant AllDigits(t[..i])
      invariant val == Signed(isNeg, DigitsValue(t[..i]))
    {
      var c := t[i];
      if !IsDigit(c) {
        // the digits end here; only a final, non-initial unit suffix is accepted
        if i == |t| - 1 && i != 0 {
          SuffixAccepted(t, isNeg, val);
          var r := ApplySuffix(val, c);
          if r.Some? {
            return true, r.value;
          }
        } else {
          UnsignedRejects(t, i);
        }
        return false, val;
      }
      var digit: int := DigitValue(c);
      if isNeg {
        digit := -digit;
      }
      DigitStep(t, i);
      var product := MultSafe(val, 10);
      if product.None? {
        OverflowIsFinal(t, i, isNeg);
        return false, val;
      }
      var sum := AddSafe(product.value, digit);
      if sum.None? {
        OverflowIsFinal(t, i, isNeg);
        return false, val;
      }
      val := sum.value;
      i := i + 1;
    }
    assert t[..i] == t;
    AllDigitsAccepted(t);
    ok := true;
  }

  /** The decimal text of `n`, without leading zeros. */
  function DecimalText(n: nat): (t: string)
    ensures t != [] && AllDigits(t)
  {
    var last := ['0' + (n % 10) as char];
    if n < 10 then last else DecimalText(n / 10) + last
  }

  /** Reading the decimal text of `n` gives back `n`. */
  lemma {:induction false} DecimalTextValue(n: nat)
    ensures DigitsValue(DecimalText(n)) == n
  {
    var t := DecimalText(n);
    if n >= 10 {
      DecimalTextValue(n / 10);
      assert t[..|t| - 1] == DecimalText(n / 10);
    } else {
      assert t[..|t| - 1] == [];
    }
  }

  /** Every off_t that is not negative round-trips through its decimal text, with or without a sign allowed. */
  lemma DecimalRoundTrip(n: nat, allowNeg: bool)
    requires n <= OFF_T_MAX
    ensures ParseNumeral(DecimalText(n), allowNeg) == Some(n)
  {
    DecimalTextValue(n);
    AllDigitsAccepted(DecimalText(n));
  }

  /** With a sign allowed, "-" and the decimal text of `n` reads as -n, down to OFF_T_MIN. */
  lemma NegativeDecimalRoundTrip(n: nat)
    requires n <= -OFF_T_MIN
    ensures ParseNumeral("-" + DecimalText(n), true) == Some(-(n as int))
  {
    DecimalTextValue(n);
    AllDigitsAccepted(DecimalText(n));
    assert ("-" + DecimalText(n))[1..] == DecimalText(n);
  }
}
