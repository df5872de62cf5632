/**
 * The range resolver of cchunks.c (get_range): a descriptor
 * [FROM]:[TO] is read against the input size and the previous range's TO
 * and becomes a half-open interval [from, to) cropped to the input.
 *
 * The resolution is first stated as a value: the descriptor is parsed into
 * a FROM clause and a TO clause (`ParseDescriptor`), each clause is given
 * its raw offset (`RawFrom`, `RawTo`) and the offsets are cropped
 * (`Resolve`). The method `GetRange` then follows the C code step by step
 * and is proved to compute `Resolve`.
 */
module RangeResolver {
  import opened Options
  import opened SafeArith
  import opened Numeral

  /** range_t: `from` is inclusive, `to` exclusive. */
  datatype Range = Range(from: Off, to: Off)

  /** The FROM clause of a descriptor. */
  datatype From =
    | FromOmitted                // empty: offset 0
    | FromStart(start: Off)      // START: an absolute offset
    | FromBack(distance: nat)    // -N: N bytes before the end of the input
    | FromSkip(skip: Off)        // +S: S bytes after the previous TO; S may be negative

  /** The TO clause of a descriptor. */
  datatype To =
    | ToOmitted                  // empty: the end of the input
    | ToEnd(end: Off)            // END: an absolute offset
    | ToBack(distance: nat)      // -N: N bytes before the end of the input
    | ToLength(length: Off)      // +L: L bytes after FROM; L is never negative

  function Min(a: int, b: int): int { if a < b then a else b }
  function Max(a: int, b: int): int { if a > b then a else b }

  /** cc_crop: `a` clamped into [lo, hi]; `lo` wins when the interval is empty. */
  function Crop(a: Off, lo: Off, hi: Off): (r: Off)
    ensures lo <= hi ==> lo <= r <= hi
    ensures lo <= a <= hi ==> r == a
    ensures a < lo || hi < lo ==> r == lo
    ensures lo <= hi < a ==> r == hi
  {
    Max(lo, Min(hi, a))
  }

  /** strstr(s, ":")-style search: the position of the first `c` in `s`. */
  function IndexOf(s: string, c: char): (r: Option<nat>)
    ensures r.None? <==> c !in s
    ensures r.Some? ==> r.value < |s| && s[r.value] == c && c !in s[..r.value]
  {
    if s == [] then None
    else if s[0] == c then Some(0)
    else match IndexOf(s[1..], c)
      case None => None
      case Some(k) =>
        assert s[..k + 1] == [s[0]] + s[1..][..k];
        Some(k + 1)
  }

  /** The FROM text: empty, '-' and a distance, '+' and a signed skip, or an absolute offset. */
  function ParseFrom(f: string): Option<From> {
    if f == [] then Some(FromOmitted)
    else if f[0] == '-' then
      match UnsignedValue(f[1..])
      case Some(n) => if n <= -OFF_T_MIN then Some(FromBack(n)) else None
      case None => None
    else if f[0] == '+' then
      match ParseNumeral(f[1..], true)
      case Some(v) => Some(FromSkip(v))
      case None => None
    else
      match UnsignedValue(f)
      case Some(n) => if InRange(n) then Some(FromStart(n)) else None
      case None => None
  }

  /** The TO text: empty, '-' and a distance, '+' and an unsigned length, or an absolute offset. */
  function ParseTo(t: string): Option<To> {
    if t == [] then Some(ToOmitted)
    else if t[0] == '-' then
      match UnsignedValue(t[1..])
      case Some(n) => if n <= -OFF_T_MIN then Some(ToBack(n)) else None
      case None => None
    else if t[0] == '+' then
      match UnsignedValue(t[1..])
      case Some(n) => if InRange(n) then Some(ToLength(n)) else None
      case None => None
    else
      match UnsignedValue(t)
      case Some(n) => if InRange(n) then Some(ToEnd(n)) else None
      case None => None
  }

  /** A descriptor is split at its first ':'; everything after it is the TO text. */
  function ParseDescriptor(s: string): Option<(From, To)> {
    match IndexOf(s, ':')
    case None => None
    case Some(k) =>
      match (ParseFrom(s[..k]), ParseTo(s[k + 1..]))
      case (Some(f), Some(t)) => Some((f, t))
      case _ => None
  }

  /**
   * FROM before cropping. A skip or a back distance that leaves off_t
   * behave differently: the skip is clamped to OFF_T_MAX, the back distance
   * makes the descriptor fail.
   */
  function RawFrom(inSize: Off, prevTo: Off, f: From): Option<Off> {
    match f
    case FromOmitted => Some(0)
    case FromStart(n) => Some(n)
    case FromBack(n) => Checked(inSize - n)
    case FromSkip(v) => if InRange(prevTo + v) then Some(prevTo + v) else Some(OFF_T_MAX)
  }

  /** TO before cropping; a length past OFF_T_MAX is clamped to OFF_T_MAX. */
  function RawTo(inSize: Off, from: Off, t: To): Option<Off> {
    match t
    case ToOmitted => Some(inSize)
    case ToEnd(n) => Some(n)
    case ToBack(n) => Checked(inSize - n)
    case ToLength(n) => if InRange(from + n) then Some(from + n) else Some(OFF_T_MAX)
  }

  /** FROM: a given FROM is cropped to [0, inSize]; an omitted one is 0. */
  function ResolveFrom(inSize: Off, prevTo: Off, f: From): Option<Off> {
    match RawFrom(inSize, prevTo, f)
    case None => None
    case Some(raw) => if f.FromOmitted? then Some(raw) else Some(Crop(raw, 0, inSize))
  }

  /** TO: a given TO is cropped to [from, inSize]; an omitted one is inSize. */
  function ResolveTo(inSize: Off, from: Off, t: To): Option<Off> {
    match RawTo(inSize, from, t)
    case None => None
    case Some(raw) => if t.ToOmitted? then Some(raw) else Some(Crop(raw, from, inSize))
  }

  /** The range a descriptor denotes, or None when get_range rejects it. */
  function Resolve(inSize: Off, prevTo: Off, s: string): Option<Range> {
    match ParseDescriptor(s)
    case None => None
    case Some((f, t)) =>
      match ResolveFrom(inSize, prevTo, f)
      case None => None
      case Some(from) =>
        match ResolveTo(inSize, from, t)
        case None => None
        case Some(to) => Some(Range(from, to))
  }

  /** With no sign allowed, atooff reads exactly the unsigned numerals. */
  lemma ParseNumeralUnsigned(s: string)
    ensures ParseNumeral(s, false) ==
      match UnsignedValue(s) case None => None case Some(n) => Checked(n)
  {
  }

  /** atooff on "-N" with a sign allowed reads -N, which is how the back forms get their distance. */
  lemma ParseNumeralNegative(s: string)
    requires s != [] && s[0] == '-'
    ensures ParseNumeral(s, true) ==
      match UnsignedValue(s[1..]) case None => None case Some(n) => Checked(-(n as int))
  {
  }

  /** The method's reading of a nonempty FROM text agrees with `ParseFrom`. */
  method ReadFrom(inSize: Off, prevTo: Off, f: string) returns (r: Option<Off>)
    requires f != []
    ensures r == match ParseFrom(f) case None => None case Some(c) => ResolveFrom(inSize, prevTo, c)
  {
    var isBack := f[0] == '-';
    var isSkip := f[0] == '+';
    var text := if isSkip then f[1..] else f;
    if isBack {
      ParseNumeralNegative(f);
    } else if !isSkip {
      ParseNumeralUnsigned(f);
    }
    var ok, val := AtoOff(text, isSkip || isBack);
    if !ok {
      return None;
    }
    var from: Off;
    if isBack {
      var sum := AddSafe(inSize, val);
      if sum.None? {
        return None;  // cannot happen for inSize >= 0 (see BackFromEndNeverFails)
      }
      from := sum.value;
    } else if isSkip {
      var sum := AddSafe(prevTo, val);
      from := if sum.None? then OFF_T_MAX else sum.value;
    } else {
      from := val;
    }
    return Some(Crop(from, 0, inSize));
  }

  /** The method's reading of a nonempty TO text agrees with `ParseTo`. */
  method ReadTo(inSize: Off, from: Off, t: string) returns (r: Option<Off>)
    requires t != []
    ensures r == match ParseTo(t) case None => None case Some(c) => ResolveTo(inSize, from, c)
  {
    var isBack := t[0] == '-';
    var isLength := t[0] == '+';
    var text := if isLength then t[1..] else t;
    if isBack {
      ParseNumeralNegative(t);
    } else {
      ParseNumeralUnsigned(text);
    }
    var ok, val := AtoOff(text, isBack);
    if !ok {
      return None;
    }
    var to: Off;
    if isBack {
      var sum := AddSafe(inSize, val);
      if sum.None? {
        return None;  // cannot happen for inSize >= 0 (see BackFromEndNeverFails)
      }
      to := sum.value;
    } else if isLength {
      var sum := AddSafe(from, val);
      to := if sum.None? then OFF_T_MAX else sum.value;
    } else {
      to := val;
    }
    return Some(Crop(to, from, inSize));
  }

  /**
   * get_range: find the first ':', resolve FROM (0 when empty), then TO
   * (inSize when empty), each with its own crop. It computes `Resolve`.
   */
  method GetRange(inSize: Off, prevTo: Off, s: string) returns (r: Option<Range>)
    ensures r == Resolve(inSize, prevTo, s)
  {
    var sep := IndexOf(s, ':');
    if sep.None? {
      return None;
    }
    var k := sep.value;
    var from: Off := 0;
    if k != 0 {
      var rf := ReadFrom(inSize, prevTo, s[..k]);
      if rf.None? {
        return None;
      }
      from := rf.value;
    }
    var to: Off := inSize;
    var rest := s[k + 1..];
    if |rest| != 0 {
      var rt := ReadTo(inSize, from, rest);
      if rt.None? {
        return None;
      }
      to := rt.value;
    }
    return Some(Range(from, to));
  }

  // ---------------------------------------------------------------------
  // Properties of the resolution

  /** A descriptor without ':' is rejected. */
  lemma NoColonRejected(inSize: Off, prevTo: Off, s: string)
    requires ':' !in s
    ensures Resolve(inSize, prevTo, s) == None
  {
  }

  /** The TO text of a numeral never holds a ':', so a second ':' is rejected: exactly one is accepted. */
  lemma SecondColonRejected(inSize: Off, prevTo: Off, s: string, i: nat, j: nat)
    requires i < j < |s| && s[i] == ':' && s[j] == ':'
    ensures Resolve(inSize, prevTo, s) == None
  {
    var k := IndexOf(s, ':').value;
    var t := s[k + 1..];
    assert t[j - k - 1] == ':';
    if t[0] == '-' || t[0] == '+' {
      if j - k - 1 > 0 {
        assert t[1..][j - k - 2] == ':';
        UnsignedRejectsColon(t[1..], j - k - 2);
      }
    } else {
      UnsignedRejectsColon(t, j - k - 1);
    }
  }

  /** ':' is neither a digit nor a unit, so no numeral contains it. */
  lemma UnsignedRejectsColon(t: string, p: nat)
    requires p < |t| && t[p] == ':'
    ensures UnsignedValue(t) == None
  {
    if p == |t| - 1 && p > 0 {
      assert !AllDigits(t);
      assert SuffixMultiplier(':') == None;
    } else {
      UnsignedRejects(t, p);
    }
  }

  /** Cropping: a resolved range lies inside the input, from <= to, whatever the forms used. */
  lemma ResolvedWithinInput(inSize: Off, prevTo: Off, s: string)
    requires inSize >= 0 && Resolve(inSize, prevTo, s).Some?
    ensures var r := Resolve(inSize, prevTo, s).value; 0 <= r.from <= r.to <= inSize
  {
  }

  /** A TO that resolves before FROM collapses the range to empty; it is never reversed. */
  lemma ReversedRangeCollapses(inSize: Off, prevTo: Off, s: string)
    requires inSize >= 0 && Resolve(inSize, prevTo, s).Some?
    requires ParseDescriptor(s).Some? && ParseDescriptor(s).value.1 != ToOmitted
    requires var r := Resolve(inSize, prevTo, s).value;
      RawTo(inSize, r.from, ParseDescriptor(s).value.1).value <= r.from
    ensures Resolve(inSize, prevTo, s).value.to == Resolve(inSize, prevTo, s).value.from
  {
  }

  /**
   * For a real input size the back-from-end additions never overflow and
   * skip or length overflow is clamped, so the only descriptors rejected
   * are those that do not parse: the failure after add_safe(in_size, val)
   * is unreachable.
   */
  lemma BackFromEndNeverFails(inSize: Off, prevTo: Off, s: string)
    requires inSize >= 0
    ensures Resolve(inSize, prevTo, s).Some? <==> ParseDescriptor(s).Some?
  {
    match ParseDescriptor(s)
    case None =>
    case Some((f, t)) =>
      assert ResolveFrom(inSize, prevTo, f).Some?;
      var from := ResolveFrom(inSize, prevTo, f).value;
      assert 0 <= from <= inSize;
      assert ResolveTo(inSize, from, t).Some?;
  }

  /** A skip that leaves off_t is clamped to OFF_T_MAX and so to the end of the input; it does not fail. */
  lemma SkipOverflowClamps(inSize: Off, prevTo: Off, s: string, skip: Off, t: To)
    requires inSize >= 0
    requires ParseDescriptor(s) == Some((FromSkip(skip), t))
    requires !InRange(prevTo + skip)
    ensures Resolve(inSize, prevTo, s).Some? && Resolve(inSize, prevTo, s).value.from == inSize
  {
    BackFromEndNeverFails(inSize, prevTo, s);
  }

  /** A length that leaves off_t is clamped to OFF_T_MAX and so to the end of the input; it does not fail. */
  lemma LengthOverflowClamps(inSize: Off, prevTo: Off, s: string, f: From, length: Off)
    requires inSize >= 0
    requires ParseDescriptor(s) == Some((f, ToLength(length)))
    requires Resolve(inSize, prevTo, s).Some?
    requires !InRange(Resolve(inSize, prevTo, s).value.from + length)
    ensures Resolve(inSize, prevTo, s).value.to == inSize
  {
  }

  /** The first ':' after a colon-free prefix `f` is at `|f|`. */
  lemma IndexOfAfterPrefix(f: string, rest: string)
    requires ':' !in f
    ensures IndexOf(f + [':'] + rest, ':') == Some(|f|)
  {
    var s := f + [':'] + rest;
    var k := IndexOf(s, ':').value;
    assert s[|f|] == ':';
    assert forall j :: 0 <= j < |f| ==> s[j] == f[j];
    assert forall j :: 0 <= j < k ==> s[..k][j] == s[j];
  }

  /** A length is never negative: TO text "+-..." is rejected. */
  lemma NegativeLengthRejected(inSize: Off, prevTo: Off, f: string, rest: string)
    requires ':' !in f
    ensures Resolve(inSize, prevTo, f + ":+-" + rest) == None
  {
    IndexOfAfterPrefix(f, "+-" + rest);
    assert f + ":+-" + rest == f + [':'] + ("+-" + rest);
    var s := f + ":+-" + rest;
    assert s[|f| + 1..] == "+-" + rest;
    assert ("+-" + rest)[1..][0] == '-';
  }

  /** Empty FROM is 0 and empty TO is the input size: ":" is the whole input. */
  lemma WholeInput(inSize: Off, prevTo: Off)
    requires inSize >= 0
    ensures Resolve(inSize, prevTo, ":") == Some(Range(0, inSize))
  {
    assert ":"[..0] == [] && ":"[1..] == [];
  }
}
