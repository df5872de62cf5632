/**
 * The worked examples of cchunks' usage text, and the numerals its
 * documentation of atooff accepts and rejects, as facts about the model.
 */
module UsageExamples {
  import opened Options
  import opened SafeArith
  import opened Numeral
  import opened RangeResolver
  import opened CopyDriver

  /** Unit suffixes: 'k' and 'm' are powers of 1000, 'K' and 'M' powers of 1024. */
  lemma SuffixExamples()
    ensures ParseNumeral("5K", false) == Some(5120)
    ensures ParseNumeral("5k", false) == Some(5000)
    ensures ParseNumeral("5M", false) == Some(5242880)
    ensures ParseNumeral("5m", false) == Some(5000000)
  {
    assert "5K"[..1] == "5" && "5k"[..1] == "5" && "5M"[..1] == "5" && "5m"[..1] == "5";
    assert !IsDigit("5K"[1]) && !IsDigit("5k"[1]) && !IsDigit("5M"[1]) && !IsDigit("5m"[1]);
    assert "5"[..0] == "" && DigitsValue("5") == 5;
  }

  /** Texts that are no numeral: an unknown unit, no digit, a unit first, a non-digit inside. */
  lemma RejectedNumerals()
    ensures ParseNumeral("5x", false) == None
    ensures ParseNumeral("", true) == None
    ensures ParseNumeral("-", true) == None
    ensures ParseNumeral("K", true) == None
    ensures ParseNumeral("-K", true) == None
    ensures ParseNumeral("1a2", true) == None
  {
  }

  /** A leading '-' is read only where a sign is allowed. */
  lemma SignExamples()
    ensures ParseNumeral("-5", false) == None
    ensures ParseNumeral("-5", true) == Some(-5)
    ensures ParseNumeral("-5K", true) == Some(-5120)
  {
    assert "-5K"[1..] == "5K" && "5K"[..1] == "5" && !IsDigit("5K"[1]);
  }

  /** FROM text, ':' and TO text resolve to the range the two clauses give. */
  lemma ResolvedFromTexts(inSize: Off, prevTo: Off, ftext: string, ttext: string, f: From, t: To, from: Off, to: Off)
    requires ':' !in ftext
    requires ParseFrom(ftext) == Some(f) && ParseTo(ttext) == Some(t)
    requires ResolveFrom(inSize, prevTo, f) == Some(from) && ResolveTo(inSize, from, t) == Some(to)
    ensures Resolve(inSize, prevTo, ftext + ":" + ttext) == Some(Range(from, to))
  {
    var s := ftext + ":" + ttext;
    assert s == ftext + [':'] + ttext;
    IndexOfAfterPrefix(ftext, ttext);
    assert s[..|ftext|] == ftext && s[|ftext| + 1..] == ttext;
  }

  lemma Hundred()
    ensures UnsignedValue("100") == Some(100)
  {
    assert "100"[..2] == "10" && "10"[..1] == "1" && "1"[..0] == "";
  }

  lemma BackHundred()
    ensures ParseFrom("-100") == Some(FromBack(100))
  {
    Hundred();
    assert "-100"[1..] == "100";
  }

  /** "-100:" on a 250-byte input: the last 100 bytes, [150, 250). */
  lemma LastHundred(prevTo: Off)
    ensures Resolve(250, prevTo, "-100:") == Some(Range(150, 250))
  {
    BackHundred();
    ResolvedFromTexts(250, prevTo, "-100", "", FromBack(100), ToOmitted, 150, 250);
    assert "-100" + ":" + "" == "-100:";
  }

  lemma StartZero()
    ensures ParseFrom("0") == Some(FromStart(0))
  {
    assert "0"[..0] == "";
  }

  lemma BackFifty()
    ensures ParseTo("-50") == Some(ToBack(50))
  {
    assert "-50"[1..] == "50" && "50"[..1] == "5" && "5"[..0] == "";
  }

  /** "0:-50" on a 500-byte input: all but the last 50 bytes, [0, 450). */
  lemma AllButLastFifty(prevTo: Off)
    ensures Resolve(500, prevTo, "0:-50") == Some(Range(0, 450))
  {
    StartZero();
    BackFifty();
    ResolvedFromTexts(500, prevTo, "0", "-50", FromStart(0), ToBack(50), 0, 450);
    assert "0" + ":" + "-50" == "0:-50";
  }

  lemma SkipTwo()
    ensures ParseFrom("+2") == Some(FromSkip(2))
  {
    assert "+2"[1..] == "2" && "2"[..0] == "";
  }

  lemma LengthHundred()
    ensures ParseTo("+100") == Some(ToLength(100))
  {
    Hundred();
    assert "+100"[1..] == "100";
  }

  /** "+2:+100" after a range ending at 100: skip 2 bytes, then take 100, [102, 202). */
  lemma SkipThenLength()
    ensures Resolve(300, 100, "+2:+100") == Some(Range(102, 202))
  {
    SkipTwo();
    LengthHundred();
    ResolvedFromTexts(300, 100, "+2", "+100", FromSkip(2), ToLength(100), 102, 202);
    assert "+2" + ":" + "+100" == "+2:+100";
  }

  lemma EndHundred()
    ensures ParseTo("100") == Some(ToEnd(100))
  {
    Hundred();
  }

  /** "0:100" as the first range: [0, 100). */
  lemma FirstHundred()
    ensures Resolve(300, 0, "0:100") == Some(Range(0, 100))
  {
    StartZero();
    EndHundred();
    ResolvedFromTexts(300, 0, "0", "100", FromStart(0), ToEnd(100), 0, 100);
    assert "0" + ":" + "100" == "0:100";
  }

  lemma StartFiveKibi()
    ensures ParseFrom("5K") == Some(FromStart(5120))
  {
    assert "5K"[..1] == "5" && "5"[..0] == "" && !IsDigit("5K"[1]);
  }

  lemma LengthTwoKibi()
    ensures ParseTo("+2K") == Some(ToLength(2048))
  {
    assert "+2K"[1..] == "2K" && "2K"[..1] == "2" && "2"[..0] == "" && !IsDigit("2K"[1]);
  }

  /** "5K:+2K": 2 KiB starting at 5 KiB, [5120, 7168), on an input large enough. */
  lemma KibiRange(prevTo: Off)
    ensures Resolve(10000, prevTo, "5K:+2K") == Some(Range(5120, 7168))
  {
    StartFiveKibi();
    LengthTwoKibi();
    ResolvedFromTexts(10000, prevTo, "5K", "+2K", FromStart(5120), ToLength(2048), 5120, 7168);
    assert "5K" + ":" + "+2K" == "5K:+2K";
  }

  lemma SkipBackFive()
    ensures ParseFrom("+-5") == Some(FromSkip(-5))
  {
    assert "+-5"[1..] == "-5" && "-5"[1..] == "5" && "5"[..0] == "";
  }

  /** A negative skip: "+-5:100" after a range ending at 50 starts 5 bytes earlier, [45, 100). */
  lemma NegativeSkip()
    ensures Resolve(1000, 50, "+-5:100") == Some(Range(45, 100))
  {
    SkipBackFive();
    EndHundred();
    ResolvedFromTexts(1000, 50, "+-5", "100", FromSkip(-5), ToEnd(100), 45, 100);
    assert "+-5" + ":" + "100" == "+-5:100";
  }

  lemma StartTwoHundred()
    ensures ParseFrom("200") == Some(FromStart(200))
  {
    assert "200"[..2] == "20" && "20"[..1] == "2" && "2"[..0] == "";
  }

  lemma EndNineHundred()
    ensures ParseTo("900") == Some(ToEnd(900))
  {
    assert "900"[..2] == "90" && "90"[..1] == "9" && "9"[..0] == "";
  }

  /** Ranges past the end of the input are cropped: "200:900" on 300 bytes is [200, 300). */
  lemma CroppedAtEnd(prevTo: Off)
    ensures Resolve(300, prevTo, "200:900") == Some(Range(200, 300))
  {
    StartTwoHundred();
    EndNineHundred();
    ResolvedFromTexts(300, prevTo, "200", "900", FromStart(200), ToEnd(900), 200, 300);
    assert "200" + ":" + "900" == "200:900";
  }

  /** Two descriptors resolve one after the other, the second against the first's TO. */
  lemma ResolvedPair(inSize: Off, d1: string, d2: string, r1: Range, r2: Range)
    requires Resolve(inSize, 0, d1) == Some(r1) && Resolve(inSize, r1.to, d2) == Some(r2)
    ensures ResolveAll(inSize, [d1, d2]) == Some([r1, r2])
  {
    assert [d1][..0] == [];
    assert ResolveAll(inSize, []) == Some([]);
    assert [] + [r1] == [r1];
    assert ResolveAll(inSize, [d1]) == Some([r1]);
    assert [d1, d2][..1] == [d1];
    assert [r1] + [r2] == [r1, r2];
  }

  /** "0:100" "+2:+100" on a 300-byte input resolve to [0, 100) and [102, 202). */
  lemma TwoRanges()
    ensures ResolveAll(300, ["0:100", "+2:+100"]) == Some([Range(0, 100), Range(102, 202)])
  {
    FirstHundred();
    SkipThenLength();
    ResolvedPair(300, "0:100", "+2:+100", Range(0, 100), Range(102, 202));
  }

  /** ... and so copy bytes [0, 100) followed by bytes [102, 202) of the input. */
  lemma TwoRangesOutput(input: seq<bv8>)
    requires |input| == 300
    ensures Extract(input, [Range(0, 100), Range(102, 202)]) == input[0..100] + input[102..202]
  {
    var rs := [Range(0, 100), Range(102, 202)];
    assert rs[..1] == [Range(0, 100)] && rs[..1][..0] == [];
  }
}
