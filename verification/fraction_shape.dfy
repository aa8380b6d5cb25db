/** The character-level shape every fraction text has, and the recognition
    examples of the class-method tests (spec/fractional_class_methods_spec.rb:124-199)
    derived from it and from the completeness of the scanners. */
module FractionShape {
  import opened Wrappers
  import opened Numerals
  import opened FractionText
  import opened FractionGrammar

  /** The characters a fraction text may hold besides its slash. */
  predicate IsToken(c: char) {
    IsWs(c) || IsDigit(c) || c == '-'
  }

  predicate AllTokens(s: string) {
    forall i :: 0 <= i < |s| ==> IsToken(s[i])
  }

  /** Exactly one slash, at `k`, with a digit on each side, and nothing but
      whitespace, digits and minus signs elsewhere. */
  predicate SlashAt(s: string, k: int) {
    && 0 < k < |s| - 1
    && s[k] == '/' && IsDigit(s[k - 1]) && IsDigit(s[k + 1])
    && forall i :: 0 <= i < |s| && i != k ==> IsToken(s[i])
  }

  predicate OneSlashBetweenDigits(s: string) {
    exists k :: 0 < k < |s| - 1 && SlashAt(s, k)
  }

  lemma AllTokensConcat(a: string, b: string)
    requires AllTokens(a) && AllTokens(b)
    ensures AllTokens(a + b)
  {
    forall i | 0 <= i < |a + b|
      ensures IsToken((a + b)[i])
    {
      if i >= |a| {
        assert (a + b)[i] == b[i - |a|];
      }
    }
  }

  lemma JoinAtSlash(a: string, b: string)
    requires |a| > 0 && AllTokens(a) && IsDigit(a[|a| - 1])
    requires |b| > 0 && AllTokens(b) && IsDigit(b[0])
    ensures SlashAt(a + ("/" + b), |a|)
  {
    var s := a + ("/" + b);
    forall i | 0 <= i < |s| && i != |a|
      ensures IsToken(s[i])
    {
      if i > |a| {
        assert s[i] == b[i - |a| - 1];
      }
    }
  }

  /** The numerator and everything before it. */
  function Front(f: FractionParts): string {
    f.lead + (Sign(f.neg) + (WholeString(f.whole) + f.tail.num))
  }

  lemma FrontTokens(f: FractionParts)
    requires WellFormedFraction(f)
    ensures |Front(f)| > 0 && AllTokens(Front(f)) && IsDigit(Front(f)[|Front(f)| - 1])
  {
    var w := WholeString(f.whole);
    if f.whole.Some? {
      AllTokensConcat(f.whole.value.digits, f.whole.value.gap);
    }
    assert AllTokens(w);
    AllTokensConcat(w, f.tail.num);
    AllTokensConcat(Sign(f.neg), w + f.tail.num);
    AllTokensConcat(f.lead, Sign(f.neg) + (w + f.tail.num));
  }

  lemma FractionStringSplit(f: FractionParts)
    ensures FractionString(f) == Front(f) + ("/" + (f.tail.den + f.tail.trail))
  {
    var w := WholeString(f.whole);
    var t := f.tail;
    assert w + TailString(t) == (w + t.num) + ("/" + (t.den + t.trail));
    assert Sign(f.neg) + ((w + t.num) + ("/" + (t.den + t.trail)))
        == (Sign(f.neg) + (w + t.num)) + ("/" + (t.den + t.trail));
  }

  /** Whatever `fraction?` accepts is whitespace, digits and minus signs
      around exactly one slash, with a digit on each side of it. */
  lemma FractionHasOneSlash(s: string)
    requires MatchesFraction(s)
    ensures OneSlashBetweenDigits(s)
  {
    var f := ScanFraction(s).value;
    var b := f.tail.den + f.tail.trail;
    FrontTokens(f);
    AllTokensConcat(f.tail.den, f.tail.trail);
    FractionStringSplit(f);
    JoinAtSlash(Front(f), b);
  }

  // ---------------------------------------------------------------------
  // Recognition examples (spec/fractional_class_methods_spec.rb:124-199)

  /** A character other than whitespace, a digit, a minus sign or a slash
      spoils the shape. */
  lemma StrayChar(s: string, i: int)
    requires 0 <= i < |s| && !IsToken(s[i]) && s[i] != '/'
    ensures !OneSlashBetweenDigits(s)
  {
  }

  /** So does a second slash. */
  lemma SecondSlash(s: string, i: int, j: int)
    requires 0 <= i < j < |s| && s[i] == '/' && s[j] == '/'
    ensures !OneSlashBetweenDigits(s)
  {
  }

  /** So does a slash without a digit on each side. */
  lemma BareSlash(s: string, k: int)
    requires 0 <= k < |s| && s[k] == '/'
    requires k == 0 || k == |s| - 1 || !IsDigit(s[k - 1]) || !IsDigit(s[k + 1])
    ensures !OneSlashBetweenDigits(s)
  {
  }

  /** The texts the tests expect `fraction?` to refuse. */
  lemma RejectedExamples()
    ensures !MatchesFraction("2.3")
    ensures !MatchesFraction("2/3 9/5")
    ensures !MatchesFraction("n/a")
    ensures !MatchesFraction("3a/4")
    ensures !MatchesFraction("a2/3")
    ensures !MatchesFraction("1 2/3a")
    ensures !MatchesFraction("2 /2")
    ensures !MatchesFraction("1/ 3")
    ensures !MatchesFraction("1  2/  3")
    ensures !MatchesFraction("1 2    /3")
  {
    StrayChar("2.3", 1);
    SecondSlash("2/3 9/5", 1, 5);
    StrayChar("n/a", 0);
    StrayChar("3a/4", 1);
    StrayChar("a2/3", 0);
    StrayChar("1 2/3a", 5);
    BareSlash("2 /2", 2);
    BareSlash("1/ 3", 1);
    BareSlash("1  2/  3", 4);
    BareSlash("1 2    /3", 7);
    forall s | !OneSlashBetweenDigits(s)
      ensures !MatchesFraction(s)
    {
      if MatchesFraction(s) {
        FractionHasOneSlash(s);
      }
    }
  }

  lemma SingleAccepted(p: SingleText)
    requires WellFormedSingle(p) && NoNewline(SingleString(p))
    ensures IsFraction(SingleString(p)) && IsSingleFraction(SingleString(p))
  {
    ScanSingleComplete(p);
    FractionIsSingleOrMixed(SingleString(p));
  }

  lemma MixedAccepted(m: MixedText)
    requires WellFormedMixed(m) && NoNewline(MixedString(m))
    ensures IsFraction(MixedString(m)) && IsMixedFraction(MixedString(m))
  {
    ScanMixedComplete(m);
    FractionIsSingleOrMixed(MixedString(m));
  }

  /** `"3/4"` is a fraction and a single fraction. */
  lemma AcceptsSimple()
    ensures IsSingleFraction("3/4")
  {
    var p := SingleText("", false, Tail("3", "4", ""));
    assert SingleString(p) == "3/4";
    SingleAccepted(p);
  }

  /** `"-3/4"` is a fraction and a single fraction. */
  lemma AcceptsNegativeSimple()
    ensures IsSingleFraction("-3/4")
  {
    var p := SingleText("", true, Tail("3", "4", ""));
    assert SingleString(p) == "-3/4";
    SingleAccepted(p);
  }

  /** `"3/4"` is not a mixed fraction. */
  lemma RefusesSimpleAsMixed()
    ensures !IsMixedFraction("3/4")
  {
    SingleMixedExclusive("3/4");
  }

  /** `"1 11/12"` is a fraction and a mixed fraction. */
  lemma AcceptsMixed()
    ensures IsMixedFraction("1 11/12")
  {
    MixedExample(false, "1", " ", "11", "12", "1 11/12");
  }

  /** `"-1 11/12"` is a mixed fraction. */
  lemma AcceptsNegativeMixed()
    ensures IsMixedFraction("-1 11/12")
  {
    MixedExample(true, "1", " ", "11", "12", "-1 11/12");
  }

  /** `"-6 2/9"` is a fraction. */
  lemma AcceptsNegativeMixedFraction()
    ensures IsFraction("-6 2/9")
  {
    MixedExample(true, "6", " ", "2", "9", "-6 2/9");
  }

  /** More than one space may separate the whole part from the fraction. */
  lemma AcceptsWideGap()
    ensures IsFraction("1  2/3")
  {
    MixedExample(false, "1", "  ", "2", "3", "1  2/3");
  }

  /** Fifteen spaces do as well as one. */
  lemma AcceptsWiderGap()
    ensures IsFraction("3               1/2")
  {
    MixedExample(false, "3", "               ", "1", "2", "3               1/2");
  }

  /** The mixed examples of the tests, spelled out as an optional minus, a
      whole part, a run of spaces and a fraction, are accepted. The texts
      are parameters so that the solver checks the spelling once here and
      compares only literals at each example. */
  lemma MixedExample(neg: bool, whole: string, gap: string, num: string, den: string, s: string)
    requires AllDigits(whole) && |gap| > 0 && forall i :: 0 <= i < |gap| ==> gap[i] == ' '
    requires |num| > 0 && AllDigits(num) && |den| > 0 && AllDigits(den)
    requires s == Sign(neg) + (whole + (gap + (num + ("/" + den))))
    ensures NoNewline(s) && IsFraction(s) && IsMixedFraction(s)
  {
    var m := MixedText("", neg, whole, gap, Tail(num, den, ""));
    assert den + "" == den;
    assert MixedString(m) == s;
    assert '\n' !in whole && '\n' !in gap && '\n' !in num && '\n' !in den;
    MixedAccepted(m);
  }

  /** The single pattern refuses `"1 11/12"`, although one test under
      `single_fraction?` (spec/fractional_class_methods_spec.rb:182-184)
      expects `true` while its title says it should not. */
  lemma MixedIsNotSingle()
    ensures !IsSingleFraction("1 11/12")
  {
    MixedExampleNotSingle("1", " ", "11", "12", "1 11/12");
  }

  /** A mixed example that starts with its whole part is not a single
      fraction. */
  lemma MixedExampleNotSingle(whole: string, gap: string, num: string, den: string, s: string)
    requires |whole| > 0 && AllDigits(whole) && |gap| > 0 && forall i :: 0 <= i < |gap| ==> gap[i] == ' '
    requires |num| > 0 && AllDigits(num) && |den| > 0 && AllDigits(den)
    requires s == whole + (gap + (num + ("/" + den)))
    ensures NoNewline(s) && !IsSingleFraction(s)
  {
    assert s == Sign(false) + (whole + (gap + (num + ("/" + den))));
    MixedExample(false, whole, gap, num, den, s);
    assert IsDigit(whole[0]);
    assert s[0] == whole[0];
    DigitNotWs(s[0]);
    MixedNotSingle(s);
  }

  lemma DigitNotWs(c: char)
    requires IsDigit(c)
    ensures !IsWs(c)
  {
  }

  /** A mixed fraction that does not start with whitespace is not a single
      fraction. */
  lemma MixedNotSingle(s: string)
    requires NoNewline(s) && IsMixedFraction(s) && !IsWs(s[0])
    ensures !IsSingleFraction(s)
  {
    SingleMixedExclusive(s);
  }
}
