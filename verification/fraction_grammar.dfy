/** What the scanners of `FractionText` accept: exactly the strings with a
    well-formed decomposition for their pattern; how the three patterns
    relate; and the recognition examples that the class-method tests state
    (spec/fractional_class_methods_spec.rb:124-199). */
module FractionGrammar {
  import opened Wrappers
  import opened Numerals
  import opened FractionText

  // ---------------------------------------------------------------------
  // Completeness of the scanners

  lemma ScanTailComplete(t: Tail)
    requires WellFormedTail(t)
    ensures ScanTail(TailString(t)) == Some(t)
  {
    var s := TailString(t);
    var u := t.den + t.trail;
    DigitSpanOf(t.num, "/" + u);
    assert s[|t.num|] == '/';
    assert s[..|t.num|] == t.num;
    assert s[|t.num| + 1..] == u;
    if |t.trail| > 0 {
      assert IsWs(t.trail[0]);
    }
    DigitSpanOf(t.den, t.trail);
    assert u[..|t.den|] == t.den;
    assert u[|t.den|..] == t.trail;
    WsSpanOf(t.trail, "");
    assert t.trail + "" == t.trail;
  }

  lemma TailStartsWithDigit(t: Tail)
    requires WellFormedTail(t)
    ensures |TailString(t)| > 0 && IsDigit(TailString(t)[0])
  {
    assert TailString(t)[0] == t.num[0];
  }

  /** No whitespace comes between the numerator and the slash. */
  lemma NoGapInTail(t: Tail)
    requires WellFormedTail(t)
    ensures ScanGap(TailString(t)).None?
  {
    var s := TailString(t);
    DigitSpanOf(t.num, "/" + (t.den + t.trail));
    assert s[|t.num|..][0] == '/';
  }

  /** The leading whitespace, the sign and the body of an assembled text are
      read back as they were put in. */
  lemma BodyOf(lead: string, neg: bool, b: string)
    requires AllWs(lead)
    requires neg || (|b| > 0 && IsDigit(b[0]))
    ensures LeadLength(lead + (Sign(neg) + b)) == |lead|
    ensures HasMinus(lead + (Sign(neg) + b)) == neg
    ensures Body(lead + (Sign(neg) + b)) == b
  {
    var x := Sign(neg) + b;
    var s := lead + x;
    if neg {
      assert x[0] == '-';
      assert x[1..] == b;
    } else {
      assert x[0] == b[0];
    }
    WsSpanOf(lead, x);
    assert s[|lead|..] == x;
    assert s[..|lead|] == lead;
  }

  lemma ScanGapOf(d: string, g: string, x: string)
    requires AllDigits(d) && |g| > 0 && AllWs(g)
    requires |x| == 0 || !IsWs(x[0])
    ensures ScanGap(d + (g + x)) == Some(Gap(d, g, x))
  {
    var t := d + (g + x);
    assert IsWs(g[0]);
    DigitSpanOf(d, g + x);
    assert t[..|d|] == d;
    assert t[|d|..] == g + x;
    WsSpanOf(g, x);
    assert (g + x)[..|g|] == g;
    assert (g + x)[|g|..] == x;
  }

  lemma ConcatWs(a: string, b: string)
    requires AllWs(a) && AllWs(b)
    ensures AllWs(a + b)
  {
    assert forall k :: |a| <= k < |a + b| ==> (a + b)[k] == b[k - |a|];
  }

  lemma ScanSingleComplete(p: SingleText)
    requires WellFormedSingle(p)
    ensures ScanSingle(SingleString(p)) == Some(p)
  {
    TailStartsWithDigit(p.tail);
    BodyOf(p.lead, p.neg, TailString(p.tail));
    ScanTailComplete(p.tail);
    assert SingleString(p)[..|p.lead|] == p.lead;
  }

  /** A mixed text whose whole part is signed or non-empty is read back
      exactly. */
  lemma ScanMixedCompleteWithWhole(m: MixedText)
    requires WellFormedMixed(m) && (m.neg || |m.whole| > 0)
    ensures ScanMixed(MixedString(m)) == Some(m)
  {
    var ts := TailString(m.tail);
    var b := m.whole + (m.gap + ts);
    if !m.neg {
      assert b[0] == m.whole[0];
    }
    BodyOf(m.lead, m.neg, b);
    TailStartsWithDigit(m.tail);
    ScanGapOf(m.whole, m.gap, ts);
    ScanTailComplete(m.tail);
    assert MixedString(m)[..|m.lead|] == m.lead;
  }

  /** A mixed text with an empty unsigned whole part is read back with the
      same captures; only the split of its leading whitespace between `\s*`
      and `\s+` may differ. */
  lemma ScanMixedCompleteEmptyWhole(m: MixedText)
    requires WellFormedMixed(m) && !m.neg && m.whole == []
    ensures ScanMixed(MixedString(m)).Some?
    ensures ScanMixed(MixedString(m)).value.neg == false
    ensures ScanMixed(MixedString(m)).value.whole == []
    ensures ScanMixed(MixedString(m)).value.tail == m.tail
  {
    var s := MixedString(m);
    MixedEmptyWholeBody(m);
    NoGapInTail(m.tail);
    ScanTailComplete(m.tail);
    ScanMixedOfLead(s);
  }

  /** With an empty unsigned whole part, the gap joins the leading
      whitespace and the body is the bare tail. */
  lemma MixedEmptyWholeBody(m: MixedText)
    requires WellFormedMixed(m) && !m.neg && m.whole == []
    ensures Body(MixedString(m)) == TailString(m.tail)
    ensures !HasMinus(MixedString(m)) && LeadLength(MixedString(m)) > 0
  {
    var ts := TailString(m.tail);
    var lead := m.lead + m.gap;
    ConcatWs(m.lead, m.gap);
    assert MixedString(m) == lead + (Sign(false) + ts);
    TailStartsWithDigit(m.tail);
    BodyOf(lead, false, ts);
  }

  /** The backtracking alternative of `ScanMixed`: no gap after the sign,
      so the last leading whitespace character separates. */
  lemma ScanMixedOfLead(s: string)
    requires ScanGap(Body(s)).None? && !HasMinus(s) && LeadLength(s) > 0
    requires ScanTail(Body(s)).Some?
    ensures ScanMixed(s) == Some(MixedFromLeadParts(s, ScanTail(Body(s)).value))
  {
  }

  /** Whatever the mixed pattern describes, the scanner finds, with the same
      captures (sign, whole digits, numerator, denominator). */
  lemma ScanMixedComplete(m: MixedText)
    requires WellFormedMixed(m)
    ensures ScanMixed(MixedString(m)).Some?
    ensures ScanMixed(MixedString(m)).value.neg == m.neg
    ensures ScanMixed(MixedString(m)).value.whole == m.whole
    ensures ScanMixed(MixedString(m)).value.tail == m.tail
  {
    if m.neg || |m.whole| > 0 {
      ScanMixedCompleteWithWhole(m);
    } else {
      ScanMixedCompleteEmptyWhole(m);
    }
  }

  lemma ScanFractionComplete(f: FractionParts)
    requires WellFormedFraction(f)
    ensures ScanFraction(FractionString(f)).Some?
  {
    match f.whole
    case None =>
      SingleBody(f);
      ScanTailComplete(f.tail);
      ScanFractionOfTail(FractionString(f));
    case Some(w) =>
      if f.neg || |w.digits| > 0 {
        ScanFractionCompleteWithWhole(f);
      } else {
        ScanFractionCompleteEmptyWhole(f);
      }
  }

  /** Without a whole part, the body is the bare tail. */
  lemma SingleBody(f: FractionParts)
    requires WellFormedFraction(f) && f.whole.None?
    ensures Body(FractionString(f)) == TailString(f.tail)
  {
    var ts := TailString(f.tail);
    TailStartsWithDigit(f.tail);
    assert FractionString(f) == f.lead + (Sign(f.neg) + ts);
    BodyOf(f.lead, f.neg, ts);
  }

  /** The first alternative of `ScanFraction`: the body is a bare tail. */
  lemma ScanFractionOfTail(s: string)
    requires ScanTail(Body(s)).Some?
    ensures ScanFraction(s).Some?
  {
  }

  /** The second alternative: a whole part and its gap come first. */
  lemma ScanFractionOfGap(s: string, gp: Gap)
    requires ScanGap(Body(s)) == Some(gp) && ScanTail(gp.rest).Some?
    ensures ScanFraction(s).Some?
  {
    if ScanTail(Body(s)).None? {
      assert FractionWithGap(s, gp).Some?;
    }
  }

  lemma ScanFractionCompleteWithWhole(f: FractionParts)
    requires WellFormedFraction(f) && f.whole.Some?
    requires f.neg || |f.whole.value.digits| > 0
    ensures ScanFraction(FractionString(f)).Some?
  {
    var w := f.whole.value;
    var ts := TailString(f.tail);
    TailStartsWithDigit(f.tail);
    ScanTailComplete(f.tail);
    var b := w.digits + (w.gap + ts);
    assert WholeString(f.whole) + ts == b;
    var s := FractionString(f);
    assert s == f.lead + (Sign(f.neg) + b);
    if !f.neg {
      assert b[0] == w.digits[0];
    }
    BodyOf(f.lead, f.neg, b);
    ScanGapOf(w.digits, w.gap, ts);
    ScanFractionOfGap(s, Gap(w.digits, w.gap, ts));
  }

  lemma ScanFractionCompleteEmptyWhole(f: FractionParts)
    requires WellFormedFraction(f) && f.whole.Some?
    requires !f.neg && f.whole.value.digits == []
    ensures ScanFraction(FractionString(f)).Some?
  {
    EmptyWholeBody(f);
    ScanTailComplete(f.tail);
    ScanFractionOfTail(FractionString(f));
  }

  /** With an empty unsigned whole part, the gap joins the leading
      whitespace and the body is the bare tail. */
  lemma EmptyWholeBody(f: FractionParts)
    requires WellFormedFraction(f) && f.whole.Some?
    requires !f.neg && f.whole.value.digits == []
    ensures Body(FractionString(f)) == TailString(f.tail)
  {
    var w := f.whole.value;
    var ts := TailString(f.tail);
    TailStartsWithDigit(f.tail);
    ConcatWs(f.lead, w.gap);
    assert WholeString(f.whole) == w.gap;
    assert FractionString(f) == (f.lead + w.gap) + (Sign(false) + ts);
    BodyOf(f.lead + w.gap, false, ts);
  }

  // ---------------------------------------------------------------------
  // The patterns, declaratively

  /** `fraction?` holds exactly of the strings
      `ws* '-'? (digit* ws+)? digit+ '/' digit+ ws*`. */
  lemma FractionGrammarExact(s: string)
    requires NoNewline(s)
    ensures IsFraction(s) <==> exists f :: WellFormedFraction(f) && FractionString(f) == s
  {
    if IsFraction(s) {
      var f := ScanFraction(s).value;
      assert WellFormedFraction(f) && FractionString(f) == s;
    }
    if exists f :: WellFormedFraction(f) && FractionString(f) == s {
      var f :| WellFormedFraction(f) && FractionString(f) == s;
      ScanFractionComplete(f);
    }
  }

  /** The single pattern matches exactly `ws* '-'? digit+ '/' digit+ ws*`. */
  lemma SingleGrammarExact(s: string)
    ensures MatchesSingle(s) <==> exists p :: WellFormedSingle(p) && SingleString(p) == s
  {
    if exists p :: WellFormedSingle(p) && SingleString(p) == s {
      var p :| WellFormedSingle(p) && SingleString(p) == s;
      ScanSingleComplete(p);
    }
  }

  /** The mixed pattern matches exactly
      `ws* '-'? digit* ws+ digit+ '/' digit+ ws*`. */
  lemma MixedGrammarExact(s: string)
    ensures MatchesMixed(s) <==> exists m :: WellFormedMixed(m) && MixedString(m) == s
  {
    if exists m :: WellFormedMixed(m) && MixedString(m) == s {
      var m :| WellFormedMixed(m) && MixedString(m) == s;
      ScanMixedComplete(m);
    }
  }

  // ---------------------------------------------------------------------
  // How the three patterns relate

  function SingleAsFraction(p: SingleText): (f: FractionParts)
    ensures WellFormedSingle(p) ==> WellFormedFraction(f)
    ensures FractionString(f) == SingleString(p)
  {
    FractionParts(p.lead, p.neg, None, p.tail)
  }

  function MixedAsFraction(m: MixedText): (f: FractionParts)
    ensures WellFormedMixed(m) ==> WellFormedFraction(f)
    ensures FractionString(f) == MixedString(m)
  {
    var f := FractionParts(m.lead, m.neg, Some(WholePart(m.whole, m.gap)), m.tail);
    assert (m.whole + m.gap) + TailString(m.tail) == m.whole + (m.gap + TailString(m.tail));
    f
  }

  /** The general pattern is the union of the single and mixed patterns. */
  lemma FractionIsSingleOrMixed(s: string)
    requires NoNewline(s)
    ensures IsFraction(s) <==> MatchesSingle(s) || MatchesMixed(s)
  {
    if MatchesSingle(s) {
      ScanFractionComplete(SingleAsFraction(ScanSingle(s).value));
    }
    if MatchesMixed(s) {
      ScanFractionComplete(MixedAsFraction(ScanMixed(s).value));
    }
    if IsFraction(s) {
      var f := ScanFraction(s).value;
      match f.whole
      case None =>
        ScanSingleComplete(SingleText(f.lead, f.neg, f.tail));
      case Some(w) =>
        var m := MixedText(f.lead, f.neg, w.digits, w.gap, f.tail);
        assert MixedString(m) == s by {
          assert FractionString(MixedAsFraction(m)) == MixedString(m);
        }
        ScanMixedComplete(m);
    }
  }

  /** The `fraction? and ...` guard in `single_fraction?` and
      `mixed_fraction?` never changes their answer. */
  lemma GuardsAreRedundant(s: string)
    requires NoNewline(s)
    ensures IsSingleFraction(s) == MatchesSingle(s)
    ensures IsMixedFraction(s) == MatchesMixed(s)
    ensures IsSingleFraction(s) || IsMixedFraction(s) <==> IsFraction(s)
  {
    FractionIsSingleOrMixed(s);
  }

  /** A single fraction also matches the mixed pattern exactly when it has
      leading whitespace and no minus sign (`" 3/4"`): `\s*` then yields its
      last character to `\s+`, and the whole part is empty. */
  lemma SingleAlsoMixed(p: SingleText)
    requires WellFormedSingle(p)
    ensures MatchesMixed(SingleString(p)) <==> |p.lead| > 0 && !p.neg
  {
    var ts := TailString(p.tail);
    TailStartsWithDigit(p.tail);
    BodyOf(p.lead, p.neg, ts);
    NoGapInTail(p.tail);
    ScanTailComplete(p.tail);
  }

  /** Without leading whitespace no string matches both the single and the
      mixed pattern. */
  lemma SingleMixedExclusive(s: string)
    requires |s| == 0 || !IsWs(s[0])
    ensures !(MatchesSingle(s) && MatchesMixed(s))
  {
    if MatchesSingle(s) {
      var p := ScanSingle(s).value;
      SingleAlsoMixed(p);
    }
  }
}
